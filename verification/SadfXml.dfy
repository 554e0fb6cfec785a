/** The XML report of sadf: one pass over a data file for the statistics, one for the restarts. */
module SadfXml {
  import opened SaFile
  import opened SaReader

  /** A time stamp compares a record with the one before it. */
  datatype Stamp = Stamp(previous: Record, current: Record)

  /** All neighbours in the file that are both statistics, in order. */
  function Neighbours(rs: seq<Record>): (s: seq<Stamp>) {
    var n := |rs| - 1;
    if n < 1 then []
    else Neighbours(rs[..n]) + if rs[n - 1].IsDummy() || rs[n].IsDummy() then [] else [Stamp(rs[n - 1], rs[n])]
  }

  function Restarts(rs: seq<Record>): (s: seq<Record>) {
    var n := |rs| - 1;
    if n < 0 then [] else Restarts(rs[..n]) + if rs[n].IsDummy() then [rs[n]] else []
  }

  lemma OneMore(rs: seq<Record>, n: nat)
    requires n < |rs|
    ensures Restarts(rs[..n + 1]) == Restarts(rs[..n]) + if rs[n].IsDummy() then [rs[n]] else []
    ensures Neighbours(rs[..n + 1])
            == if n == 0 || rs[n - 1].IsDummy() || rs[n].IsDummy() then Neighbours(rs[..n])
               else Neighbours(rs[..n]) + [Stamp(rs[n - 1], rs[n])]
  {
    assert rs[..n + 1][..n] == rs[..n];
  }

  /** m records of statistics without a restart give m - 1 time stamps, each of two neighbours. */
  lemma {:induction false} OneRun(rs: seq<Record>)
    requires forall i :: 0 <= i < |rs| ==> !rs[i].IsDummy()
    ensures |Neighbours(rs)| == if rs == [] then 0 else |rs| - 1
    ensures forall k :: 0 <= k < |Neighbours(rs)| ==> Neighbours(rs)[k] == Stamp(rs[k], rs[k + 1])
  {
    if |rs| >= 2 {
      OneRun(rs[..|rs| - 1]);
    }
  }

  /** One more record at the end. */
  lemma LastOne(rs: seq<Record>, r: Record)
    ensures Neighbours(rs + [r])
            == Neighbours(rs)
               + if rs == [] || rs[|rs| - 1].IsDummy() || r.IsDummy() then [] else [Stamp(rs[|rs| - 1], r)]
  {
    assert (rs + [r])[..|rs|] == rs;
  }

  /** A restart separates: no time stamp reaches across it. */
  lemma {:induction false} AcrossRestart(a: seq<Record>, d: Record, b: seq<Record>)
    requires d.IsDummy()
    ensures Neighbours(a + [d] + b) == Neighbours(a) + Neighbours(b)
    decreases |b|
  {
    if b == [] {
      LastOne(a, d);
      assert a + [d] + b == a + [d] && Neighbours(a) + [] == Neighbours(a);
    } else {
      var m := |b| - 1;
      var init := b[..m];
      AcrossRestart(a, d, init);
      assert a + [d] + b == (a + [d] + init) + [b[m]] && b == init + [b[m]];
      LastOne(a + [d] + init, b[m]);
      LastOne(init, b[m]);
    }
  }

  /** The time stamps are those of the first j records; a form that keeps the contents of the claim out of the loops. */
  ghost predicate Compared(rs: seq<Record>, j: nat, ts: seq<Stamp>) {
    j <= |rs| && forall k :: k == j ==> ts == Neighbours(rs[..k])
  }

  lemma OneMoreCompared(rs: seq<Record>, j: nat, ts: seq<Stamp>)
    requires Compared(rs, j, ts) && j < |rs|
    ensures Compared(rs, j + 1,
                     if j == 0 || rs[j - 1].IsDummy() || rs[j].IsDummy() then ts
                     else ts + [Stamp(rs[j - 1], rs[j])])
  {
    OneMore(rs, j);
    assert ts == Neighbours(rs[..j]);
  }

  class Report {
    const slot: array<Record>
    var timestamps: seq<Stamp>
    var restarts: seq<Record>

    constructor (any: Record)
      ensures slot.Length == 2 && fresh(slot) && timestamps == [] && restarts == []
    {
      slot, timestamps, restarts := new Record[2](_ => any), [], [];
    }

    /** Skips restarts up to the first record of statistics, which goes to slot 0. */
    method FirstOfRun(rd: Reader, ghost rs: seq<Record>, ghost i: nat) returns (eosaf: bool, ghost j: nat)
      requires rd.Stands(rd.pos, rs, i) && slot.Length == 2
      requires Compared(rs, i, timestamps) && (i > 0 ==> rs[i - 1].IsDummy())
      modifies rd, slot
      ensures rd.Stands(rd.pos, rs, j) && i <= j && Compared(rs, j, timestamps)
      ensures eosaf ==> j == |rs|
      ensures !eosaf ==> j > i && slot[0] == rs[j - 1] && !rs[j - 1].IsDummy()
    {
      j := i;
      var again := true;
      eosaf := false;
      while again
        invariant rd.Stands(rd.pos, rs, j) && i <= j && Compared(rs, j, timestamps)
        invariant eosaf ==> j == |rs| && !again
        invariant again ==> j == 0 || rs[j - 1].IsDummy()
        invariant !again && !eosaf ==> j > i && slot[0] == rs[j - 1] && !rs[j - 1].IsDummy()
        decreases again, |rs| - j
      {
        var o := rd.Fetch(rs, j);
        if o.None? {
          eosaf, again := true, false;
        } else {
          OneMoreCompared(rs, j, timestamps);
          slot[0] := o.value;
          again := slot[0].IsDummy();
          j := j + 1;
        }
      }
    }

    /** Compares the records of a run up to the next restart. */
    method RestOfRun(rd: Reader, ghost rs: seq<Record>, ghost i: nat) returns (eosaf: bool, ghost j: nat)
      requires rd.Stands(rd.pos, rs, i) && slot.Length == 2
      requires Compared(rs, i, timestamps) && i > 0 && slot[0] == rs[i - 1] && !rs[i - 1].IsDummy()
      modifies rd, slot, this`timestamps
      ensures rd.Stands(rd.pos, rs, j) && i <= j && Compared(rs, j, timestamps)
      ensures if eosaf then j == |rs| else j > i && rs[j - 1].IsDummy()
    {
      j := i;
      var curr := 1;
      while true
        invariant rd.Stands(rd.pos, rs, j) && i <= j && Compared(rs, j, timestamps)
        invariant 0 <= curr < 2 && slot[1 - curr] == rs[j - 1] && !rs[j - 1].IsDummy()
        decreases |rs| - j
      {
        var o := rd.Fetch(rs, j);
        if o.None? {
          return true, j;
        }
        OneMoreCompared(rs, j, timestamps);
        j := j + 1;
        slot[curr] := o.value;
        if slot[curr].IsDummy() {
          return false, j;
        }
        timestamps := timestamps + [Stamp(slot[1 - curr], slot[curr])];
        curr := 1 - curr;
      }
    }

    /**
     The whole report: the time stamps are the neighbours in the file, and then every restart appears once, in
     order.
     */
    method XmlDisplayLoop(rd: Reader, ghost rs: seq<Record>)
      requires rd.Stands(rd.pos, rs, 0) && slot.Length == 2 && timestamps == [] && restarts == []
      modifies rd, slot, this
      ensures timestamps == Neighbours(rs)
      ensures restarts == Restarts(rs)
    {
      var fpos := rd.pos;
      var eosaf := false;
      ghost var j := 0;
      while !eosaf
        invariant rd.Stands(rd.pos, rs, j) && Compared(rs, j, timestamps) && restarts == []
        invariant if eosaf then j == |rs| else j == 0 || rs[j - 1].IsDummy()
        decreases !eosaf, |rs| - j
      {
        eosaf, j := FirstOfRun(rd, rs, j);
        if !eosaf {
          eosaf, j := RestOfRun(rd, rs, j);
        }
      }
      assert rs[..|rs|] == rs;
      assert timestamps == Neighbours(rs[..j]);
      rd.pos := fpos;
      j, eosaf := 0, false;
      while !eosaf
        invariant rd.Stands(rd.pos, rs, j) && timestamps == Neighbours(rs) && restarts == Restarts(rs[..j])
        invariant eosaf ==> j == |rs|
        decreases !eosaf, |rs| - j
      {
        var o := rd.Fetch(rs, j);
        eosaf := o.None?;
        if !eosaf {
          OneMore(rs, j);
          slot[0] := o.value;
          if slot[0].IsDummy() {
            restarts := restarts + [slot[0]];
          }
          j := j + 1;
        }
      }
    }
  }
}
