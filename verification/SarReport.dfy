/**
 The passes of sar over a data file.  Three slots hold records: slots 0 and 1 take turns for the
 record being read and the one displayed before it, slot 2 keeps the first record of a run.  Each
 activity gets a pass of its own, with one line for each displayed record and an average line.
 Displaying a line may reset interface and disk entries of the record it is compared with, so a slot
 keeps those apart from the record as it was read.
 */
module SarReport {
  import opened Common
  import opened SaFile
  import opened SaReader
  import opened SaDevices
  import NextSlice

  /**
   What becomes of a record in a pass: it does not fall into the interval or is too early, too late, or is
   displayed.
   */
  datatype Verdict = Skip | TooLate | Show

  datatype Line = Line(previous: Record, current: Record)

  /** A record as read, and its interfaces and disks as they are now. */
  datatype Slot = Slot(rec: Record, devs: Devices)

  function Loaded(h: Header, r: Record): (s: Slot) {
    Slot(r, DevicesOf(h, r))
  }

  // ---------- Which records are displayed ----------

  /** The displayed records, where reading stops, what is left of the count, and whether the file has ended. */
  datatype Walked = Walked(shown: seq<nat>, next: nat, cnt: int, eosaf: bool)

  function Walk(rs: seq<Record>, i: nat, cnt: int, v: nat -> Verdict): (w: Walked)
    requires i <= |rs|
    ensures i <= w.next <= |rs|
    decreases |rs| - i
  {
    if i == |rs| then Walked([], i, cnt, true)
    else if rs[i].IsDummy() then Walked([], i + 1, cnt, false)
    else
      match v(i)
      case TooLate => Walked([], i + 1, 0, false)
      case Skip => if cnt == 0 then Walked([], i + 1, 0, false) else Walk(rs, i + 1, cnt, v)
      case Show =>
        var left := if cnt > 0 then cnt - 1 else cnt;
        if left == 0 then Walked([i], i + 1, 0, false)
        else
          var w := Walk(rs, i + 1, left, v);
          w.(shown := [i] + w.shown)
  }

  /** The records from i to j that are to be displayed. */
  function Chosen(v: nat -> Verdict, i: nat, j: nat): (c: seq<nat>)
    requires i <= j
    decreases j - i
  {
    if i == j then [] else (if v(i).Show? then [i] else []) + Chosen(v, i + 1, j)
  }

  /** The last record a walk looks at is not one to display if it is a restart. */
  function WalkEnd(rs: seq<Record>, i: nat, w: Walked): (j: nat)
    requires i <= w.next <= |rs|
  {
    if w.next > i && rs[w.next - 1].IsDummy() then w.next - 1 else w.next
  }

  /**
   A pass displays the records in question up to the next restart or the end of the file, unless the
   count or the time limit stops it first, and never more than the count.
   */
  lemma {:induction false} WalkShows(rs: seq<Record>, i: nat, cnt: int, v: nat -> Verdict)
    requires i <= |rs|
    ensures var w := Walk(rs, i, cnt, v);
            var j := WalkEnd(rs, i, w);
            && i <= j && w.shown == Chosen(v, i, j)
            && (forall k :: i <= k < j ==> !rs[k].IsDummy())
            && (w.cnt != 0 ==> if w.eosaf then j == |rs| else j < |rs| && rs[j].IsDummy())
            && (cnt > 0 ==> |w.shown| <= cnt)
    decreases |rs| - i
  {
    if i < |rs| && !rs[i].IsDummy() {
      assert Chosen(v, i, i + 1) == (if v(i).Show? then [i] else []) + Chosen(v, i + 1, i + 1);
      match v(i)
      case TooLate =>
      case Skip =>
        if cnt != 0 {
          WalkShows(rs, i + 1, cnt, v);
        }
      case Show =>
        var left := if cnt > 0 then cnt - 1 else cnt;
        if left != 0 {
          WalkShows(rs, i + 1, left, v);
        }
    }
  }

  // ---------- Which records are selected ----------

  /**
   The interval between lines that the user wants, and which records are before the start time and after the end
   time.
   */
  datatype Selection = Selection(interval: nat, early: nat -> bool, late: nat -> bool) {
    predicate InRange() {
      0 < interval < TWO31
    }
  }

  function Uptime(r: Record): (u: nat) {
    Number(r, 0, 8)
  }

  /** A multiple of the interval is near enough to the record; the window reaches half-way back to the uptime `from`. */
  ghost predicate NearMultiple(first: nat, from: nat, uptime: nat, cpus: nat, interval: nat)
    requires cpus > 0
  {
    var spacing, entry := NextSlice.Seconds(from, uptime, cpus), NextSlice.Seconds(first, uptime, cpus);
    NextSlice.MultipleIn(NextSlice.WindowStart(entry, spacing), NextSlice.WindowEnd(entry, spacing), interval)
  }

  function Verdicts(near: bool, early: bool, late: bool): (v: Verdict) {
    if !near || early then Skip else if late then TooLate else Show
  }

  /** The distance is that to the record before, or to the first one of the run if that one's uptime is zero. */
  function Before(rs: seq<Record>, f: nat, i: nat): (u: nat)
    requires f < i < |rs|
  {
    if Uptime(rs[i - 1]) == 0 then Uptime(rs[f]) else Uptime(rs[i - 1])
  }

  /** Whether record i of the run that begins with record f is displayed. */
  ghost function Decision(rs: seq<Record>, f: nat, proc: nat, sel: Selection, i: nat): (v: Verdict) {
    if f < i < |rs| then
      Verdicts(NearMultiple(Uptime(rs[f]), Before(rs, f, i), Uptime(rs[i]), proc + 1, sel.interval), sel.early(i),
               sel.late(i))
    else Skip
  }

  ghost function Decisions(rs: seq<Record>, f: nat, proc: nat, sel: Selection): (v: nat -> Verdict) {
    (i: nat) => Decision(rs, f, proc, sel, i)
  }

  /** A run of n + 1 records, s seconds apart, within the time limits, and then a restart or the end of the file. */
  ghost predicate EvenRun(rs: seq<Record>, f: nat, n: nat, start: nat, s: nat, proc: nat, sel: Selection) {
    && s > 0 && f + n < |rs| && n * s * ((proc + 1) * NextSlice.HZ) < TWO32
    && (forall j: nat :: j <= n ==> EvenRecord(rs, f, start, s, proc, sel, j))
    && (f + n + 1 < |rs| ==> rs[f + n + 1].IsDummy())
  }

  ghost predicate EvenRecord(rs: seq<Record>, f: nat, start: nat, s: nat, proc: nat, sel: Selection, j: nat) {
    && f + j < |rs| && !rs[f + j].IsDummy() && !sel.early(f + j) && !sel.late(f + j)
    && Uptime(rs[f + j]) == NextSlice.UptimeAt(start, j, s, proc + 1)
  }

  lemma EvenDecision(rs: seq<Record>, f: nat, n: nat, start: nat, s: nat, proc: nat, sel: Selection, j: nat)
    requires EvenRun(rs, f, n, start, s, proc, sel) && 1 <= j <= n
    ensures Decision(rs, f, proc, sel, f + j) == if NextSlice.Chosen(j, s, sel.interval) then Show else Skip
  {
    var cpus := proc + 1;
    assert EvenRecord(rs, f, start, s, proc, sel, 0) && EvenRecord(rs, f, start, s, proc, sel, j - 1)
           && EvenRecord(rs, f, start, s, proc, sel, j);
    NextSlice.SampleInRange(j, n, s, cpus);
    NextSlice.EvenSeconds(start, 0, j, s, cpus);
    NextSlice.EvenSeconds(start, j - 1, j, s, cpus);
    NextSlice.LaterSample(start, j - 1, s, cpus);
    NextSlice.ChosenIff(j, s, sel.interval);
  }

  /** The smaller of a number and a limit; a negative limit is none. */
  function Limited(limit: int, k: int): (m: int) {
    if limit < 0 || k < limit then k else limit
  }

  ghost predicate Picks(rs: seq<Record>, f: nat, s: nat, interval: nat, v: nat -> Verdict, j: nat) {
    f + j < |rs| && !rs[f + j].IsDummy() && v(f + j) == if NextSlice.Chosen(j, s, interval) then Show else Skip
  }

  lemma {:induction false} EvenWalk(rs: seq<Record>, f: nat, n: nat, s: nat, interval: nat, v: nat -> Verdict,
                                    m: nat, cnt: int)
    requires forall j: nat :: m < j <= n ==> Picks(rs, f, s, interval, v, j)
    requires m <= n && f + n < |rs| && (f + n + 1 < |rs| ==> rs[f + n + 1].IsDummy()) && cnt != 0
    ensures var all, before := NextSlice.ShownCount(n, s, interval), NextSlice.ShownCount(m, s, interval);
            before <= all && |Walk(rs, f + 1 + m, cnt, v).shown| == Limited(cnt, all - before)
    decreases n - m
  {
    if m < n {
      assert Picks(rs, f, s, interval, v, m + 1);
      var left := if NextSlice.Chosen(m + 1, s, interval) && cnt > 0 then cnt - 1 else cnt;
      EvenWalk(rs, f, n, s, interval, v, m + 1, if left == 0 then -1 else left);
    }
  }

  /**
   A pass over evenly spaced records displays as many lines as there are multiples of the interval in
   the time they cover, if the interval is not shorter than the spacing, but never more than the count.
   */
  lemma EvenRunLines(rs: seq<Record>, f: nat, n: nat, start: nat, s: nat, proc: nat, sel: Selection, count: int)
    requires EvenRun(rs, f, n, start, s, proc, sel) && s <= sel.interval && count != 0
    ensures |Walk(rs, f + 1, count, Decisions(rs, f, proc, sel)).shown|
            == Limited(count, NextSlice.MultiplesCovered(n, s, sel.interval))
  {
    var v := Decisions(rs, f, proc, sel);
    forall j: nat | 0 < j <= n
      ensures Picks(rs, f, s, sel.interval, v, j)
    {
      assert EvenRecord(rs, f, start, s, proc, sel, j);
      EvenDecision(rs, f, n, start, s, proc, sel, j);
    }
    EvenWalk(rs, f, n, s, sel.interval, v, 0, count);
    NextSlice.ShownAreMultiples(n, s, sel.interval);
  }

  /** The decisions of a run; a form that keeps its contents out of the proofs that only pass it on. */
  ghost predicate Decides(v: nat -> Verdict, rs: seq<Record>, f: nat, proc: nat, sel: Selection) {
    forall i :: i == f ==> v == Decisions(rs, i, proc, sel)
  }

  // ---------- Lines ----------

  predicate InFile(rs: seq<Record>, ks: seq<nat>) {
    forall j :: 0 <= j < |ks| ==> ks[j] < |rs|
  }

  /** Some records of the file. */
  function Picked(rs: seq<Record>, ks: seq<nat>): (p: seq<Record>)
    requires InFile(rs, ks)
    ensures |p| == |ks|
  {
    var n := |ks| - 1;
    if n < 0 then [] else Picked(rs, ks[..n]) + [rs[ks[n]]]
  }

  function LastOf(first: Record, shown: seq<Record>): (r: Record) {
    if shown == [] then first else shown[|shown| - 1]
  }

  /** Each displayed record is compared with the one displayed before it, the first one with the first of the run. */
  function LinesOf(first: Record, shown: seq<Record>): (l: seq<Line>)
    ensures |l| == |shown|
  {
    if shown == [] then []
    else
      var n := |shown| - 1;
      LinesOf(first, shown[..n]) + [Line(LastOf(first, shown[..n]), shown[n])]
  }

  function LastDevs(h: Header, first: Devices, shown: seq<Record>): (d: Devices)
    requires first.Fits(h)
    ensures d.Fits(h)
  {
    if shown == [] then first else DevicesOf(h, shown[|shown| - 1])
  }

  /** The rows of devices of each line, of which the first one is compared with what the first record has become. */
  function TablesOf(h: Header, act: nat, first: Devices, shown: seq<Record>): (t: seq<Rows>)
    requires first.Fits(h)
    ensures |t| == |shown|
  {
    if shown == [] then []
    else
      var n := |shown| - 1;
      TablesOf(h, act, first, shown[..n]) + [RowsOf(act, LastDevs(h, first, shown[..n]), DevicesOf(h, shown[n]))]
  }

  /** The difference of two readings of an unsigned counter that counts modulo m. */
  function Diff(l: Line, f: Record -> nat, m: nat): (d: int) {
    f(l.current) - f(l.previous) + if f(l.current) < f(l.previous) then m else 0
  }

  function SumOfDiffs(ls: seq<Line>, f: Record -> nat, m: nat): (s: int) {
    if ls == [] then 0 else SumOfDiffs(ls[..|ls| - 1], f, m) + Diff(ls[|ls| - 1], f, m)
  }

  /** In how many lines the counter has wrapped around. */
  function Turns(ls: seq<Line>, f: Record -> nat): (n: nat) {
    if ls == [] then 0
    else
      var l := ls[|ls| - 1];
      Turns(ls[..|ls| - 1], f) + if f(l.current) < f(l.previous) then 1 else 0
  }

  lemma OneMoreTurn(t: nat, m: nat)
    ensures (t + 1) * m == t * m + m
  {
  }

  lemma {:induction false} SumWithTurns(first: Record, shown: seq<Record>, f: Record -> nat, m: nat)
    ensures var ls, last := LinesOf(first, shown), LastOf(first, shown);
            && SumOfDiffs(ls, f, m) == f(last) - f(first) + Turns(ls, f) * m
            && (Turns(ls, f) == 0 ==> f(last) >= f(first))
  {
    if shown != [] {
      var n := |shown| - 1;
      var ls, init := LinesOf(first, shown), shown[..n];
      SumWithTurns(first, init, f, m);
      assert ls[..n] == LinesOf(first, init) && ls[n] == Line(LastOf(first, init), shown[n]);
      OneMoreTurn(Turns(ls[..n], f), m);
    }
  }

  /**
   Over the lines of a pass the differences of a counter add up to the difference on the average
   line, modulo the range of the counter: to be exact, up to the turns that the average line misses.
   */
  lemma DifferencesAddUp(first: Record, shown: seq<Record>, f: Record -> nat, m: nat)
    ensures var ls, average := LinesOf(first, shown), Line(first, LastOf(first, shown));
            var missed := Turns(ls, f) - if f(average.current) < f(first) then 1 else 0;
            missed >= 0 && SumOfDiffs(ls, f, m) == Diff(average, f, m) + missed * m
  {
    SumWithTurns(first, shown, f, m);
    var t := Turns(LinesOf(first, shown), f);
    if t > 0 {
      OneMoreTurn(t - 1, m);
    }
  }

  // ---------- Sums ----------

  /** A value that is averaged: the activity it belongs to, as a bit number, and where it is in a record. */
  datatype Gauge = Gauge(act: nat, offset: nat)

  const MEM_AMT := 17
  const KTABLES := 18
  const NET_SOCK := 19
  const QUEUE := 20

  function SumGauges(): (g: seq<Gauge>) {
    [Gauge(MEM_AMT, 192), Gauge(MEM_AMT, 200), Gauge(MEM_AMT, 208),
     Gauge(MEM_AMT, 224), Gauge(MEM_AMT, 232), Gauge(MEM_AMT, 240),
     Gauge(KTABLES, 344), Gauge(KTABLES, 292), Gauge(KTABLES, 296),
     Gauge(KTABLES, 300), Gauge(KTABLES, 308), Gauge(KTABLES, 316),
     Gauge(NET_SOCK, 324), Gauge(NET_SOCK, 328), Gauge(NET_SOCK, 332), Gauge(NET_SOCK, 336), Gauge(NET_SOCK, 340),
     Gauge(QUEUE, 248), Gauge(QUEUE, 360), Gauge(QUEUE, 348), Gauge(QUEUE, 352), Gauge(QUEUE, 356)]
  }

  function Number(r: Record, offset: nat, size: nat): (v: nat) {
    if offset + size <= |r.stats| then Value(r.stats[offset..offset + size]) else 0
  }

  /** The low 32 bits of a number. */
  function Word(x: nat): (w: nat)
    ensures w < TWO32
  {
    x % TWO32
  }

  lemma WordOfSum(a: nat, b: nat)
    ensures Word(Word(a) + b) == Word(a + b)
  {
  }

  datatype Sums = Sums(count: nat, sums: seq<nat>)

  function Zero(gs: seq<Gauge>): (s: Sums) {
    Sums(0, seq(|gs|, _ => 0))
  }

  /** One more line: the values of its activity are added, in words of the machine. */
  function Plus(s: Sums, gs: seq<Gauge>, act: nat, r: Record): (t: Sums)
    requires |s.sums| == |gs|
    ensures |t.sums| == |gs|
  {
    Sums(Word(s.count + 1),
         seq(|gs|, j requires 0 <= j < |gs| =>
           if gs[j].act == act then Word(s.sums[j] + Number(r, gs[j].offset, 4)) else s.sums[j]))
  }

  function Total(shown: seq<Record>, g: Gauge): (t: nat) {
    if shown == [] then 0 else Total(shown[..|shown| - 1], g) + Number(shown[|shown| - 1], g.offset, 4)
  }

  /** The number of lines and, for each value of the activity, its sum over the lines. */
  function SumsFor(gs: seq<Gauge>, act: nat, shown: seq<Record>): (s: Sums)
    ensures |s.sums| == |gs|
  {
    Sums(Word(|shown|),
         seq(|gs|, j requires 0 <= j < |gs| => if gs[j].act == act then Word(Total(shown, gs[j])) else 0))
  }

  lemma OneMoreLine(gs: seq<Gauge>, act: nat, shown: seq<Record>, r: Record)
    ensures Plus(SumsFor(gs, act, shown), gs, act, r) == SumsFor(gs, act, shown + [r])
    ensures SumsFor(gs, act, []) == Zero(gs)
  {
    var more := shown + [r];
    assert more[..|shown|] == shown;
    var a, b := Plus(SumsFor(gs, act, shown), gs, act, r), SumsFor(gs, act, more);
    forall j | 0 <= j < |gs|
      ensures a.sums[j] == b.sums[j]
    {
      var n := Number(r, gs[j].offset, 4);
      assert Total(more, gs[j]) == Total(shown, gs[j]) + n;
      WordOfSum(Total(shown, gs[j]), n);
    }
    WordOfSum(|shown|, 1);
    assert a.sums == b.sums;
    assert SumsFor(gs, act, []).sums == Zero(gs).sums;
  }

  // ---------- The passes ----------

  /** The average line, the sums it is computed from, and its rows. */
  datatype Average = Average(line: Line, sums: Sums, rows: Rows)

  /** What a pass puts out: its lines, the rows of each line, and the average line. */
  datatype Output = Output(act: nat, lines: seq<Line>, tables: seq<Rows>, average: Option<Average>)

  /** A pass that displays records and has no average line ends the program. */
  predicate Ends(o: Output) {
    o.lines != [] && o.average.None?
  }

  /** The program ends with the last of these passes, or with none of them. */
  predicate EndsOnlyLast(outs: seq<Output>, exit: bool) {
    (exit ==> outs != []) && forall k :: 0 <= k < |outs| ==> (Ends(outs[k]) <==> exit && k == |outs| - 1)
  }

  /** The low 32 bits of the difference of two readings of an uptime. */
  function Interval(a: nat, b: nat): (d: nat) {
    var x, y := Word(a), Word(b);
    if x >= y then x - y else x - y + TWO32
  }

  /** The average line cannot be computed for an interval of length zero; the program ends then. */
  predicate NullInterval(proc: nat, last: Record, first: Record) {
    || Interval(Number(last, 0, 8), Number(first, 0, 8)) == 0
    || (proc != 0 && Interval(Number(last, 16, 8), Number(first, 16, 8)) == 0)
  }

  /**
   The output of a pass that displays the records ks of the run that begins with record f; d is what the
   devices of record f have become before.
   */
  ghost predicate Reports(rs: seq<Record>, f: nat, d: Devices, ks: seq<nat>, gs: seq<Gauge>, h: Header, o: Output)
    requires f < |rs| && InFile(rs, ks) && d.Fits(h)
  {
    var first, shown := rs[f], Picked(rs, ks);
    var last := LastOf(first, shown);
    && o.lines == LinesOf(first, shown) && o.tables == TablesOf(h, o.act, d, shown)
    && o.average == if ks == [] || NullInterval(h.proc, last, first) then None
                    else Some(Average(Line(first, last), SumsFor(gs, o.act, shown),
                                      RowsOf(o.act, d, DevicesOf(h, last))))
  }

  class Sar {
    const rd: Reader
    const slot: array<Slot>
    const gs: seq<Gauge>
    const slicer: NextSlice.Slicer
    var curr: nat
    var asum: Sums

    constructor (rd: Reader, any: Record)
      ensures this.rd == rd && fresh(slot) && fresh(slicer) && slot.Length == 3 && gs == SumGauges() && Valid()
              && asum == Zero(gs)
    {
      this.rd, slot, gs := rd, new Slot[3](_ => Loaded(rd.hdr, any)), SumGauges();
      slicer := new NextSlice.Slicer();
      curr, asum := 1, Zero(SumGauges());
    }

    ghost predicate Valid()
      reads this
    {
      slot.Length == 3 && curr < 2 && |asum.sums| == |gs|
    }

    /** Records are copied as a whole. */
    method CopyStructures(dest: nat, src: nat)
      requires slot.Length == 3 && dest < 3 && src < 3
      modifies slot
      ensures slot[..] == old(slot[..])[dest := old(slot[src])]
    {
      slot[dest] := slot[src];
    }

    /** Displays one line, if the record is near enough to a multiple of the interval and within the time limits. */
    method WriteStats(act: nat, reset: bool, interval: nat, early: bool, tooLate: bool)
      returns (next: bool, late: bool, line: seq<(Line, Rows)>)
      requires Valid() && 0 < interval < TWO31 && Same(slot[1 - curr].devs, slot[curr].devs)
      modifies slot, slicer, this`asum
      ensures Valid() && slicer.lastUptime == Uptime(slot[curr].rec)
      ensures slot[curr] == old(slot[curr]) && slot[2] == old(slot[2])
      ensures var first := Uptime(slot[2].rec);
              var from := if old(slicer.lastUptime) == 0 || reset then first else old(slicer.lastUptime);
              var v := Verdicts(NearMultiple(first, from, Uptime(slot[curr].rec), rd.hdr.proc + 1, interval), early,
                                tooLate);
              next == v.Show? && late == v.TooLate?
      ensures var ref, cur := old(slot[1 - curr]), old(slot[curr]);
              if next then
                && line == [(Line(ref.rec, cur.rec), RowsOf(act, ref.devs, cur.devs))]
                && asum == Plus(old(asum), gs, act, cur.rec)
                && slot[1 - curr] == ref.(devs := After(act, ref.devs, cur.devs))
              else line == [] && asum == old(asum) && slot[1 - curr] == ref
    {
      next, late, line := false, false, [];
      var near := slicer.NextSlice(Uptime(slot[2].rec), Uptime(slot[curr].rec), rd.hdr.proc + 1, reset, interval);
      if near && !early {
        if tooLate {
          late := true;
        } else {
          line := DisplayLine(act);
          next := true;
        }
      }
    }

    /** Adds the values of the record to the sums, and compares it with the one in the other slot. */
    method DisplayLine(act: nat) returns (line: seq<(Line, Rows)>)
      requires Valid() && Same(slot[1 - curr].devs, slot[curr].devs)
      modifies slot, this`asum
      ensures slot[curr] == old(slot[curr]) && slot[2] == old(slot[2])
              && asum == Plus(old(asum), gs, act, slot[curr].rec)
      ensures var ref, cur := old(slot[1 - curr]), old(slot[curr]);
              && line == [(Line(ref.rec, cur.rec), RowsOf(act, ref.devs, cur.devs))]
              && slot[1 - curr] == ref.(devs := After(act, ref.devs, cur.devs))
    {
      asum := Plus(asum, gs, act, slot[curr].rec);
      var rows, devs := Compare(act, slot[1 - curr].devs, slot[curr].devs);
      line := [(Line(slot[1 - curr].rec, slot[curr].rec), rows)];
      slot[1 - curr] := slot[1 - curr].(devs := devs);
    }

    /** Displays the average line and resets the sums; without an interval the program ends. */
    method WriteStatsAvg(last: nat, act: nat) returns (average: Option<Average>)
      requires Valid() && last < 2 && Same(slot[2].devs, slot[last].devs)
      modifies slot, this`asum
      ensures Valid() && slot[last] == old(slot[last])
      ensures var s2, sl := old(slot[2]), slot[last];
              if NullInterval(rd.hdr.proc, sl.rec, s2.rec) then average == None
              else
                && average == Some(Average(Line(s2.rec, sl.rec), old(asum), RowsOf(act, s2.devs, sl.devs)))
                && slot[2] == s2.(devs := After(act, s2.devs, sl.devs)) && asum == Zero(gs)
    {
      var gItv := Interval(Number(slot[last].rec, 0, 8), Number(slot[2].rec, 0, 8));
      var itv := gItv;
      if rd.hdr.proc != 0 {
        itv := Interval(Number(slot[last].rec, 16, 8), Number(slot[2].rec, 16, 8));
      }
      if itv == 0 || gItv == 0 {
        return None;
      }
      var rows, devs := Compare(act, slot[2].devs, slot[last].devs);
      average := Some(Average(Line(slot[2].rec, slot[last].rec), asum, rows));
      slot[2] := slot[2].(devs := devs);
      asum := Zero(gs);
    }

    /**
     The slot that curr does not name holds the last displayed record, or the first one of the run,
     and the sums are those over the displayed records; d are the devices of the first one as they are.
     */
    ghost predicate TurnedNow(first: Record, d: Devices, shown: seq<Record>, act: nat)
      reads this, slot
      requires d.Fits(rd.hdr)
    {
      && Valid()
      && slot[2] == Slot(first, d)
      && slot[1 - curr] == Slot(LastOf(first, shown), LastDevs(rd.hdr, d, shown))
      && asum == SumsFor(gs, act, shown)
    }

    /** The same, in a form that keeps its contents out of the proofs that only pass it on. */
    ghost predicate Turned(first: Record, d: Devices, shown: seq<Record>, act: nat)
      reads this, slot
      requires d.Fits(rd.hdr)
    {
      Valid() && forall a :: a == act ==> TurnedNow(first, d, shown, a)
    }

    /** A record of statistics in a pass. */
    method HandleRecord(ghost first: Record, ghost d: Devices, ghost shown: seq<Record>, r: Record, act: nat,
                        count: int, reset: bool, interval: nat, early: bool, tooLate: bool, ghost verdict: Verdict)
      returns (next: bool, cnt: int, line: seq<(Line, Rows)>)
      requires d.Fits(rd.hdr) && Turned(first, d, shown, act) && 0 < interval < TWO31
      requires var from := if slicer.lastUptime == 0 || reset then Uptime(first) else slicer.lastUptime;
               verdict == Verdicts(NearMultiple(Uptime(first), from, Uptime(r), rd.hdr.proc + 1, interval), early,
                                   tooLate)
      modifies slot, slicer, this`asum, this`curr
      ensures next == verdict.Show? && slicer.lastUptime == Uptime(r)
      ensures cnt == if verdict.TooLate? then 0 else if next && count > 0 then count - 1 else count
      ensures Turned(first, d, if next then shown + [r] else shown, act)
      ensures line == if !next then []
                      else [(Line(LastOf(first, shown), r),
                             RowsOf(act, LastDevs(rd.hdr, d, shown), DevicesOf(rd.hdr, r)))]
    {
      Load(first, d, shown, act, r);
      var late;
      next, late, line := WriteStats(act, reset, interval, early, tooLate);
      cnt := if late then 0 else count;
      if next && cnt > 0 {
        cnt := cnt - 1;
      }
      if next {
        OneMoreLine(gs, act, shown, r);
        curr := 1 - curr;
      }
      assert TurnedNow(first, d, if next then shown + [r] else shown, act);
    }

    /** Puts a record into the slot that curr names. */
    method Load(ghost first: Record, ghost d: Devices, ghost shown: seq<Record>, ghost act: nat, r: Record)
      requires d.Fits(rd.hdr) && Turned(first, d, shown, act)
      modifies slot
      ensures TurnedNow(first, d, shown, act) && slot[curr] == Loaded(rd.hdr, r)
    {
      assert TurnedNow(first, d, shown, act);
      slot[curr] := Loaded(rd.hdr, r);
    }

    /** One pass for one activity. */
    method HandleCurrActStats(ghost rs: seq<Record>, f: nat, ghost d: Devices, fpos: nat, act: nat, count: int,
                              sel: Selection)
      returns (eosaf: bool, cnt: int, o: Output, exit: bool, next: nat, ghost w: Walked)
      requires Valid() && f < |rs| && rd.Stands(fpos, rs, f + 1) && sel.InRange()
      requires d.Fits(rd.hdr) && slot[2] == Slot(rs[f], d) && asum == Zero(gs)
      modifies rd, slot, slicer, this
      ensures Valid() && w == Walk(rs, f + 1, count, Decisions(rs, f, rd.hdr.proc, sel)) && InFile(rs, w.shown)
      ensures Reports(rs, f, d, w.shown, gs, rd.hdr, o) && o.act == act
      ensures exit <==> w.shown != [] && o.average.None?
      ensures next == w.next && eosaf == w.eosaf && cnt == w.cnt && rd.Stands(rd.pos, rs, next)
      ensures !exit ==> asum == Zero(gs) && slot[2] == Slot(rs[f], AfterPass(rd.hdr, d, act, rs, w.shown))
    {
      rd.pos := fpos;
      CopyStructures(1 - curr, 2);
      var lines, tables, davg;
      OneMoreLine(gs, act, [], rs[f]);
      assert TurnedNow(rs[f], d, [], act);
      ghost var ks;
      ghost var v := Decisions(rs, f, rd.hdr.proc, sel);
      w := Walk(rs, f + 1, count, v);
      assert Rest(rs, w, [], f + 1, count, v) by {
        assert [] + w.shown == w.shown;
      }
      eosaf, cnt, next, lines, tables, davg, ks := DisplayLines(rs, w, f, d, act, count, sel, v);
      o, exit := Output(act, lines, tables, None), false;
      LastPicked(rd.hdr, d, rs, f, ks);
      assert TurnedNow(rs[f], d, Picked(rs, ks), act);
      if davg > 0 {
        var average := WriteStatsAvg(1 - curr, act);
        o, exit := Output(act, lines, tables, average), average.None?;
      }
    }

    /** Reads the next record, if any, and handles it; show tells whether it has been displayed. */
    method HandleNext(ghost rs: seq<Record>, ghost f: nat, ghost d: Devices, ghost shown: seq<Record>, j: nat,
                      act: nat, count: int, reset: bool, sel: Selection, ghost v: nat -> Verdict)
      returns (r: Option<Record>, show: bool, cnt: int, line: seq<(Line, Rows)>)
      requires f < |rs| && d.Fits(rd.hdr) && Turned(rs[f], d, shown, act) && rd.Stands(rd.pos, rs, j) && sel.InRange()
      requires f < j && Ready(rs, f, j, reset) && Decides(v, rs, f, rd.hdr.proc, sel)
      modifies rd, slot, slicer, this`asum, this`curr
      ensures r == if j < |rs| then Some(rs[j]) else None
      ensures rd.Stands(rd.pos, rs, if j < |rs| then j + 1 else j)
      ensures j < |rs| && !rs[j].IsDummy() ==> Ready(rs, f, j + 1, false)
      ensures show == (j < |rs| && !rs[j].IsDummy() && v(j).Show?)
      ensures cnt == if j == |rs| || rs[j].IsDummy() then count
                     else if v(j).TooLate? then 0 else if show && count > 0 then count - 1 else count
      ensures Turned(rs[f], d, if show then shown + [rs[j]] else shown, act)
      ensures line == if !show then []
                      else [(Line(LastOf(rs[f], shown), rs[j]),
                             RowsOf(act, LastDevs(rd.hdr, d, shown), DevicesOf(rd.hdr, rs[j])))]
    {
      show, cnt, line := false, count, [];
      r := rd.Fetch(rs, j);
      if r.Some? {
        if r.value.IsDummy() {
          assert TurnedNow(rs[f], d, shown, act);
          slot[curr] := slot[curr].(rec := slot[curr].rec.(stats := r.value.stats));
          assert TurnedNow(rs[f], d, shown, act);
        } else {
          assert v == Decisions(rs, f, rd.hdr.proc, sel);
          show, cnt, line := HandleRecord(rs[f], d, shown, r.value, act, count, reset, sel.interval,
                                          sel.early(j), sel.late(j), v(j));
        }
      }
    }

    /** The lines of a pass. */
    method DisplayLines(ghost rs: seq<Record>, ghost w: Walked, f: nat, ghost d: Devices, act: nat, count: int,
                        sel: Selection, ghost v: nat -> Verdict)
      returns (eosaf: bool, cnt: int, next: nat, lines: seq<Line>, tables: seq<Rows>, davg: nat, ghost ks: seq<nat>)
      requires f < |rs| && d.Fits(rd.hdr) && Turned(rs[f], d, [], act) && rd.Stands(rd.pos, rs, f + 1) && sel.InRange()
      requires Decides(v, rs, f, rd.hdr.proc, sel) && Continues(rs, w, [], f + 1, count, v)
      modifies rd, slot, slicer, this`asum, this`curr
      ensures w == Walked(ks, next, cnt, eosaf) && rd.Stands(rd.pos, rs, next)
      ensures InFile(rs, ks) && Turned(rs[f], d, Picked(rs, ks), act) && davg == |ks|
      ensures lines == LinesOf(rs[f], Picked(rs, ks)) && tables == TablesOf(rd.hdr, act, d, Picked(rs, ks))
    {
      lines, tables, davg, next, cnt, ks := [], [], 0, f + 1, count, [];
      NothingPut(rd.hdr, act, rs, f, d);
      eosaf := false;
      var again, reset := true, true;
      while again
        invariant f < next && rd.Stands(rd.pos, rs, next)
        invariant again ==> Ready(rs, f, next, reset)
        invariant PutSoFar(rd.hdr, act, rs, f, d, ks, lines, tables) && davg == |ks|
        invariant Turned(rs[f], d, Picked(rs, ks), act)
        invariant Walks(rs, w, v, ks, next, cnt, eosaf, again)
        decreases again, |rs| - next
      {
        again, eosaf, cnt, next, lines, tables, davg, ks :=
          DisplayNext(rs, w, v, f, d, act, cnt, reset, sel, next, lines, tables, davg, ks);
        reset := false;
      }
      PutAll(rd.hdr, act, rs, f, d, ks, lines, tables);
    }

    /** What next_slice remembers is the record before, unless it is to be reset. */
    predicate Ready(rs: seq<Record>, f: nat, next: nat, reset: bool)
      reads slicer
      requires f < next
    {
      next <= |rs| && if next == f + 1 then reset else !reset && slicer.lastUptime == Uptime(rs[next - 1])
    }

    /** The next record of a pass, with its line, if it gets one. */
    method DisplayNext(ghost rs: seq<Record>, ghost w: Walked, ghost v: nat -> Verdict, ghost f: nat,
                       ghost d: Devices, act: nat, count: int, reset: bool, sel: Selection,
                       at: nat, before: seq<Line>, tablesBefore: seq<Rows>, shown: nat,
                       ghost ksBefore: seq<nat>)
      returns (again: bool, eosaf: bool, cnt: int, next: nat, lines: seq<Line>, tables: seq<Rows>, davg: nat,
               ghost ks: seq<nat>)
      requires f < |rs| && d.Fits(rd.hdr) && f < at && rd.Stands(rd.pos, rs, at) && sel.InRange()
               && Ready(rs, f, at, reset)
      requires PutSoFar(rd.hdr, act, rs, f, d, ksBefore, before, tablesBefore) && shown == |ksBefore|
      requires Turned(rs[f], d, Picked(rs, ksBefore), act)
      requires Decides(v, rs, f, rd.hdr.proc, sel) && Walks(rs, w, v, ksBefore, at, count, false, true)
      modifies rd, slot, slicer, this`asum, this`curr
      ensures at <= next && (again ==> at < next <= |rs|) && rd.Stands(rd.pos, rs, next)
      ensures again ==> Ready(rs, f, next, false)
      ensures PutSoFar(rd.hdr, act, rs, f, d, ks, lines, tables) && davg == |ks|
      ensures Turned(rs[f], d, Picked(rs, ks), act)
      ensures Walks(rs, w, v, ks, next, cnt, eosaf, again)
    {
      OneMoreWalk(rs, w, ksBefore, at, count, v);
      var r, show, line;
      r, show, cnt, line := HandleNext(rs, f, d, Picked(rs, ksBefore), at, act, count, reset, sel, v);
      eosaf := r.None?;
      again := !eosaf && !r.value.IsDummy() && cnt != 0;
      next := if eosaf then at else at + 1;
      PerhapsPut(rd.hdr, act, rs, f, d, ksBefore, before, tablesBefore, at, show, line);
      lines, tables := Firsts(before, line), Seconds(tablesBefore, line);
      davg, ks := if show then shown + 1 else shown, if show then ksBefore + [at] else ksBefore;
    }

    /** Looks for the first record of a run that can begin a section; it is kept in slot 2. */
    method FirstOfRun(ghost rs: seq<Record>, j: nat, usable: nat -> bool)
      returns (found: bool, f: nat)
      requires Valid() && rd.Stands(rd.pos, rs, j)
      modifies rd, slot
      ensures Valid() && f == NextCandidate(rs, usable, j) && found == (f < |rs|)
      ensures found ==> rd.Stands(rd.pos, rs, f + 1) && slot[2] == Loaded(rd.hdr, rs[f])
    {
      f := j;
      while true
        invariant Valid() && rd.Stands(rd.pos, rs, f) && NextCandidate(rs, usable, f) == NextCandidate(rs, usable, j)
        decreases |rs| - f
      {
        var r := rd.Fetch(rs, f);
        if r.None? {
          return false, f;
        }
        slot[0] := Loaded(rd.hdr, r.value);
        if !slot[0].rec.IsDummy() && usable(f) {
          CopyStructures(2, 0);
          return true, f;
        }
        f := f + 1;
      }
    }

    /** The passes of one section, one for each activity. */
    method Section(ghost rs: seq<Record>, f: nat, acts: seq<nat>, count: int, sel: Selection)
      returns (outs: seq<Output>, cnt: int, next: nat, exit: bool)
      requires Valid() && f < |rs| && rd.Stands(rd.pos, rs, f + 1) && acts != [] && count != 0
      requires slot[2] == Loaded(rd.hdr, rs[f]) && asum == Zero(gs) && sel.InRange()
      modifies rd, slot, slicer, this
      ensures Valid() && |outs| <= |acts| && (!exit ==> |outs| == |acts| && asum == Zero(gs))
      ensures Covered(rs, f, acts, count, sel, gs, rd.hdr, outs) && EndsOnlyLast(outs, exit)
      ensures f < next <= |rs| && rd.Stands(rd.pos, rs, next)
      ensures cnt != 0 ==> next == RunEnd(rs, f + 1)
      ensures cnt == 0 ==> RunEnd(rs, next) == RunEnd(rs, f + 1)
    {
      var fpos := rd.pos;
      outs, exit, next, cnt := [], false, f + 1, 0;
      while |outs| < |acts| && !exit
        invariant Valid() && |outs| <= |acts| && rd.Stands(fpos, rs, f + 1)
        invariant !exit ==>
                    slot[2] == Slot(rs[f], FirstDevs(rs, f, count, sel, rd.hdr, acts, |outs|)) && asum == Zero(gs)
        invariant Covered(rs, f, acts, count, sel, gs, rd.hdr, outs) && EndsOnlyLast(outs, exit)
        invariant f < next <= |rs| && rd.Stands(rd.pos, rs, next)
        invariant cnt != 0 ==> next == RunEnd(rs, f + 1)
        invariant cnt == 0 ==> RunEnd(rs, next) == RunEnd(rs, f + 1)
        decreases |acts| - |outs|
      {
        var o;
        cnt, o, exit, next := NextPass(rs, f, fpos, acts, |outs|, count, sel);
        OneMorePass(rs, f, acts, count, sel, gs, rd.hdr, outs, o);
        outs := outs + [o];
      }
    }

    /** Pass number k of a section. */
    method NextPass(ghost rs: seq<Record>, f: nat, fpos: nat, acts: seq<nat>, k: nat, count: int, sel: Selection)
      returns (cnt: int, o: Output, exit: bool, next: nat)
      requires Valid() && f < |rs| && rd.Stands(fpos, rs, f + 1) && sel.InRange() && k < |acts| && count != 0
      requires slot[2] == Slot(rs[f], FirstDevs(rs, f, count, sel, rd.hdr, acts, k)) && asum == Zero(gs)
      modifies rd, slot, slicer, this
      ensures Valid() && PassOk(rs, f, acts, count, sel, gs, rd.hdr, o, k) && (exit <==> Ends(o))
      ensures !exit ==> slot[2] == Slot(rs[f], FirstDevs(rs, f, count, sel, rd.hdr, acts, k + 1)) && asum == Zero(gs)
      ensures f < next <= |rs| && rd.Stands(rd.pos, rs, next)
      ensures if cnt != 0 then next == RunEnd(rs, f + 1) else RunEnd(rs, next) == RunEnd(rs, f + 1)
    {
      ghost var w, d;
      d := FirstDevs(rs, f, count, sel, rd.hdr, acts, k);
      var eosaf;
      eosaf, cnt, o, exit, next, w := HandleCurrActStats(rs, f, d, fpos, acts[k], count, sel);
      WalkStops(rs, f + 1, count, Decisions(rs, f, rd.hdr.proc, sel));
    }

    /** When the count has stopped the last pass, the rest of the run is skipped. */
    method SkipRun(ghost rs: seq<Record>, j: nat) returns (next: nat)
      requires Valid() && rd.Stands(rd.pos, rs, j)
      modifies rd, slot
      ensures Valid() && slot[2] == old(slot[2])
      ensures next == RunEnd(rs, j) && rd.Stands(rd.pos, rs, next)
    {
      next := j;
      while true
        invariant Valid() && slot[2] == old(slot[2]) && rd.Stands(rd.pos, rs, next) && RunEnd(rs, next) == RunEnd(rs, j)
        decreases |rs| - next
      {
        var r := rd.Fetch(rs, next);
        if r.None? {
          return next;
        }
        slot[curr] := Loaded(rd.hdr, r.value);
        next := next + 1;
        if slot[curr].rec.IsDummy() {
          return next;
        }
      }
    }

    /** The section on the next run that has a usable record, if there is one. */
    method NextSection(ghost rs: seq<Record>, j: nat, acts: seq<nat>, count: int, usable: nat -> bool,
                       sel: Selection)
      returns (found: bool, f: nat, outs: seq<Output>, next: nat, exit: bool)
      requires Valid() && rd.Stands(rd.pos, rs, j) && acts != [] && count != 0 && asum == Zero(gs)
      requires sel.InRange()
      modifies rd, slot, slicer, this
      ensures f == NextCandidate(rs, usable, j) && found == (f < |rs|) && (exit ==> found)
      ensures found ==> SectionOk(rs, f, acts, count, sel, gs, rd.hdr, outs, exit)
      ensures found && !exit ==>
                && Valid() && asum == Zero(gs)
                && next == RunEnd(rs, f + 1) && rd.Stands(rd.pos, rs, next)
    {
      found, f := FirstOfRun(rs, j, usable);
      outs, next, exit := [], j, false;
      if found {
        var cnt;
        outs, cnt, next, exit := Section(rs, f, acts, count, sel);
        if !exit && cnt == 0 {
          next := SkipRun(rs, next);
        }
      }
    }

    /**
     The whole report on a file: one section for each run of records between restarts that has a usable
     record, beginning with the first such record, and in each section one pass for each activity.
     */
    method ReadStatsFromFile(ghost rs: seq<Record>, acts: seq<nat>, count: int, usable: nat -> bool,
                             sel: Selection)
      returns (firsts: seq<nat>, report: seq<seq<Output>>, exit: bool)
      requires Valid() && rd.Stands(rd.pos, rs, 0) && acts != [] && count != 0 && asum == Zero(gs)
      requires sel.InRange()
      modifies rd, slot, slicer, this
      ensures IsReport(rs, acts, count, usable, sel, gs, rd.hdr, firsts, report, exit)
    {
      firsts, report, exit := [], [], false;
      var j := 0;
      while !exit
        invariant j <= |rs|
        invariant if exit then firsts <= FirstsFrom(rs, usable, 0)
                  else && Valid() && rd.Stands(rd.pos, rs, j) && asum == Zero(gs)
                       && firsts + FirstsFrom(rs, usable, j) == FirstsFrom(rs, usable, 0)
        invariant SectionsOk(rs, acts, count, sel, gs, rd.hdr, firsts, report, exit)
        decreases !exit, |rs| - j
      {
        var found, f, outs, next;
        found, f, outs, next, exit := NextSection(rs, j, acts, count, usable, sel);
        if !found {
          assert firsts + [] == firsts;
          return firsts, report, false;
        }
        assert firsts + FirstsFrom(rs, usable, j) == firsts + [f] + FirstsFrom(rs, usable, RunEnd(rs, f + 1));
        OneMoreSection(rs, acts, count, sel, gs, rd.hdr, firsts, report, f, outs, exit);
        firsts, report := firsts + [f], report + [outs];
        if !exit {
          j := next;
        }
      }
    }
  }

  // ---------- The passes of a section ----------

  /** The records that each pass of the section displays. */
  ghost function Displayed(rs: seq<Record>, f: nat, count: int, sel: Selection, h: Header): (ks: seq<nat>)
    requires f < |rs|
  {
    Walk(rs, f + 1, count, Decisions(rs, f, h.proc, sel)).shown
  }

  /** What a pass makes of the devices of the first record: its average line resets those it does not find. */
  ghost function AfterPass(h: Header, d: Devices, act: nat, rs: seq<Record>, ks: seq<nat>): (d': Devices)
    requires d.Fits(h)
    ensures d'.Fits(h)
  {
    if ks == [] || ks[|ks| - 1] >= |rs| then d else After(act, d, DevicesOf(h, rs[ks[|ks| - 1]]))
  }

  /** The devices of the first record before pass k. */
  ghost function FirstDevs(rs: seq<Record>, f: nat, count: int, sel: Selection, h: Header, acts: seq<nat>,
                           k: nat): (d: Devices)
    requires f < |rs| && k <= |acts|
    ensures d.Fits(h)
  {
    if k == 0 then DevicesOf(h, rs[f])
    else AfterPass(h, FirstDevs(rs, f, count, sel, h, acts, k - 1), acts[k - 1], rs, Displayed(rs, f, count, sel, h))
  }

  /** The output of pass k of the section that begins with record f. */
  ghost predicate PassOk(rs: seq<Record>, f: nat, acts: seq<nat>, count: int, sel: Selection, gs: seq<Gauge>, h: Header,
                         o: Output, k: nat)
    requires f < |rs|
  {
    var ks := Displayed(rs, f, count, sel, h);
    && k < |acts| && o.act == acts[k]
    && InFile(rs, ks) && Reports(rs, f, FirstDevs(rs, f, count, sel, h, acts, k), ks, gs, h, o)
  }

  ghost predicate Covered(rs: seq<Record>, f: nat, acts: seq<nat>, count: int, sel: Selection, gs: seq<Gauge>,
                          h: Header, outs: seq<Output>)
    requires f < |rs|
  {
    |outs| <= |acts| && forall k :: 0 <= k < |outs| ==> PassOk(rs, f, acts, count, sel, gs, h, outs[k], k)
  }

  /** The passes of a section: one for each activity, unless one of them ends the program. */
  ghost predicate SectionOk(rs: seq<Record>, f: nat, acts: seq<nat>, count: int, sel: Selection, gs: seq<Gauge>,
                            h: Header, outs: seq<Output>, exit: bool)
  {
    && f < |rs| && Covered(rs, f, acts, count, sel, gs, h, outs)
    && EndsOnlyLast(outs, exit) && (!exit ==> |outs| == |acts|)
  }

  /** Sections of which at most the last one ends the program. */
  ghost predicate SectionsOk(rs: seq<Record>, acts: seq<nat>, count: int, sel: Selection, gs: seq<Gauge>, h: Header,
                             firsts: seq<nat>, report: seq<seq<Output>>, exit: bool)
  {
    && |report| == |firsts| && (exit ==> report != [])
    && forall s :: 0 <= s < |report| ==>
         SectionOk(rs, firsts[s], acts, count, sel, gs, h, report[s], exit && s == |report| - 1)
  }

  lemma OneMoreSection(rs: seq<Record>, acts: seq<nat>, count: int, sel: Selection, gs: seq<Gauge>, h: Header,
                       firsts: seq<nat>, report: seq<seq<Output>>, f: nat, outs: seq<Output>, exit: bool)
    requires SectionsOk(rs, acts, count, sel, gs, h, firsts, report, false)
    requires SectionOk(rs, f, acts, count, sel, gs, h, outs, exit)
    ensures SectionsOk(rs, acts, count, sel, gs, h, firsts + [f], report + [outs], exit)
  {
  }

  /**
   A report is complete, or ends with the first pass that ends the program: the sections begin at the
   first usable records of the runs, and the passes before the last one do not end the program.
   */
  ghost predicate IsReport(rs: seq<Record>, acts: seq<nat>, count: int, usable: nat -> bool, sel: Selection,
                           gs: seq<Gauge>, h: Header, firsts: seq<nat>, report: seq<seq<Output>>, exit: bool)
  {
    && firsts <= FirstsFrom(rs, usable, 0) && (!exit ==> firsts == FirstsFrom(rs, usable, 0))
    && SectionsOk(rs, acts, count, sel, gs, h, firsts, report, exit)
  }

  lemma SamePass(rs: seq<Record>, f: nat, acts: seq<nat>, count: int, sel: Selection, gs: seq<Gauge>, h: Header,
                 o: Output, o': Output, k: nat)
    requires f < |rs|
    requires PassOk(rs, f, acts, count, sel, gs, h, o, k) && PassOk(rs, f, acts, count, sel, gs, h, o', k)
    ensures o == o'
  {
  }

  /**
   Passes that agree as far as both go, and are n unless they end the program: the second ones go as far as the
   first.
   */
  lemma SameEnd(outs: seq<Output>, exit: bool, outs': seq<Output>, exit': bool, n: nat)
    requires EndsOnlyLast(outs, exit) && |outs| <= n && (!exit ==> |outs| == n)
    requires EndsOnlyLast(outs', exit') && |outs'| <= n && (!exit' ==> |outs'| == n)
    requires forall k :: 0 <= k < |outs| && k < |outs'| ==> outs[k] == outs'[k]
    ensures |outs| <= |outs'| && (exit ==> exit')
  {
    var m := if |outs'| < |outs| then |outs'| else |outs|;
    if m > 0 {
      assert outs[m - 1] == outs'[m - 1];
    }
  }

  /** Sections that begin with the same record are the same as far as both go, and end the program alike. */
  lemma SameSection(rs: seq<Record>, f: nat, acts: seq<nat>, count: int, sel: Selection, gs: seq<Gauge>, h: Header,
                    outs: seq<Output>, exit: bool, outs': seq<Output>, exit': bool)
    requires SectionOk(rs, f, acts, count, sel, gs, h, outs, exit)
    requires SectionOk(rs, f, acts, count, sel, gs, h, outs', exit')
    ensures outs == outs' && exit == exit'
  {
    forall k | 0 <= k < |outs| && k < |outs'|
      ensures outs[k] == outs'[k]
    {
      SamePass(rs, f, acts, count, sel, gs, h, outs[k], outs'[k], k);
    }
    SameEnd(outs, exit, outs', exit', |acts|);
    SameEnd(outs', exit', outs, exit, |acts|);
  }

  /** There is only one report on a file: its contents and whether the program ends are settled by the records. */
  lemma OneReport(rs: seq<Record>, acts: seq<nat>, count: int, usable: nat -> bool, sel: Selection, gs: seq<Gauge>,
                  h: Header, firsts: seq<nat>, report: seq<seq<Output>>, exit: bool,
                  firsts': seq<nat>, report': seq<seq<Output>>, exit': bool)
    requires IsReport(rs, acts, count, usable, sel, gs, h, firsts, report, exit)
    requires IsReport(rs, acts, count, usable, sel, gs, h, firsts', report', exit')
    ensures firsts == firsts' && report == report' && exit == exit'
  {
    forall s | 0 <= s < |report| && s < |report'|
      ensures report[s] == report'[s] && (exit && s == |report| - 1 <==> exit' && s == |report'| - 1)
    {
      SameSection(rs, firsts[s], acts, count, sel, gs, h, report[s], exit && s == |report| - 1,
                  report'[s], exit' && s == |report'| - 1);
    }
    var m := if |report'| < |report| then |report'| else |report|;
    if m > 0 {
      assert report[m - 1] == report'[m - 1];
    }
  }

  lemma OneMorePass(rs: seq<Record>, f: nat, acts: seq<nat>, count: int, sel: Selection, gs: seq<Gauge>, h: Header,
                    outs: seq<Output>, o: Output)
    requires f < |rs| && Covered(rs, f, acts, count, sel, gs, h, outs)
             && PassOk(rs, f, acts, count, sel, gs, h, o, |outs|)
    ensures Covered(rs, f, acts, count, sel, gs, h, outs + [o])
  {
  }

  lemma AfterPassSameIff(h: Header, d: Devices, act: nat, rs: seq<Record>, ks: seq<nat>)
    requires d.Fits(h) && InFile(rs, ks)
    ensures AfterPass(h, d, act, rs, ks) == d <==> ks == [] || AllFound(act, d, DevicesOf(h, rs[ks[|ks| - 1]]))
  {
    if ks != [] {
      AfterSameIff(act, d, DevicesOf(h, rs[ks[|ks| - 1]]));
    }
  }

  /**
   A pass leaves the first record as it is for the next one, if and only if it displays nothing or its
   average line finds every device it shows in the first record, with no counter gone down.
   */
  lemma PassKeepsFirstIff(rs: seq<Record>, f: nat, count: int, sel: Selection, h: Header, acts: seq<nat>, k: nat)
    requires f < |rs| && k < |acts| && InFile(rs, Displayed(rs, f, count, sel, h))
    ensures var ks, d := Displayed(rs, f, count, sel, h), FirstDevs(rs, f, count, sel, h, acts, k);
            FirstDevs(rs, f, count, sel, h, acts, k + 1) == d
            <==> ks == [] || AllFound(acts[k], d, DevicesOf(h, rs[ks[|ks| - 1]]))
  {
    AfterPassSameIff(h, FirstDevs(rs, f, count, sel, h, acts, k), acts[k], rs, Displayed(rs, f, count, sel, h));
  }

  lemma AfterPassDistinct(h: Header, d: Devices, act: nat, rs: seq<Record>, ks: seq<nat>)
    requires d.Fits(h) && AllDistinct(d)
    ensures AllDistinct(AfterPass(h, d, act, rs, ks))
  {
    if ks != [] && ks[|ks| - 1] < |rs| {
      RowsCompareAlike(act, d, DevicesOf(h, rs[ks[|ks| - 1]]));
    }
  }

  /** If no device is in two slots of the first record when it is read, it is so in every pass. */
  lemma {:induction false} PassesStayDistinct(rs: seq<Record>, f: nat, count: int, sel: Selection, h: Header,
                                              acts: seq<nat>, k: nat)
    requires f < |rs| && k <= |acts| && AllDistinct(DevicesOf(h, rs[f]))
    ensures AllDistinct(FirstDevs(rs, f, count, sel, h, acts, k))
  {
    if k > 0 {
      PassesStayDistinct(rs, f, count, sel, h, acts, k - 1);
      AfterPassDistinct(h, FirstDevs(rs, f, count, sel, h, acts, k - 1), acts[k - 1], rs,
                        Displayed(rs, f, count, sel, h));
    }
  }

  lemma {:induction false} TablesCompareAlike(h: Header, act: nat, d: Devices, shown: seq<Record>)
    requires d.Fits(h) && AllDistinct(d) && forall j :: 0 <= j < |shown| ==> AllDistinct(DevicesOf(h, shown[j]))
    ensures forall j :: 0 <= j < |shown| ==> Alike(TablesOf(h, act, d, shown)[j])
  {
    if shown != [] {
      var n := |shown| - 1;
      TablesCompareAlike(h, act, d, shown[..n]);
      RowsCompareAlike(act, LastDevs(h, d, shown[..n]), DevicesOf(h, shown[n]));
    }
  }

  lemma {:induction false} PickedDistinct(h: Header, rs: seq<Record>, ks: seq<nat>)
    requires InFile(rs, ks) && forall i :: 0 <= i < |rs| ==> AllDistinct(DevicesOf(h, rs[i]))
    ensures forall j :: 0 <= j < |ks| ==> AllDistinct(DevicesOf(h, Picked(rs, ks)[j]))
  {
    if ks != [] {
      PickedDistinct(h, rs, ks[..|ks| - 1]);
    }
  }

  /** If no device is in two slots of any record, all lines and averages of a report compare like with like. */
  lemma PassComparesAlike(rs: seq<Record>, f: nat, acts: seq<nat>, count: int, sel: Selection, gs: seq<Gauge>,
                          h: Header, o: Output, k: nat)
    requires f < |rs| && PassOk(rs, f, acts, count, sel, gs, h, o, k)
    requires forall i :: 0 <= i < |rs| ==> AllDistinct(DevicesOf(h, rs[i]))
    ensures forall j :: 0 <= j < |o.tables| ==> Alike(o.tables[j])
    ensures o.average.Some? ==> Alike(o.average.value.rows)
  {
    PassesStayDistinct(rs, f, count, sel, h, acts, k);
    ReportComparesAlike(rs, f, FirstDevs(rs, f, count, sel, h, acts, k), Displayed(rs, f, count, sel, h), gs, h, o);
  }

  lemma ReportComparesAlike(rs: seq<Record>, f: nat, d: Devices, ks: seq<nat>, gs: seq<Gauge>, h: Header, o: Output)
    requires f < |rs| && InFile(rs, ks) && d.Fits(h) && Reports(rs, f, d, ks, gs, h, o) && AllDistinct(d)
    requires forall i :: 0 <= i < |rs| ==> AllDistinct(DevicesOf(h, rs[i]))
    ensures forall j :: 0 <= j < |o.tables| ==> Alike(o.tables[j])
    ensures o.average.Some? ==> Alike(o.average.value.rows)
  {
    PickedDistinct(h, rs, ks);
    TablesCompareAlike(h, o.act, d, Picked(rs, ks));
    RowsCompareAlike(o.act, d, DevicesOf(h, LastOf(rs[f], Picked(rs, ks))));
  }

  // ---------- The sections ----------

  predicate Candidate(rs: seq<Record>, usable: nat -> bool, i: nat) {
    i < |rs| && !rs[i].IsDummy() && usable(i)
  }

  function NextCandidate(rs: seq<Record>, usable: nat -> bool, i: nat): (f: nat)
    requires i <= |rs|
    ensures i <= f <= |rs|
    decreases |rs| - i
  {
    if i == |rs| || Candidate(rs, usable, i) then i else NextCandidate(rs, usable, i + 1)
  }

  /** The position after the next restart, or the end of the file. */
  function RunEnd(rs: seq<Record>, i: nat): (e: nat)
    requires i <= |rs|
    ensures i <= e <= |rs|
    decreases |rs| - i
  {
    if i == |rs| then i else if rs[i].IsDummy() then i + 1 else RunEnd(rs, i + 1)
  }

  /** The first usable record of each run, from position i on. */
  function FirstsFrom(rs: seq<Record>, usable: nat -> bool, i: nat): (fs: seq<nat>)
    requires i <= |rs|
    decreases |rs| - i
  {
    var f := NextCandidate(rs, usable, i);
    if f == |rs| then [] else [f] + FirstsFrom(rs, usable, RunEnd(rs, f + 1))
  }

  ghost predicate RestartBetween(rs: seq<Record>, k: nat, f: nat) {
    exists d :: k < d < f <= |rs| && rs[d].IsDummy()
  }

  lemma {:induction false} RunEndIsNext(rs: seq<Record>, i: nat)
    requires i <= |rs|
    ensures var e := RunEnd(rs, i);
            && (forall k :: i <= k < e - 1 ==> !rs[k].IsDummy())
            && (e < |rs| ==> e > i && rs[e - 1].IsDummy())
    decreases |rs| - i
  {
    if i < |rs| && !rs[i].IsDummy() {
      RunEndIsNext(rs, i + 1);
    }
  }

  lemma {:induction false} NextCandidateIsNext(rs: seq<Record>, usable: nat -> bool, i: nat)
    requires i <= |rs|
    ensures var g := NextCandidate(rs, usable, i);
            (forall k :: i <= k < g ==> !Candidate(rs, usable, k)) && (g < |rs| ==> Candidate(rs, usable, g))
    decreases |rs| - i
  {
    if i < |rs| && !Candidate(rs, usable, i) {
      NextCandidateIsNext(rs, usable, i + 1);
    }
  }

  /** A section begins with exactly those usable records that have no other one before them in their run. */
  lemma {:induction false} SectionsBegin(rs: seq<Record>, usable: nat -> bool, i: nat, f: nat)
    requires i <= |rs|
    ensures f in FirstsFrom(rs, usable, i)
            <==> && i <= f && Candidate(rs, usable, f)
                 && forall k :: i <= k < f && Candidate(rs, usable, k) ==> RestartBetween(rs, k, f)
    decreases |rs| - i
  {
    NextCandidateIsNext(rs, usable, i);
    var g := NextCandidate(rs, usable, i);
    if g < |rs| {
      RunEndIsNext(rs, g + 1);
      var e := RunEnd(rs, g + 1);
      SectionsBegin(rs, usable, e, f);
      if e <= f < |rs| {
        forall k | i <= k < e && Candidate(rs, usable, k)
          ensures RestartBetween(rs, k, f)
        {
          assert rs[e - 1].IsDummy();
        }
      } else if g < f < e {
        assert Candidate(rs, usable, f) ==> !RestartBetween(rs, g, f);
      }
    }
  }

  /**
   A walk that is not cut short stops after the next restart, or at the end of the file; otherwise it stops
   before.
   */
  lemma {:induction false} WalkStops(rs: seq<Record>, i: nat, cnt: int, v: nat -> Verdict)
    requires i <= |rs| && cnt != 0
    ensures var w := Walk(rs, i, cnt, v);
            if w.cnt != 0 then w.next == RunEnd(rs, i) else RunEnd(rs, w.next) == RunEnd(rs, i)
    decreases |rs| - i
  {
    if i < |rs| && !rs[i].IsDummy() {
      match v(i)
      case TooLate =>
      case Skip =>
        WalkStops(rs, i + 1, cnt, v);
      case Show =>
        var left := if cnt > 0 then cnt - 1 else cnt;
        if left != 0 {
          WalkStops(rs, i + 1, left, v);
        }
    }
  }

  /** One record of a walk. */
  lemma OneMoreStep(rs: seq<Record>, w: Walked, ks: seq<nat>, j: nat, cnt: int, v: nat -> Verdict)
    requires Continues(rs, w, ks, j, cnt, v)
    ensures j == |rs| ==> w == Walked(ks, j, cnt, true)
    ensures j < |rs| && rs[j].IsDummy() ==> w == Walked(ks, j + 1, cnt, false)
    ensures j < |rs| && !rs[j].IsDummy() ==>
              var show, late := v(j).Show?, v(j).TooLate?;
              var left := if late then 0 else if show && cnt > 0 then cnt - 1 else cnt;
              var more := if show then ks + [j] else ks;
              if left == 0 then w == Walked(more, j + 1, 0, false) else Continues(rs, w, more, j + 1, left, v)
  {
    assert Rest(rs, w, ks, j, cnt, v);
    assert ks + [] == ks;
    if j < |rs| && !rs[j].IsDummy() {
      var x := Walk(rs, j, cnt, v);
      if v(j).Show? {
        assert ks + x.shown == (ks + [j]) + x.shown[1..];
      }
    }
  }

  /** One record of a walk, whatever becomes of it. */
  lemma OneMoreWalk(rs: seq<Record>, w: Walked, ks: seq<nat>, j: nat, cnt: int, v: nat -> Verdict)
    requires Continues(rs, w, ks, j, cnt, v)
    ensures j <= |rs|
    ensures var stats := j < |rs| && !rs[j].IsDummy();
            var show := stats && v(j).Show?;
            var left := if stats && v(j).TooLate? then 0 else if show && cnt > 0 then cnt - 1 else cnt;
            var more, next := if show then ks + [j] else ks, if j < |rs| then j + 1 else j;
            if stats && left != 0 then Continues(rs, w, more, next, left, v)
            else w == Walked(more, next, left, j == |rs|)
  {
    OneMoreStep(rs, w, ks, j, cnt, v);
    assert Rest(rs, w, ks, j, cnt, v);
  }

  /** How much of a walk is left. */
  ghost predicate Walks(rs: seq<Record>, w: Walked, v: nat -> Verdict, ks: seq<nat>, next: nat, cnt: int,
                        eosaf: bool, again: bool) {
    if again then Continues(rs, w, ks, next, cnt, v) else w == Walked(ks, next, cnt, eosaf)
  }

  lemma OneMorePicked(rs: seq<Record>, ks: seq<nat>, j: nat)
    requires InFile(rs, ks) && j < |rs|
    ensures InFile(rs, ks + [j]) && Picked(rs, ks + [j]) == Picked(rs, ks) + [rs[j]]
  {
    assert (ks + [j])[..|ks|] == ks;
  }

  /** The lines and rows for the records ks; a form that keeps its contents out of the loop. */
  ghost predicate PutSoFar(h: Header, act: nat, rs: seq<Record>, f: nat, d: Devices, ks: seq<nat>,
                           lines: seq<Line>, tables: seq<Rows>)
    requires f < |rs| && d.Fits(h)
  {
    && InFile(rs, ks)
    && forall i :: i == f ==>
         lines == LinesOf(rs[i], Picked(rs, ks)) && tables == TablesOf(h, act, d, Picked(rs, ks))
  }

  lemma NothingPut(h: Header, act: nat, rs: seq<Record>, f: nat, d: Devices)
    requires f < |rs| && d.Fits(h)
    ensures PutSoFar(h, act, rs, f, d, [], [], []) && Picked(rs, []) == []
  {
  }

  lemma OneMorePut(h: Header, act: nat, rs: seq<Record>, f: nat, d: Devices, ks: seq<nat>, lines: seq<Line>,
                   tables: seq<Rows>, k: nat)
    requires f < |rs| && d.Fits(h) && PutSoFar(h, act, rs, f, d, ks, lines, tables) && k < |rs|
    ensures var shown := Picked(rs, ks);
            PutSoFar(h, act, rs, f, d, ks + [k], lines + [Line(LastOf(rs[f], shown), rs[k])],
                     tables + [RowsOf(act, LastDevs(h, d, shown), DevicesOf(h, rs[k]))])
  {
    OneMorePicked(rs, ks, k);
    OneMoreLineOf(h, act, rs[f], d, Picked(rs, ks), rs[k]);
  }

  function Firsts<A, B>(s: seq<A>, line: seq<(A, B)>): (t: seq<A>) {
    if line == [] then s else s + [line[0].0]
  }

  function Seconds<A, B>(s: seq<B>, line: seq<(A, B)>): (t: seq<B>) {
    if line == [] then s else s + [line[0].1]
  }

  lemma PerhapsPut(h: Header, act: nat, rs: seq<Record>, f: nat, d: Devices, ks: seq<nat>, lines: seq<Line>,
                   tables: seq<Rows>, k: nat, show: bool, line: seq<(Line, Rows)>)
    requires f < |rs| && d.Fits(h) && PutSoFar(h, act, rs, f, d, ks, lines, tables) && (show ==> k < |rs|)
    requires line == if !show then []
                     else [(Line(LastOf(rs[f], Picked(rs, ks)), rs[k]),
                            RowsOf(act, LastDevs(h, d, Picked(rs, ks)), DevicesOf(h, rs[k])))]
    ensures var more := if show then ks + [k] else ks;
            && PutSoFar(h, act, rs, f, d, more, Firsts(lines, line), Seconds(tables, line))
            && Picked(rs, more) == if show then Picked(rs, ks) + [rs[k]] else Picked(rs, ks)
  {
    if show {
      OneMorePut(h, act, rs, f, d, ks, lines, tables, k);
      OneMorePicked(rs, ks, k);
    }
  }

  lemma PutAll(h: Header, act: nat, rs: seq<Record>, f: nat, d: Devices, ks: seq<nat>, lines: seq<Line>,
               tables: seq<Rows>)
    requires f < |rs| && d.Fits(h) && PutSoFar(h, act, rs, f, d, ks, lines, tables)
    ensures lines == LinesOf(rs[f], Picked(rs, ks)) && tables == TablesOf(h, act, d, Picked(rs, ks))
  {
  }

  lemma OneMoreLineOf(h: Header, act: nat, first: Record, d: Devices, shown: seq<Record>, r: Record)
    requires d.Fits(h)
    ensures LinesOf(first, shown + [r]) == LinesOf(first, shown) + [Line(LastOf(first, shown), r)]
    ensures TablesOf(h, act, d, shown + [r])
            == TablesOf(h, act, d, shown) + [RowsOf(act, LastDevs(h, d, shown), DevicesOf(h, r))]
  {
    assert (shown + [r])[..|shown|] == shown;
  }

  lemma LastPicked(h: Header, d: Devices, rs: seq<Record>, f: nat, ks: seq<nat>)
    requires f < |rs| && InFile(rs, ks) && d.Fits(h)
    ensures ks != [] ==>
              && LastOf(rs[f], Picked(rs, ks)) == rs[ks[|ks| - 1]]
              && LastDevs(h, d, Picked(rs, ks)) == DevicesOf(h, rs[ks[|ks| - 1]])
  {
  }

  /** What is left of a walk after the records ks. */
  ghost predicate Rest(rs: seq<Record>, w: Walked, ks: seq<nat>, j: nat, cnt: int, v: nat -> Verdict) {
    && j <= |rs|
    && var x := Walk(rs, j, cnt, v);
       w == x.(shown := ks + x.shown)
  }

  /** Rest, in a form that keeps its contents out of the proofs that only pass it on. */
  ghost predicate Continues(rs: seq<Record>, w: Walked, ks: seq<nat>, j: nat, cnt: int, v: nat -> Verdict) {
    forall i :: i == j ==> Rest(rs, w, ks, i, cnt, v)
  }
}
