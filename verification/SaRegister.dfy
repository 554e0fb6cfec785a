/**
 Matching the devices of a sample with those of the reference sample.  Devices may be registered
 and unregistered at run time, so a device of the current sample is looked up by name in the
 reference slots; a slot is reset when its device was registered anew or is taken over.
 */
module SaRegister {
  import opened Common

  // ---------- Matching in general ----------

  /** When two records are of the same device, a slot is free, a reference is out of date; and the reset record. */
  datatype Kind<!D> = Kind(same: (D, D) -> bool, free: D -> bool, stale: (D, D) -> bool, blank: D -> D)

  /** First slot that is of the same device, or the number of slots. */
  function FindSame<D>(kind: Kind<D>, refs: seq<D>, cur: D): (i: nat)
    ensures i <= |refs| && (i < |refs| ==> kind.same(cur, refs[i]))
    ensures forall k :: 0 <= k < i ==> !kind.same(cur, refs[k])
  {
    if refs == [] then 0
    else if kind.same(cur, refs[0]) then 0
    else
      var i := FindSame(kind, refs[1..], cur);
      assert forall k :: 1 <= k < i + 1 ==> refs[k] == refs[1..][k - 1];
      i + 1
  }

  function FindFree<D>(kind: Kind<D>, refs: seq<D>): (i: nat)
    ensures i <= |refs| && (i < |refs| ==> kind.free(refs[i]))
    ensures forall k :: 0 <= k < i ==> !kind.free(refs[k])
  {
    if refs == [] then 0
    else if kind.free(refs[0]) then 0
    else
      var i := FindFree(kind, refs[1..]);
      assert forall k :: 1 <= k < i + 1 ==> refs[k] == refs[1..][k - 1];
      i + 1
  }

  /** The slot a device is matched with: its own, else the first free one, else the slot of the same rank. */
  function SlotFor<D>(kind: Kind<D>, refs: seq<D>, cur: D, pos: nat): (i: nat)
    requires pos < |refs|
    ensures i < |refs|
  {
    if FindSame(kind, refs, cur) < |refs| then FindSame(kind, refs, cur)
    else if FindFree(kind, refs) < |refs| then FindFree(kind, refs)
    else pos
  }

  /** The reference slots after the match. */
  function Matched<D>(kind: Kind<D>, refs: seq<D>, cur: D, pos: nat): (r: seq<D>)
    requires pos < |refs|
    ensures |r| == |refs|
  {
    var i := SlotFor(kind, refs, cur, pos);
    if FindSame(kind, refs, cur) < |refs| && !kind.stale(cur, refs[i]) then refs
    else refs[i := kind.blank(cur)]
  }

  /** No two slots in use are of the same device. */
  ghost predicate Distinct<D>(kind: Kind<D>, refs: seq<D>) {
    forall i, k :: 0 <= i < k < |refs| && !kind.free(refs[i]) && !kind.free(refs[k]) ==> !kind.same(refs[i], refs[k])
  }

  /** A reset record is of the device it was made for and up to date. */
  ghost predicate Resets<D>(kind: Kind<D>, cur: D) {
    && kind.same(cur, kind.blank(cur)) && !kind.stale(cur, kind.blank(cur))
    && kind.free(kind.blank(cur)) == kind.free(cur)
  }

  /** Being of the same device is an equivalence that free and used slots respect. */
  ghost predicate Sameness<D(!new)>(kind: Kind<D>) {
    && (forall a, b :: kind.same(a, b) ==> kind.same(b, a) && kind.free(a) == kind.free(b))
    && (forall a, b, c :: kind.same(a, b) && kind.same(b, c) ==> kind.same(a, c))
  }

  /**
   The slot carries the device, no other slot changes, no device is held twice, and the reference
   is up to date afterwards.
   */
  lemma MatchedSlot<D(!new)>(kind: Kind<D>, refs: seq<D>, cur: D, pos: nat)
    requires pos < |refs| && !kind.free(cur) && Resets(kind, cur) && Sameness(kind) && Distinct(kind, refs)
    ensures var i, r := SlotFor(kind, refs, cur, pos), Matched(kind, refs, cur, pos);
            && kind.same(cur, r[i]) && !kind.stale(cur, r[i])
            && (forall k :: 0 <= k < |refs| && k != i ==> r[k] == refs[k])
            && Distinct(kind, r)
  {
    var i, r := SlotFor(kind, refs, cur, pos), Matched(kind, refs, cur, pos);
    var b := kind.blank(cur);
    if r != refs {
      forall k | 0 <= k < |refs| && k != i && !kind.free(refs[k])
        ensures !kind.same(b, refs[k]) && !kind.same(refs[k], b)
      {
        if kind.same(b, refs[k]) || kind.same(refs[k], b) {
          assert false;
        }
      }
    }
  }

  /** Matching the same device again finds the same slot and changes nothing. */
  lemma MatchedAgain<D(!new)>(kind: Kind<D>, refs: seq<D>, cur: D, pos: nat)
    requires pos < |refs| && !kind.free(cur) && Resets(kind, cur) && Sameness(kind) && Distinct(kind, refs)
    ensures var r := Matched(kind, refs, cur, pos);
            SlotFor(kind, r, cur, pos) == SlotFor(kind, refs, cur, pos) && Matched(kind, r, cur, pos) == r
  {
    MatchedSlot(kind, refs, cur, pos);
    var i, r := SlotFor(kind, refs, cur, pos), Matched(kind, refs, cur, pos);
    var f := FindSame(kind, r, cur);
    assert f <= i;
    if f < i {
      assert false;
    }
  }

  // ---------- All devices of a sample ----------

  /** The reference slots after the first n devices of a sample have been matched, one after the other. */
  function MatchAll<D>(kind: Kind<D>, refs: seq<D>, curs: seq<D>, n: nat): (r: seq<D>)
    requires |curs| == |refs| && n <= |curs|
    ensures |r| == |refs|
  {
    if n == 0 then refs
    else
      var r := MatchAll(kind, refs, curs, n - 1);
      if kind.free(curs[n - 1]) then r else Matched(kind, r, curs[n - 1], n - 1)
  }

  /** What the n-th device is compared with. */
  function Reference<D>(kind: Kind<D>, refs: seq<D>, curs: seq<D>, n: nat): (ref: D)
    requires |curs| == |refs| && n < |curs|
  {
    var r := MatchAll(kind, refs, curs, n);
    Matched(kind, r, curs[n], n)[SlotFor(kind, r, curs[n], n)]
  }

  /** The pairs compared for the first n devices. */
  function Rows<D>(kind: Kind<D>, refs: seq<D>, curs: seq<D>, n: nat): (rows: seq<(D, D)>)
    requires |curs| == |refs| && n <= |curs|
  {
    if n == 0 then []
    else
      Rows(kind, refs, curs, n - 1)
      + if kind.free(curs[n - 1]) then [] else [(Reference(kind, refs, curs, n - 1), curs[n - 1])]
  }

  /** One more device has been matched. */
  lemma OneMoreRow<D>(kind: Kind<D>, refs: seq<D>, curs: seq<D>, n: nat, r: seq<D>, j: nat)
    requires |curs| == |refs| && n < |curs|
    requires if kind.free(curs[n]) then r == MatchAll(kind, refs, curs, n)
             else
               && j == SlotFor(kind, MatchAll(kind, refs, curs, n), curs[n], n)
               && r == Matched(kind, MatchAll(kind, refs, curs, n), curs[n], n)
    ensures r == MatchAll(kind, refs, curs, n + 1)
    ensures Rows(kind, refs, curs, n + 1)
            == Rows(kind, refs, curs, n) + if kind.free(curs[n]) then [] else [(r[j], curs[n])]
  {
  }

  /** The laws of devices and reset records. */
  ghost predicate Lawful<D(!new)>(kind: Kind<D>) {
    Sameness(kind) && (forall c :: Resets(kind, c)) && forall a, b :: !kind.stale(a, kind.blank(b))
  }

  /**
   Every device is compared with a record of its own that is up to date, and no two slots get to hold the same
   one.
   */
  lemma {:induction false} AllMatched<D(!new)>(kind: Kind<D>, refs: seq<D>, curs: seq<D>, n: nat)
    requires |curs| == |refs| && n <= |curs| && Lawful(kind) && Distinct(kind, refs)
    ensures Distinct(kind, MatchAll(kind, refs, curs, n))
    ensures forall row :: row in Rows(kind, refs, curs, n) ==> kind.same(row.1, row.0) && !kind.stale(row.1, row.0)
  {
    if n > 0 {
      AllMatched(kind, refs, curs, n - 1);
      if !kind.free(curs[n - 1]) {
        MatchedSlot(kind, MatchAll(kind, refs, curs, n - 1), curs[n - 1], n - 1);
      }
    }
  }

  /** The device has a reference that is up to date. */
  predicate Found<D>(kind: Kind<D>, refs: seq<D>, cur: D) {
    var i := FindSame(kind, refs, cur);
    i < |refs| && !kind.stale(cur, refs[i])
  }

  /**
   Slot g has been reset for a device, and will not get back what it held before: that was no reset
   record, or the slot was free, or the device of the same rank has had its turn.
   */
  ghost predicate Spoiled<D(!new)>(kind: Kind<D>, refs: seq<D>, r: seq<D>, g: nat, n: nat) {
    && g < |refs| == |r|
    && exists c :: !kind.free(c) && r[g] == kind.blank(c)
                   && (kind.free(refs[g]) || (forall d :: refs[g] != kind.blank(d))
                       || (g < n && !kind.same(c, refs[g])))
  }

  lemma SpoiledDiffers<D(!new)>(kind: Kind<D>, refs: seq<D>, r: seq<D>, g: nat, n: nat)
    requires Lawful(kind) && Spoiled(kind, refs, r, g, n)
    ensures r[g] != refs[g]
  {
    var c :| !kind.free(c) && r[g] == kind.blank(c)
             && (kind.free(refs[g]) || (forall d :: refs[g] != kind.blank(d)) || (g < n && !kind.same(c, refs[g])));
    assert Resets(kind, c);
  }

  /** A device that has no reference spoils a slot. */
  lemma SpoilsOne<D(!new)>(kind: Kind<D>, refs: seq<D>, cur: D, n: nat)
    requires Lawful(kind) && n < |refs| && !kind.free(cur) && !Found(kind, refs, cur)
    ensures Spoiled(kind, refs, Matched(kind, refs, cur, n), SlotFor(kind, refs, cur, n), n + 1)
  {
    var g := SlotFor(kind, refs, cur, n);
    assert Matched(kind, refs, cur, n)[g] == kind.blank(cur);
    if FindSame(kind, refs, cur) < |refs| {
      forall d
        ensures refs[g] != kind.blank(d)
      {
        assert !kind.stale(cur, kind.blank(d));
      }
    }
  }

  /** A spoiled slot stays so. */
  lemma StaysSpoiled<D(!new)>(kind: Kind<D>, refs: seq<D>, r: seq<D>, g: nat, cur: D, n: nat)
    requires Lawful(kind) && n < |refs| && !kind.free(cur) && Spoiled(kind, refs, r, g, n)
    ensures Spoiled(kind, refs, Matched(kind, r, cur, n), g, n + 1)
  {
    var c :| !kind.free(c) && r[g] == kind.blank(c)
             && (kind.free(refs[g]) || (forall d :: refs[g] != kind.blank(d)) || (g < n && !kind.same(c, refs[g])));
    assert Resets(kind, c) && !kind.stale(cur, kind.blank(c));
    var m := Matched(kind, r, cur, n);
    if m[g] != r[g] {
      assert g == SlotFor(kind, r, cur, n) && m[g] == kind.blank(cur);
      assert FindSame(kind, r, cur) == |r| && FindFree(kind, r) == |r| && g == n;
    }
  }

  lemma StaysChanged<D(!new)>(kind: Kind<D>, refs: seq<D>, curs: seq<D>, g: nat, n: nat)
    requires |curs| == |refs| && n < |curs| && Lawful(kind) && Spoiled(kind, refs, MatchAll(kind, refs, curs, n), g, n)
    ensures var r := MatchAll(kind, refs, curs, n + 1);
            Spoiled(kind, refs, r, g, n + 1) && r != refs
  {
    if !kind.free(curs[n]) {
      StaysSpoiled(kind, refs, MatchAll(kind, refs, curs, n), g, curs[n], n);
    }
    SpoiledDiffers(kind, refs, MatchAll(kind, refs, curs, n + 1), g, n + 1);
  }

  /** One more device, as long as nothing has changed. */
  lemma StillUnchanged<D(!new)>(kind: Kind<D>, refs: seq<D>, cur: D, n: nat)
    requires Lawful(kind) && n < |refs| && !kind.free(cur)
    ensures Matched(kind, refs, cur, n) == refs <==> Found(kind, refs, cur)
    ensures !Found(kind, refs, cur) ==>
            Spoiled(kind, refs, Matched(kind, refs, cur, n), SlotFor(kind, refs, cur, n), n + 1)
  {
    if !Found(kind, refs, cur) {
      SpoilsOne(kind, refs, cur, n);
      SpoiledDiffers(kind, refs, Matched(kind, refs, cur, n), SlotFor(kind, refs, cur, n), n + 1);
    }
  }

  /**
   Comparing a sample leaves the reference as it is, if and only if every device of the sample is found there, up
   to date.
   */
  lemma {:induction false} UnchangedIff<D(!new)>(kind: Kind<D>, refs: seq<D>, curs: seq<D>, n: nat)
    requires |curs| == |refs| && n <= |curs| && Lawful(kind)
    ensures MatchAll(kind, refs, curs, n) == refs
            <==> forall i :: 0 <= i < n && !kind.free(curs[i]) ==> Found(kind, refs, curs[i])
    ensures MatchAll(kind, refs, curs, n) != refs ==>
            exists g :: Spoiled(kind, refs, MatchAll(kind, refs, curs, n), g, n)
  {
    if n > 0 {
      UnchangedIff(kind, refs, curs, n - 1);
      var r, cur := MatchAll(kind, refs, curs, n - 1), curs[n - 1];
      if r != refs {
        var g :| Spoiled(kind, refs, r, g, n - 1);
        StaysChanged(kind, refs, curs, g, n - 1);
      } else if !kind.free(cur) {
        StillUnchanged(kind, refs, cur, n - 1);
      }
    }
  }

  // ---------- Network interfaces ----------

  /** Statistics of one interface; unused slots are named "?". */
  datatype NetDev = NetDev(iface: string,
                           rxPackets: U32, txPackets: U32, rxBytes: U32, txBytes: U32,
                           rxCompressed: U32, txCompressed: U32, multicast: U32, collisions: U32,
                           rxErrors: U32, txErrors: U32, rxDropped: U32, txDropped: U32,
                           rxFifoErrors: U32, txFifoErrors: U32, rxFrameErrors: U32, txCarrierErrors: U32)

  function Counters(d: NetDev): (c: seq<U32>)
    ensures |c| == 16
  {
    [d.rxPackets, d.txPackets, d.rxBytes, d.txBytes, d.rxCompressed, d.txCompressed, d.multicast, d.collisions,
     d.rxErrors, d.txErrors, d.rxDropped, d.txDropped,
     d.rxFifoErrors, d.txFifoErrors, d.rxFrameErrors, d.txCarrierErrors]
  }

  predicate SomeDecreased(cur: NetDev, ref: NetDev) {
    || cur.rxPackets < ref.rxPackets || cur.txPackets < ref.txPackets
    || cur.rxBytes < ref.rxBytes || cur.txBytes < ref.txBytes
    || cur.rxCompressed < ref.rxCompressed || cur.txCompressed < ref.txCompressed
    || cur.multicast < ref.multicast || cur.rxErrors < ref.rxErrors
    || cur.txErrors < ref.txErrors || cur.collisions < ref.collisions
    || cur.rxDropped < ref.rxDropped || cur.txDropped < ref.txDropped
    || cur.txCarrierErrors < ref.txCarrierErrors || cur.rxFrameErrors < ref.rxFrameErrors
    || cur.rxFifoErrors < ref.rxFifoErrors || cur.txFifoErrors < ref.txFifoErrors
  }

  const HALF: nat := 0x7fff_ffff

  /** A byte counter went down from a large value while its packet counter went up, or the reverse. */
  predicate Overflowed(cur: NetDev, ref: NetDev) {
    || (cur.rxBytes < ref.rxBytes && cur.rxPackets > ref.rxPackets && ref.rxBytes > HALF)
    || (cur.txBytes < ref.txBytes && cur.txPackets > ref.txPackets && ref.txBytes > HALF)
    || (cur.rxPackets < ref.rxPackets && cur.rxBytes > ref.rxBytes && ref.rxPackets > HALF)
    || (cur.txPackets < ref.txPackets && cur.txBytes > ref.txBytes && ref.txPackets > HALF)
  }

  function BlankNetDev(cur: NetDev): (d: NetDev) {
    NetDev(cur.iface, 0, 0, 0, 0, 0, 0, 0, 0, 0, 0, 0, 0, 0, 0, 0, 0)
  }

  const IFACE: Kind<NetDev> := Kind(
    (a: NetDev, b: NetDev) => a.iface == b.iface,
    (d: NetDev) => d.iface == "?",
    (cur: NetDev, ref: NetDev) => SomeDecreased(cur, ref) && !Overflowed(cur, ref),
    BlankNetDev)

  method CheckIfaceReg(cur: NetDev, refs: array<NetDev>, pos: nat) returns (index: nat)
    requires pos < refs.Length
    modifies refs
    ensures index == SlotFor(IFACE, old(refs[..]), cur, pos)
    ensures refs[..] == Matched(IFACE, old(refs[..]), cur, pos)
  {
    ghost var before := refs[..];
    index := 0;
    while index < refs.Length
      invariant index <= refs.Length && refs[..] == before
      invariant forall k :: 0 <= k < index ==> cur.iface != before[k].iface
    {
      if cur.iface == refs[index].iface {
        FirstSame(IFACE, before, cur, index);
        if SomeDecreased(cur, refs[index]) {
          var ovfw := Overflowed(cur, refs[index]);
          if !ovfw {
            refs[index] := BlankNetDev(cur);
          }
        }
        return;
      }
      index := index + 1;
    }
    NoneSame(IFACE, before, cur);
    index := 0;
    while index < refs.Length && refs[index].iface != "?"
      invariant index <= refs.Length && refs[..] == before
      invariant forall k :: 0 <= k < index ==> before[k].iface != "?"
    {
      index := index + 1;
    }
    FirstFree(IFACE, before, index);
    if index >= refs.Length {
      index := pos;
    }
    refs[index] := BlankNetDev(cur);
  }

  lemma FirstSame<D>(kind: Kind<D>, refs: seq<D>, cur: D, i: nat)
    requires i < |refs| && kind.same(cur, refs[i]) && forall k :: 0 <= k < i ==> !kind.same(cur, refs[k])
    ensures FindSame(kind, refs, cur) == i
  {
  }

  lemma NoneSame<D>(kind: Kind<D>, refs: seq<D>, cur: D)
    requires forall k :: 0 <= k < |refs| ==> !kind.same(cur, refs[k])
    ensures FindSame(kind, refs, cur) == |refs|
  {
  }

  lemma FirstFree<D>(kind: Kind<D>, refs: seq<D>, i: nat)
    requires i <= |refs| && (i < |refs| ==> kind.free(refs[i])) && forall k :: 0 <= k < i ==> !kind.free(refs[k])
    ensures FindFree(kind, refs) == i
  {
  }

  lemma IfaceLaws()
    ensures Lawful(IFACE)
  {
  }

  /** One device of a sample, unless its slot is unused. */
  method CompareIface(cur: NetDev, refs: array<NetDev>, pos: nat) returns (row: seq<(NetDev, NetDev)>, j: nat)
    requires pos < refs.Length
    modifies refs
    ensures if IFACE.free(cur) then row == [] && refs[..] == old(refs[..])
            else
              && j == SlotFor(IFACE, old(refs[..]), cur, pos) && refs[..] == Matched(IFACE, old(refs[..]), cur, pos)
              && row == [(refs[j], cur)]
  {
    row, j := [], 0;
    if cur.iface != "?" {
      j := CheckIfaceReg(cur, refs, pos);
      row := [(refs[j], cur)];
    }
  }

  /** The loop over the interfaces of a sample: each one but the unused is compared with its reference. */
  method CompareIfaces(curs: seq<NetDev>, refs: array<NetDev>) returns (rows: seq<(NetDev, NetDev)>)
    requires |curs| == refs.Length
    modifies refs
    ensures refs[..] == MatchAll(IFACE, old(refs[..]), curs, |curs|) && rows == Rows(IFACE, old(refs[..]), curs, |curs|)
  {
    rows := [];
    ghost var before := refs[..];
    for i := 0 to |curs|
      invariant refs[..] == MatchAll(IFACE, before, curs, i) && rows == Rows(IFACE, before, curs, i)
    {
      var row, j := CompareIface(curs[i], refs, i);
      OneMoreRow(IFACE, before, curs, i, refs[..], j);
      rows := rows + row;
    }
  }

  /** After the match no counter of the reference is above the current one, unless an overflow was judged. */
  lemma IfaceMatched(refs: seq<NetDev>, cur: NetDev, pos: nat)
    requires pos < |refs| && cur.iface != "?" && Distinct(IFACE, refs)
    ensures var i, r := SlotFor(IFACE, refs, cur, pos), Matched(IFACE, refs, cur, pos);
            && r[i].iface == cur.iface && Distinct(IFACE, r)
            && (forall k :: 0 <= k < |refs| && k != i ==> r[k] == refs[k])
            && ((forall c :: 0 <= c < 16 ==> Counters(r[i])[c] <= Counters(cur)[c])
                || (Overflowed(cur, refs[i]) && r == refs))
            && SlotFor(IFACE, r, cur, pos) == i && Matched(IFACE, r, cur, pos) == r
  {
    IfaceLaws();
    MatchedSlot(IFACE, refs, cur, pos);
    MatchedAgain(IFACE, refs, cur, pos);
    var i, r := SlotFor(IFACE, refs, cur, pos), Matched(IFACE, refs, cur, pos);
    if !SomeDecreased(cur, r[i]) {
      NothingDecreased(cur, r[i]);
    }
  }

  lemma NothingDecreased(cur: NetDev, ref: NetDev)
    requires !SomeDecreased(cur, ref)
    ensures forall c :: 0 <= c < 16 ==> Counters(ref)[c] <= Counters(cur)[c]
  {
  }

  // ---------- Disks ----------

  datatype DiskStats = DiskStats(major: U32, minor: U32, rdSect: nat, wrSect: nat, nrIos: U32,
                                 rdTicks: U32, wrTicks: U32, totTicks: U32, rqTicks: U32)

  /** Unused slots have major and minor zero; the source tests their unsigned sum. */
  predicate FreeDisk(d: DiskStats) {
    (d.major + d.minor) % 0x1_0000_0000 == 0
  }

  predicate DiskDecreased(cur: DiskStats, ref: DiskStats) {
    cur.nrIos < ref.nrIos || cur.rdSect < ref.rdSect || cur.wrSect < ref.wrSect
  }

  function BlankDisk(cur: DiskStats): (d: DiskStats) {
    DiskStats(cur.major, cur.minor, 0, 0, 0, 0, 0, 0, 0)
  }

  const DISK: Kind<DiskStats> := Kind(
    (a: DiskStats, b: DiskStats) => a.major == b.major && a.minor == b.minor,
    FreeDisk, DiskDecreased, BlankDisk)

  method CheckDiskReg(cur: DiskStats, refs: array<DiskStats>, pos: nat) returns (index: nat)
    requires pos < refs.Length
    modifies refs
    ensures index == SlotFor(DISK, old(refs[..]), cur, pos)
    ensures refs[..] == Matched(DISK, old(refs[..]), cur, pos)
  {
    ghost var before := refs[..];
    index := 0;
    while index < refs.Length
      invariant index <= refs.Length && refs[..] == before
      invariant forall k :: 0 <= k < index ==> !(cur.major == before[k].major && cur.minor == before[k].minor)
    {
      if cur.major == refs[index].major && cur.minor == refs[index].minor {
        FirstSame(DISK, before, cur, index);
        if DiskDecreased(cur, refs[index]) {
          refs[index] := BlankDisk(cur);
        }
        return;
      }
      index := index + 1;
    }
    NoneSame(DISK, before, cur);
    index := 0;
    while index < refs.Length && !FreeDisk(refs[index])
      invariant index <= refs.Length && refs[..] == before
      invariant forall k :: 0 <= k < index ==> !FreeDisk(before[k])
    {
      index := index + 1;
    }
    FirstFree(DISK, before, index);
    if index >= refs.Length {
      index := pos;
    }
    refs[index] := BlankDisk(cur);
  }

  lemma DiskLaws()
    ensures Lawful(DISK)
  {
  }

  /** One device of a sample, unless its slot is unused. */
  method CompareDisk(cur: DiskStats, refs: array<DiskStats>, pos: nat)
    returns (row: seq<(DiskStats, DiskStats)>, j: nat)
    requires pos < refs.Length
    modifies refs
    ensures if DISK.free(cur) then row == [] && refs[..] == old(refs[..])
            else
              && j == SlotFor(DISK, old(refs[..]), cur, pos) && refs[..] == Matched(DISK, old(refs[..]), cur, pos)
              && row == [(refs[j], cur)]
  {
    row, j := [], 0;
    if !FreeDisk(cur) {
      j := CheckDiskReg(cur, refs, pos);
      row := [(refs[j], cur)];
    }
  }

  /** The loop over the disks of a sample. */
  method CompareDisks(curs: seq<DiskStats>, refs: array<DiskStats>) returns (rows: seq<(DiskStats, DiskStats)>)
    requires |curs| == refs.Length
    modifies refs
    ensures refs[..] == MatchAll(DISK, old(refs[..]), curs, |curs|) && rows == Rows(DISK, old(refs[..]), curs, |curs|)
  {
    rows := [];
    ghost var before := refs[..];
    for i := 0 to |curs|
      invariant refs[..] == MatchAll(DISK, before, curs, i) && rows == Rows(DISK, before, curs, i)
    {
      var row, j := CompareDisk(curs[i], refs, i);
      OneMoreRow(DISK, before, curs, i, refs[..], j);
      rows := rows + row;
    }
  }

  /** The analogue for disks, whose three counters never exceed the current ones after the match. */
  lemma DiskMatched(refs: seq<DiskStats>, cur: DiskStats, pos: nat)
    requires pos < |refs| && !FreeDisk(cur) && Distinct(DISK, refs)
    ensures var i, r := SlotFor(DISK, refs, cur, pos), Matched(DISK, refs, cur, pos);
            && r[i].major == cur.major && r[i].minor == cur.minor && Distinct(DISK, r)
            && (forall k :: 0 <= k < |refs| && k != i ==> r[k] == refs[k])
            && r[i].nrIos <= cur.nrIos && r[i].rdSect <= cur.rdSect && r[i].wrSect <= cur.wrSect
            && SlotFor(DISK, r, cur, pos) == i && Matched(DISK, r, cur, pos) == r
  {
    DiskLaws();
    MatchedSlot(DISK, refs, cur, pos);
    MatchedAgain(DISK, refs, cur, pos);
  }
}
