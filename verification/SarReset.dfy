/**
 A file on which the passes of sar get in each other's way: the average line of one activity resets an
 interface of the first record, which the first line of the next activity is compared with.
 */
module SarReset {
  import opened Common
  import opened Bits
  import opened SaFile
  import opened SaDevices
  import opened SarReport
  import NextSlice
  import SaRegister
  import SadcHistory
  import SadcModel

  // ---------- The file ----------

  /** A machine of one processor, with one interface and room for two more. */
  const FLAG := 0x1FC6EF
  const CLOCK := SadcModel.Clock(0, 1, 0, 100, 0, 0, 0, SadcModel.Zeros(NAMES_SIZE))
  const HDR: Header := SadcModel.NewHeader(SadcModel.Counts(FLAG, 0, 0, 0, 3, 0), CLOCK)

  function StatsAt(uptime: U8): (b: seq<U8>)
    ensures |b| == FILE_STATS_SIZE
  {
    seq<U8>(FILE_STATS_SIZE, i => if i == 0 then uptime else if i == RECORD_TYPE then R_STATS else 0)
  }

  const ERRORS_OFFSET := 64
  const NAME_OFFSET := 128

  /** An interface "e" with so many receive errors, and two unused entries. */
  function IfaceBytes(errors: U8): (b: seq<U8>)
    ensures |b| == 3 * STATS_NET_DEV_SIZE
  {
    seq<U8>(3 * STATS_NET_DEV_SIZE,
            i => if i == ERRORS_OFFSET then errors
                 else if i == NAME_OFFSET then 'e' as U8
                 else if i > NAME_OFFSET && i % STATS_NET_DEV_SIZE == NAME_OFFSET then '?' as U8
                 else 0)
  }

  function RecordOf(uptime: U8, errors: U8): (r: Record) {
    Record(StatsAt(uptime), NOTHING.(iface := IfaceBytes(errors)))
  }

  /** One second apart; the interface has been registered anew between the second and the third record. */
  const FILE: seq<Record> := [RecordOf(5, 10), RecordOf(105, 20), RecordOf(205, 6)]

  const EVERY_SECOND: Selection := Selection(1, _ => false, _ => false)

  function Named(name: string, errors: U32): (d: NetDev) {
    SaRegister.NetDev(name, 0, 0, 0, 0, 0, 0, 0, 0, errors, 0, 0, 0, 0, 0, 0, 0)
  }

  function Ifaces(errors: U32): (ds: seq<NetDev>) {
    [Named("e", errors), Named("?", 0), Named("?", 0)]
  }

  // ---------- What its records hold ----------

  lemma {:induction false} ZeroValue(b: seq<U8>)
    requires forall i :: 0 <= i < |b| ==> b[i] == 0
    ensures Value(b) == 0
  {
    if b != [] {
      ZeroValue(b[1..]);
    }
  }

  lemma LowByte(b: seq<U8>, at: nat, n: nat)
    requires n > 0 && at + n <= |b| && forall i :: at < i < at + n ==> b[i] == 0
    ensures NumberAt(b, at, n) == b[at]
  {
    ZeroValue(b[at..at + n][1..]);
  }

  /** Of the counters of an entry, only the ninth is not zero. */
  predicate CounterIs(b: seq<U8>, at: nat, j: nat, errors: nat) {
    WordAt(b, at + 8 * j) == if j == 8 then errors else 0
  }

  lemma CounterAt(errors: U8, k: nat, j: nat)
    requires k < 3 && j < 16
    ensures CounterIs(IfaceBytes(errors), STATS_NET_DEV_SIZE * k, j, if k == 0 then errors as int else 0)
  {
    LowByte(IfaceBytes(errors), STATS_NET_DEV_SIZE * k + 8 * j, 4);
  }

  lemma EntryIs(b: seq<U8>, at: nat, name: string, errors: U32)
    requires StringAt(b, at + NAME_OFFSET, IFACE_LEN) == name && forall j: nat :: j < 16 ==> CounterIs(b, at, j, errors)
    ensures NetDevAt(b, at) == Named(name, errors)
  {
    assert CounterIs(b, at, 0, errors) && CounterIs(b, at, 1, errors) && CounterIs(b, at, 2, errors);
    assert CounterIs(b, at, 3, errors) && CounterIs(b, at, 4, errors) && CounterIs(b, at, 5, errors);
    assert CounterIs(b, at, 6, errors) && CounterIs(b, at, 7, errors) && CounterIs(b, at, 8, errors);
    assert CounterIs(b, at, 9, errors) && CounterIs(b, at, 10, errors) && CounterIs(b, at, 11, errors);
    assert CounterIs(b, at, 12, errors) && CounterIs(b, at, 13, errors) && CounterIs(b, at, 14, errors);
    assert CounterIs(b, at, 15, errors);
  }

  lemma NameAt(errors: U8, k: nat)
    requires k < 3
    ensures StringAt(IfaceBytes(errors), STATS_NET_DEV_SIZE * k + NAME_OFFSET, IFACE_LEN) == if k == 0 then "e" else "?"
  {
    var b, at := IfaceBytes(errors), STATS_NET_DEV_SIZE * k + NAME_OFFSET;
    assert b[at] != 0 && b[at + 1] == 0;
    assert StringAt(b, at + 1, IFACE_LEN - 1) == "";
  }

  lemma DeviceAt(errors: U8, k: nat)
    requires k < 3
    ensures NetDevAt(IfaceBytes(errors), STATS_NET_DEV_SIZE * k) == Ifaces(errors)[k]
  {
    var b, at, e: U32 := IfaceBytes(errors), STATS_NET_DEV_SIZE * k, if k == 0 then errors as int else 0;
    NameAt(errors, k);
    forall j: nat | j < 16
      ensures CounterIs(b, at, j, e)
    {
      CounterAt(errors, k, j);
    }
    EntryIs(b, at, if k == 0 then "e" else "?", e);
  }

  lemma DevicesAre(uptime: U8, errors: U8)
    ensures DevicesOf(HDR, RecordOf(uptime, errors)) == Devices(Ifaces(errors), [])
  {
    var ds := DevicesOf(HDR, RecordOf(uptime, errors)).ifaces;
    assert |ds| == 3;
    forall k | 0 <= k < 3
      ensures ds[k] == Ifaces(errors)[k]
    {
      DeviceAt(errors, k);
    }
  }

  /** It is a file that a collector on such a machine can have written. */
  lemma FileFits()
    ensures AllFit(HeaderLayout(HDR), FILE)
  {
    assert !Bit(FLAG, ONE_IRQ) by {
      SadcHistory.FifthBit(FLAG);
    }
    assert IrqCpuSize(0, 0) == 0;
  }

  // ---------- What is displayed ----------

  lemma UptimeOf(uptime: U8, errors: U8)
    ensures Uptime(RecordOf(uptime, errors)) == uptime as int
  {
    LowByte(StatsAt(uptime), 0, 8);
  }

  lemma WalkThree(rs: seq<Record>, v: nat -> Verdict)
    requires |rs| == 3 && !rs[1].IsDummy() && !rs[2].IsDummy() && v(1) == v(2) == Show
    ensures Walk(rs, 1, -1, v).shown == [1, 2]
  {
    assert Walk(rs, 3, -1, v).shown == [];
    assert Walk(rs, 2, -1, v).shown == [2] + Walk(rs, 3, -1, v).shown;
    assert Walk(rs, 1, -1, v).shown == [1] + Walk(rs, 2, -1, v).shown;
  }

  ghost predicate NoLimits(sel: Selection) {
    sel.interval == 1 && forall i :: !sel.early(i) && !sel.late(i)
  }

  /** Each record one second after the one before it is displayed, if that is the interval. */
  lemma ThreeShown(rs: seq<Record>, h: Header, sel: Selection, start: nat)
    requires |rs| == 3 && NoLimits(sel) && h.proc == 0
    requires forall j :: 0 <= j < 3 ==> !rs[j].IsDummy() && Uptime(rs[j]) == start + j * NextSlice.HZ
    ensures Displayed(rs, 0, -1, sel, h) == [1, 2]
  {
    forall j: nat | j <= 2
      ensures EvenRecord(rs, 0, start, 1, 0, sel, j)
    {
      assert NextSlice.UptimeAt(start, j, 1, 1) == start + j * NextSlice.HZ;
    }
    assert EvenRun(rs, 0, 2, start, 1, 0, sel);
    var v := Decisions(rs, 0, 0, sel);
    forall j: nat | 1 <= j <= 2
      ensures v(j) == Show
    {
      EvenDecision(rs, 0, 2, start, 1, 0, sel, j);
      assert NextSlice.InWindow(NextSlice.Multiple(j, 1), j, 1);
    }
    WalkThree(rs, v);
  }

  lemma BothShown()
    ensures Displayed(FILE, 0, -1, EVERY_SECOND, HDR) == [1, 2]
  {
    UptimeOf(5, 10);
    UptimeOf(105, 20);
    UptimeOf(205, 6);
    ThreeShown(FILE, HDR, EVERY_SECOND, 5);
  }

  // ---------- The passes ----------

  /** The interface is compared with its entry, which is reset if its counter has gone down. */
  lemma FirstCompared(ref: U32, cur: U32)
    ensures var now := if cur < ref then 0 else ref;
            && SaRegister.MatchAll(SaRegister.IFACE, Ifaces(ref), Ifaces(cur), 3) == Ifaces(now)
            && SaRegister.Rows(SaRegister.IFACE, Ifaces(ref), Ifaces(cur), 3) == [(Named("e", now), Named("e", cur))]
  {
    var k, refs, curs := SaRegister.IFACE, Ifaces(ref), Ifaces(cur);
    assert SaRegister.FindSame(k, refs, curs[0]) == 0;
    assert "e" != "?" by {
      assert "e"[0] != "?"[0];
    }
    assert SaRegister.MatchAll(k, refs, curs, 0) == refs;
    var one := SaRegister.MatchAll(k, refs, curs, 1);
    assert one == Ifaces(if cur < ref then 0 else ref);
    assert SaRegister.MatchAll(k, refs, curs, 2) == one;
    assert SaRegister.Rows(k, refs, curs, 0) == [];
    assert SaRegister.Rows(k, refs, curs, 1) == [(one[0], curs[0])];
    assert SaRegister.Rows(k, refs, curs, 2) == [(one[0], curs[0])];
  }

  /** What a line about interfaces shows, and what it leaves. */
  lemma LineOf(act: nat, ref: U32, cur: U32)
    requires OfIfaces(act)
    ensures var now, r, c := if cur < ref then 0 else ref, Devices(Ifaces(ref), []), Devices(Ifaces(cur), []);
            && RowsOf(act, r, c).ifaces == [(Named("e", now), Named("e", cur))]
            && After(act, r, c) == Devices(Ifaces(now), [])
  {
    FirstCompared(ref, cur);
  }

  lemma FirstTable(h: Header, act: nat, d: Devices, a: Record, b: Record)
    requires d.Fits(h)
    ensures TablesOf(h, act, d, [a, b])[0] == RowsOf(act, d, DevicesOf(h, a))
  {
    assert [a, b][..1] == [a];
    assert [a][..0] == [];
  }

  lemma PickBoth()
    ensures InFile(FILE, [1, 2]) && Picked(FILE, [1, 2]) == [FILE[1], FILE[2]]
  {
    assert [1, 2][..1] == [1];
    assert [1][..0] == [];
  }

  /** What the first record is before the first pass, and what a first pass about traffic makes of it. */
  lemma Remains(rs: seq<Record>, h: Header, sel: Selection, acts: seq<nat>, first: U32, last: U32)
    requires |rs| == 3 && acts != [] && Displayed(rs, 0, -1, sel, h) == [1, 2] && last < first
    requires DevicesOf(h, rs[0]) == Devices(Ifaces(first), []) && DevicesOf(h, rs[2]) == Devices(Ifaces(last), [])
    ensures FirstDevs(rs, 0, -1, sel, h, acts, 0) == Devices(Ifaces(first), [])
    ensures acts[0] == NET_DEV ==> FirstDevs(rs, 0, -1, sel, h, acts, 1) == Devices(Ifaces(0), [])
  {
    LineOf(NET_DEV, first, last);
    assert AfterPass(h, Devices(Ifaces(first), []), NET_DEV, rs, [1, 2]) == Devices(Ifaces(0), []);
  }

  /** The first row that sar displays for the errors of the interface, in pass k of the section on the file. */
  ghost function FirstRow(acts: seq<nat>, k: nat): (row: seq<(NetDev, NetDev)>)
    requires k < |acts|
  {
    var d, ks := FirstDevs(FILE, 0, -1, EVERY_SECOND, HDR, acts, k), Displayed(FILE, 0, -1, EVERY_SECOND, HDR);
    if InFile(FILE, ks) && ks != [] then TablesOf(HDR, acts[k], d, Picked(FILE, ks))[0].ifaces else []
  }

  /**
   The errors of the interface between the first two records: ten if only errors are asked for, twenty if traffic
   is asked for as well, because the average line about traffic has reset the interface of the first record.
   */
  lemma LaterPassDiffers()
    ensures FirstRow([NET_EDEV], 0) == [(Named("e", 10), Named("e", 20))]
    ensures FirstRow([NET_DEV, NET_EDEV], 1) == [(Named("e", 0), Named("e", 20))]
  {
    BothShown();
    PickBoth();
    DevicesAre(5, 10);
    DevicesAre(105, 20);
    DevicesAre(205, 6);
    Remains(FILE, HDR, EVERY_SECOND, [NET_EDEV], 10, 6);
    Remains(FILE, HDR, EVERY_SECOND, [NET_DEV, NET_EDEV], 10, 6);
    FirstTable(HDR, NET_EDEV, Devices(Ifaces(10), []), FILE[1], FILE[2]);
    FirstTable(HDR, NET_EDEV, Devices(Ifaces(0), []), FILE[1], FILE[2]);
    LineOf(NET_EDEV, 10, 20);
    LineOf(NET_EDEV, 0, 20);
  }

  /** This row is what the pass puts out. */
  lemma RowIsPutOut(acts: seq<nat>, k: nat, gs: seq<Gauge>, o: Output)
    requires PassOk(FILE, 0, acts, -1, EVERY_SECOND, gs, HDR, o, k)
    ensures o.tables != [] && o.tables[0].ifaces == FirstRow(acts, k)
  {
    BothShown();
  }
}
