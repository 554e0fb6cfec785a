/**
 The daily data file of sysstat: a header, then records.  A record has a fixed part and, unless
 it marks a restart, sections whose sizes follow from the header.  Values are kept in little-endian
 order; the offsets and sizes are those of sa.h, which pads its structures to be the same for
 32-bit and 64-bit longs.
 */
module SaFile {
  import opened Common
  import opened Bits

  const FILE_HDR_SIZE := 240
  const FILE_STATS_SIZE := 448
  const STATS_ONE_CPU_SIZE := 96
  const STATS_ONE_IRQ_SIZE := 1024
  const STATS_SERIAL_SIZE := 32
  const STATS_IRQ_CPU_SIZE := 8
  const STATS_NET_DEV_SIZE := 144
  const DISK_STATS_SIZE := 80
  const NAMES_SIZE := 195
  const RECORD_TYPE := 432

  const SA_MAGIC := 0x2167
  const R_STATS: U8 := 1
  const R_DUMMY: U8 := 2

  /** Bit numbers in the activity flag. */
  const ONE_IRQ := 4
  const SERIAL := 8
  const NET_DEV := 9
  const NET_EDEV := 10
  const DISK := 11
  const PID := 12

  // ---------- Numbers as bytes ----------

  function Bytes(v: nat, n: nat): (b: seq<U8>)
    ensures |b| == n
  {
    if n == 0 then [] else [v % 256] + Bytes(v / 256, n - 1)
  }

  function Value(b: seq<U8>): (v: nat) {
    if b == [] then 0 else var low: int := b[0]; low + 256 * Value(b[1..])
  }

  lemma Pow2Byte(k: nat)
    ensures Pow2(k + 8) == 256 * Pow2(k)
  {
    assert Pow2(k + 4) == 16 * Pow2(k) by {
      assert Pow2(k + 2) == 4 * Pow2(k);
    }
    assert Pow2(k + 8) == 16 * Pow2(k + 4) by {
      assert Pow2(k + 6) == 4 * Pow2(k + 4);
    }
  }

  lemma {:induction false} ValueOfBytes(v: nat, n: nat)
    requires v < Pow2(8 * n)
    ensures Value(Bytes(v, n)) == v
  {
    if n > 0 {
      Pow2Byte(8 * (n - 1));
      ValueOfBytes(v / 256, n - 1);
      assert Bytes(v, n)[1..] == Bytes(v / 256, n - 1);
    }
  }

  function EncodeFields(ws: seq<nat>, vs: seq<nat>): (b: seq<U8>)
    requires |vs| == |ws|
    decreases |vs|
  {
    if ws == [] then [] else Bytes(vs[0], ws[0]) + EncodeFields(ws[1..], vs[1..])
  }

  function DecodeFields(ws: seq<nat>, b: seq<U8>): (vs: seq<nat>)
    ensures |vs| == |ws|
    decreases |b| + |ws|
  {
    if ws == [] then []
    else
      var w := if ws[0] <= |b| then ws[0] else |b|;
      [Value(b[..w])] + DecodeFields(ws[1..], b[w..])
  }

  lemma FirstField(ws: seq<nat>, b: seq<U8>, first: seq<U8>, more: seq<U8>)
    requires ws != [] && |first| == ws[0] && b == first + more
    ensures DecodeFields(ws, b) == [Value(first)] + DecodeFields(ws[1..], more)
  {
    assert b[..ws[0]] == first && b[ws[0]..] == more;
  }

  predicate FieldFits(v: nat, w: nat) {
    v < Pow2(8 * w)
  }

  lemma {:induction false} FieldsRoundTrip(ws: seq<nat>, vs: seq<nat>, rest: seq<U8>)
    requires |vs| == |ws| && forall i :: 0 <= i < |ws| ==> FieldFits(vs[i], ws[i])
    ensures DecodeFields(ws, EncodeFields(ws, vs) + rest) == vs
  {
    if ws != [] {
      var first, tail := Bytes(vs[0], ws[0]), EncodeFields(ws[1..], vs[1..]);
      assert EncodeFields(ws, vs) + rest == first + (tail + rest);
      FirstField(ws, EncodeFields(ws, vs) + rest, first, tail + rest);
      assert FieldFits(vs[0], ws[0]);
      ValueOfBytes(vs[0], ws[0]);
      FieldsRoundTrip(ws[1..], vs[1..], rest);
      assert [vs[0]] + vs[1..] == vs;
    }
  }

  // ---------- The header ----------

  datatype Header = Header(ustTime: nat, actflag: nat, nrPid: nat, irqcpu: nat, nrDisk: nat, proc: nat,
                           serial: nat, iface: nat, magic: nat, stSize: nat, day: nat, month: nat, year: nat,
                           names: seq<U8>)
  {
    function Fields(): (f: seq<nat>) {
      [ustTime, actflag, nrPid, irqcpu, nrDisk, proc, serial, iface, magic, stSize, day, month, year]
    }

    predicate InRange() {
      |names| == NAMES_SIZE && forall i :: 0 <= i < |Widths()| ==> FieldFits(Fields()[i], Widths()[i])
    }
  }

  /** The widths of the header's numeric fields, in bytes. */
  function Widths(): (w: seq<nat>) {
    [8, 4, 4, 4, 4, 4, 4, 4, 2, 2, 1, 1, 1]
  }

  function Total(ws: seq<nat>): (t: nat) {
    if ws == [] then 0 else ws[0] + Total(ws[1..])
  }

  lemma {:induction false} FieldsLength(ws: seq<nat>, vs: seq<nat>)
    requires |vs| == |ws|
    ensures |EncodeFields(ws, vs)| == Total(ws)
  {
    if ws != [] {
      FieldsLength(ws[1..], vs[1..]);
    }
  }

  function HeaderBytes(h: Header): (b: seq<U8>) {
    EncodeFields(Widths(), h.Fields()) + h.names + [0, 0]
  }

  function DecodeHeader(b: seq<U8>): (h: Header)
    requires |b| >= FILE_HDR_SIZE
  {
    var f := DecodeFields(Widths(), b);
    Header(f[0], f[1], f[2], f[3], f[4], f[5], f[6], f[7], f[8], f[9], f[10], f[11], f[12], b[43..238])
  }

  lemma {:induction false} TotalOfSum(a: seq<nat>, b: seq<nat>)
    ensures Total(a + b) == Total(a) + Total(b)
  {
    if a == [] {
      assert a + b == b;
    } else {
      assert (a + b)[1..] == a[1..] + b;
      TotalOfSum(a[1..], b);
    }
  }

  lemma TotalWidths()
    ensures Total(Widths()) == 43
  {
    var ones, fours := [1, 1, 1], [4, 4, 4];
    TotalOfSum([2, 2], ones);
    TotalOfSum(fours, [4]);
    TotalOfSum([8], fours);
    TotalOfSum([8] + fours, fours + [4]);
    TotalOfSum([8] + fours + (fours + [4]), [2, 2] + ones);
    assert Widths() == [8] + fours + (fours + [4]) + ([2, 2] + ones);
  }

  lemma DecodeParts(h: Header, f: seq<U8>, rest: seq<U8>)
    requires |f| == 43 && |h.names| == NAMES_SIZE
    requires DecodeFields(Widths(), f + (h.names + [0, 0] + rest)) == h.Fields()
    ensures DecodeHeader(f + h.names + [0, 0] + rest) == h
  {
    var b := f + h.names + [0, 0] + rest;
    assert b == f + (h.names + [0, 0] + rest);
    assert b[43..238] == h.names;
  }

  /** A reader finds in a file what was put in its header. */
  lemma HeaderRoundTrip(h: Header, rest: seq<U8>)
    requires h.InRange()
    ensures |HeaderBytes(h)| == FILE_HDR_SIZE
    ensures DecodeHeader(HeaderBytes(h) + rest) == h
  {
    var ws, vs := Widths(), h.Fields();
    FieldsLength(ws, vs);
    TotalWidths();
    FieldsRoundTrip(ws, vs, h.names + [0, 0] + rest);
    DecodeParts(h, EncodeFields(ws, vs), rest);
  }

  lemma {:induction false} FieldsOfPrefix(ws: seq<nat>, b: seq<U8>, x: seq<U8>)
    requires Total(ws) <= |b|
    ensures DecodeFields(ws, b + x) == DecodeFields(ws, b)
  {
    if ws != [] {
      var w := ws[0];
      assert (b + x)[..w] == b[..w] && (b + x)[w..] == b[w..] + x;
      FieldsOfPrefix(ws[1..], b[w..], x);
    }
  }

  /** The header of a file does not change when something is written behind it. */
  lemma HeaderStays(b: seq<U8>, x: seq<U8>)
    requires |b| >= FILE_HDR_SIZE
    ensures DecodeHeader(b + x) == DecodeHeader(b)
  {
    TotalWidths();
    FieldsOfPrefix(Widths(), b, x);
    assert (b + x)[43..238] == b[43..238];
  }

  // ---------- Records ----------

  /** The sizes in bytes of the sections that follow the fixed part of a record. */
  datatype Layout = Layout(cpu: nat, irq: nat, serial: nat, irqcpu: nat, iface: nat, disk: nat) {
    function Size(): (n: nat) {
      cpu + irq + serial + irqcpu + iface + disk
    }
  }

  function CpuSize(proc: nat): (n: nat) {
    if proc > 0 then STATS_ONE_CPU_SIZE * (proc + 1) else 0
  }

  /** The size of the counts of irqcpu interrupts, for all processors together and for each one. */
  function IrqCpuSize(proc: nat, irqcpu: nat): (n: nat) {
    STATS_IRQ_CPU_SIZE * (proc + 1) * irqcpu
  }

  /** The layout the readers derive from the header. */
  function HeaderLayout(h: Header): (l: Layout) {
    Layout(CpuSize(h.proc),
           if Bit(h.actflag, ONE_IRQ) then STATS_ONE_IRQ_SIZE else 0,
           STATS_SERIAL_SIZE * h.serial,
           IrqCpuSize(h.proc, h.irqcpu),
           STATS_NET_DEV_SIZE * h.iface,
           DISK_STATS_SIZE * h.nrDisk)
  }

  datatype Sections = Sections(cpu: seq<U8>, irq: seq<U8>, serial: seq<U8>, irqcpu: seq<U8>, iface: seq<U8>,
                               disk: seq<U8>)

  const NOTHING := Sections([], [], [], [], [], [])

  datatype Record = Record(stats: seq<U8>, more: Sections) {
    predicate IsDummy() {
      |stats| > RECORD_TYPE && stats[RECORD_TYPE] == R_DUMMY
    }

    predicate Fits(l: Layout) {
      && |stats| == FILE_STATS_SIZE
      && if IsDummy() then more == NOTHING else
           && |more.cpu| == l.cpu && |more.irq| == l.irq && |more.serial| == l.serial
           && |more.irqcpu| == l.irqcpu && |more.iface| == l.iface && |more.disk| == l.disk
    }

  }

  function Flat(m: Sections): (b: seq<U8>) {
    m.cpu + (m.irq + (m.serial + (m.irqcpu + (m.iface + m.disk))))
  }

  function Encode(r: Record): (b: seq<U8>) {
    r.stats + Flat(r.more)
  }

  function Joined<T>(f: T -> seq<U8>, xs: seq<T>): (b: seq<U8>) {
    if xs == [] then [] else f(xs[0]) + Joined(f, xs[1..])
  }

  lemma {:induction false} JoinOneMore<T>(f: T -> seq<U8>, xs: seq<T>, x: T)
    ensures Joined(f, xs + [x]) == Joined(f, xs) + f(x)
  {
    if xs == [] {
      assert (xs + [x])[1..] == xs;
    } else {
      JoinOneMore(f, xs[1..], x);
      assert (xs + [x])[1..] == xs[1..] + [x];
    }
  }

  /** The records of a file, one after the other. */
  function EncodeAll(rs: seq<Record>): (b: seq<U8>) {
    Joined(Encode, rs)
  }

  predicate AllFit(l: Layout, rs: seq<Record>) {
    forall i :: 0 <= i < |rs| ==> rs[i].Fits(l)
  }

  // ---------- Reading ----------

  /** Consecutive sections of a file, from position p on. */
  function Cut(l: Layout, file: seq<U8>, p: nat): (m: Sections)
    requires p + l.Size() <= |file|
  {
    var p1 := p + l.cpu;
    var p2 := p1 + l.irq;
    var p3 := p2 + l.serial;
    var p4 := p3 + l.irqcpu;
    var p5 := p4 + l.iface;
    Sections(file[p..p1], file[p1..p2], file[p2..p3], file[p3..p4], file[p4..p5], file[p5..p5 + l.disk])
  }

  /** What a reader gets: a record, the end of the file, or an end inside a record, which makes it exit. */
  datatype Outcome = Got(r: Record) | Eof | Unexpected

  /** The record at position p of a file, as the readers fetch it. */
  function RecordAt(l: Layout, file: seq<U8>, p: nat): (o: Outcome)
    requires p <= |file|
  {
    var body := p + FILE_STATS_SIZE;
    if p == |file| then Eof
    else if body > |file| then Unexpected
    else if file[p..body][RECORD_TYPE] == R_DUMMY then Got(Record(file[p..body], NOTHING))
    else if body + l.Size() > |file| then Unexpected
    else Got(Record(file[p..body], Cut(l, file, body)))
  }

  lemma Adjacent(file: seq<U8>, a: nat, b: nat, c: nat)
    requires a <= b <= c <= |file|
    ensures file[a..b] + file[b..c] == file[a..c]
  {
  }

  lemma Front(file: seq<U8>, p: nat, q: nat, a: seq<U8>, b: seq<U8>)
    requires p <= q <= |file| && file[p..q] == a + b
    ensures p + |a| <= q && file[p..p + |a|] == a && file[p + |a|..q] == b
  {
    var s := file[p..q];
    assert |s| == |a| + |b|;
    assert s[..|a|] == a && s[|a|..] == b;
  }

  lemma ThreeInFront(file: seq<U8>, p: nat, q: nat, a: seq<U8>, b: seq<U8>, c: seq<U8>, d: seq<U8>)
    requires p <= q <= |file| && file[p..q] == a + (b + (c + d))
    ensures var p1 := p + |a|;
            var p2 := p1 + |b|;
            var p3 := p2 + |c|;
            p3 <= q && file[p..p1] == a && file[p1..p2] == b && file[p2..p3] == c && file[p3..q] == d
  {
    Front(file, p, q, a, b + (c + d));
    Front(file, p + |a|, q, b, c + d);
    Front(file, p + |a| + |b|, q, c, d);
  }

  lemma CutIsContents(l: Layout, file: seq<U8>, p: nat)
    requires p + l.Size() <= |file|
    ensures Flat(Cut(l, file, p)) == file[p..p + l.Size()]
  {
    var p1 := p + l.cpu;
    var p2 := p1 + l.irq;
    var p3 := p2 + l.serial;
    var p4 := p3 + l.irqcpu;
    var p5 := p4 + l.iface;
    var p6 := p5 + l.disk;
    Adjacent(file, p4, p5, p6);
    Adjacent(file, p3, p4, p6);
    Adjacent(file, p2, p3, p6);
    Adjacent(file, p1, p2, p6);
    Adjacent(file, p, p1, p6);
  }

  lemma ContentsAreCut(l: Layout, file: seq<U8>, p: nat, m: Sections)
    requires p + l.Size() <= |file| && file[p..p + l.Size()] == Flat(m)
    requires |m.cpu| == l.cpu && |m.irq| == l.irq && |m.serial| == l.serial
    requires |m.irqcpu| == l.irqcpu && |m.iface| == l.iface && |m.disk| == l.disk
    ensures Cut(l, file, p) == m
  {
    var q, p3 := p + l.Size(), p + l.cpu + l.irq + l.serial;
    ThreeInFront(file, p, q, m.cpu, m.irq, m.serial, m.irqcpu + (m.iface + m.disk));
    assert m.disk + [] == m.disk;
    ThreeInFront(file, p3, q, m.irqcpu, m.iface, m.disk, []);
  }

  lemma GotIsEncoded(l: Layout, file: seq<U8>, p: nat)
    requires p <= |file| && RecordAt(l, file, p).Got?
    ensures var r := RecordAt(l, file, p).r;
            && r.Fits(l)
            && p + FILE_STATS_SIZE <= p + |Encode(r)| <= |file|
            && file[p..p + |Encode(r)|] == Encode(r)
  {
    var r, body := RecordAt(l, file, p).r, p + FILE_STATS_SIZE;
    if !r.IsDummy() {
      CutIsContents(l, file, body);
      Adjacent(file, p, body, body + l.Size());
    }
  }

  lemma EncodedIsGot(l: Layout, file: seq<U8>, p: nat, r: Record)
    requires r.Fits(l) && p + |Encode(r)| <= |file|
    requires file[p..p + |Encode(r)|] == Encode(r)
    ensures RecordAt(l, file, p) == Got(r)
  {
    Front(file, p, p + |Encode(r)|, r.stats, Flat(r.more));
    if !r.IsDummy() {
      ContentsAreCut(l, file, p + FILE_STATS_SIZE, r.more);
    }
  }

  /** All the records from position p on, unless the file ends inside one. */
  function Parse(l: Layout, file: seq<U8>, p: nat): (o: Option<seq<Record>>)
    requires p <= |file|
    decreases |file| - p
  {
    match RecordAt(l, file, p)
    case Eof => Some([])
    case Unexpected => None
    case Got(r) =>
      GotIsEncoded(l, file, p);
      var rest := Parse(l, file, p + |Encode(r)|);
      if rest.None? then None else Some([r] + rest.value)
  }

  /** The first of several records at position p, and where the others begin. */
  lemma FirstRecord(l: Layout, file: seq<U8>, p: nat, r: Record, rest: seq<U8>)
    requires p <= |file| && r.Fits(l) && file[p..] == Encode(r) + rest
    ensures RecordAt(l, file, p) == Got(r)
    ensures p < p + |Encode(r)| <= |file| && file[p + |Encode(r)|..] == rest
  {
    Front(file, p, |file|, Encode(r), rest);
    EncodedIsGot(l, file, p, r);
    GotIsEncoded(l, file, p);
  }

  lemma ParseStep(l: Layout, file: seq<U8>, p: nat, r: Record, q: nat, rest: seq<Record>)
    requires p < q <= |file| && RecordAt(l, file, p) == Got(r) && q == p + |Encode(r)|
    requires Parse(l, file, q) == Some(rest)
    ensures Parse(l, file, p) == Some([r] + rest)
  {
  }

  lemma AllFitTail(l: Layout, rs: seq<Record>)
    requires AllFit(l, rs) && rs != []
    ensures rs[0].Fits(l) && AllFit(l, rs[1..])
  {
  }

  lemma {:induction false} ParseOfEncoded(l: Layout, file: seq<U8>, p: nat, rs: seq<Record>)
    requires p <= |file| && AllFit(l, rs) && file[p..] == EncodeAll(rs)
    ensures Parse(l, file, p) == Some(rs)
    decreases |rs|
  {
    if rs == [] {
    } else {
      var r, rest := rs[0], rs[1..];
      AllFitTail(l, rs);
      FirstRecord(l, file, p, r, EncodeAll(rest));
      var q := p + |Encode(r)|;
      ParseOfEncoded(l, file, q, rest);
      ParseStep(l, file, p, r, q, rest);
      assert rs == [r] + rest;
    }
  }

  lemma {:induction false} EncodedOfParse(l: Layout, file: seq<U8>, p: nat)
    requires p <= |file| && Parse(l, file, p).Some?
    ensures AllFit(l, Parse(l, file, p).value) && file[p..] == EncodeAll(Parse(l, file, p).value)
    decreases |file| - p
  {
    if RecordAt(l, file, p).Got? {
      GotIsEncoded(l, file, p);
      var r := RecordAt(l, file, p).r;
      var q := p + |Encode(r)|;
      EncodedOfParse(l, file, q);
      Adjacent(file, p, q, |file|);
      var rest := Parse(l, file, q).value;
      assert ([r] + rest)[1..] == rest;
    }
  }

  /** Reading inverts writing: a file parses into given records exactly when it consists of their encodings. */
  lemma ParseIff(l: Layout, file: seq<U8>, p: nat, rs: seq<Record>)
    requires p <= |file|
    ensures Parse(l, file, p) == Some(rs) <==> AllFit(l, rs) && file[p..] == EncodeAll(rs)
  {
    if Parse(l, file, p) == Some(rs) {
      EncodedOfParse(l, file, p);
    } else if AllFit(l, rs) && file[p..] == EncodeAll(rs) {
      ParseOfEncoded(l, file, p, rs);
    }
  }

  // ---------- Files that go wrong after some records ----------

  /** What the readers get before the file ends or they give up. */
  function Delivered(l: Layout, file: seq<U8>, p: nat): (rs: seq<Record>)
    requires p <= |file|
    decreases |file| - p
  {
    match RecordAt(l, file, p)
    case Eof => []
    case Unexpected => []
    case Got(r) =>
      GotIsEncoded(l, file, p);
      [r] + Delivered(l, file, p + |Encode(r)|)
  }

  /** Records at position p are delivered first, whatever follows them. */
  lemma {:induction false} DeliveredBefore(l: Layout, file: seq<U8>, p: nat, rs: seq<Record>, tail: seq<U8>)
    requires p <= |file| && AllFit(l, rs) && file[p..] == EncodeAll(rs) + tail
    ensures rs <= Delivered(l, file, p)
    decreases |rs|
  {
    if rs != [] {
      var r, rest := rs[0], rs[1..];
      AllFitTail(l, rs);
      assert Encode(r) + EncodeAll(rest) + tail == Encode(r) + (EncodeAll(rest) + tail);
      FirstRecord(l, file, p, r, EncodeAll(rest) + tail);
      DeliveredBefore(l, file, p + |Encode(r)|, rest, tail);
      assert rs == [r] + rest;
    }
  }

  /** A part of a record is not a record. */
  lemma TornRecord(l: Layout, file: seq<U8>, p: nat, r: Record, m: nat)
    requires p <= |file| && r.Fits(l) && 0 < m < |Encode(r)| && file[p..] == Encode(r)[..m]
    ensures RecordAt(l, file, p) == Unexpected
  {
    if m >= FILE_STATS_SIZE {
      assert file[p..p + FILE_STATS_SIZE] == file[p..][..FILE_STATS_SIZE] == Encode(r)[..FILE_STATS_SIZE] == r.stats;
    }
  }

  /** Nothing is delivered after the last whole record, and the file does not parse. */
  lemma {:induction false} TornAfter(l: Layout, file: seq<U8>, p: nat, rs: seq<Record>, r: Record, m: nat)
    requires p <= |file| && AllFit(l, rs) && r.Fits(l) && 0 < m < |Encode(r)|
    requires file[p..] == EncodeAll(rs) + Encode(r)[..m]
    ensures Delivered(l, file, p) == rs && Parse(l, file, p) == None
    decreases |rs|
  {
    var part := Encode(r)[..m];
    if rs == [] {
      assert EncodeAll(rs) + part == part;
      TornRecord(l, file, p, r, m);
    } else {
      var first, rest := rs[0], rs[1..];
      AllFitTail(l, rs);
      assert Encode(first) + EncodeAll(rest) + part == Encode(first) + (EncodeAll(rest) + part);
      FirstRecord(l, file, p, first, EncodeAll(rest) + part);
      TornAfter(l, file, p + |Encode(first)|, rest, r, m);
      assert rs == [first] + rest;
    }
  }
}
