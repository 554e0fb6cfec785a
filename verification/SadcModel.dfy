/**
 The data collector sadc as a machine on values.  A file that a collector has written is a header
 and a list of records; any other file is just its bytes.  What comes from outside (the numbers of
 items on the machine, clocks, memory, locks, how much can be written) is part of the events.
 */
module SadcModel {
  import opened Common
  import opened Bits
  import opened SaFile

  const NR_DISK_PREALLOC := 3
  const R_LAST_STATS: U8 := 3

  /** The activity flag and the numbers of items the collector works with. */
  datatype Counts = Counts(actflag: nat, cpu: nat, serial: nat, irqcpu: nat, iface: nat, disk: nat) {
    predicate InRange() {
      && actflag < Pow2(32) && cpu < Pow2(32) && serial < Pow2(32)
      && irqcpu < Pow2(32) && iface < Pow2(32) && disk < Pow2(32)
    }
  }

  /** What the collector counts on the machine; disk is the first of its three counts that is not zero. */
  datatype Machine = Machine(cpu: nat, serial: nat, irqcpu: nat, iface: nat, disk: nat) {
    predicate InRange() {
      && cpu < Pow2(32) && serial < Pow2(32) && irqcpu < Pow2(32)
      && iface < Pow2(32) && disk + NR_DISK_PREALLOC < Pow2(32)
    }
  }

  datatype Clock = Clock(time: nat, day: nat, month: nat, year: nat, hour: U8, minute: U8, second: U8, names: seq<U8>) {
    predicate InRange() {
      time < Pow2(64) && day < Pow2(8) && month < Pow2(8) && year < Pow2(8) && |names| == NAMES_SIZE
    }
  }

  /** The memory behind the buffers of the sections. */
  datatype Memory = Memory(cpu: nat -> U8, irq: nat -> U8, serial: nat -> U8,
                           irqcpu: nat -> U8, iface: nat -> U8, disk: nat -> U8)

  datatype Name = Name(path: string)

  /** How a request for a file lock ends. */
  datatype Flock = Granted | WouldBlock | Failed

  function Buffer(memory: nat -> U8, n: nat): (b: seq<U8>)
    ensures |b| == n
  {
    seq<U8>(n, memory)
  }

  // ---------- Layouts ----------

  /** The sizes of the sections the collector writes. */
  function WriterLayout(c: Counts): (l: Layout) {
    Layout(CpuSize(c.cpu),
           if Bit(c.actflag, ONE_IRQ) then STATS_ONE_IRQ_SIZE else 0,
           STATS_SERIAL_SIZE * c.serial,
           IrqCpuSize(c.cpu, c.irqcpu),
           STATS_NET_DEV_SIZE * c.iface,
           if Bit(c.actflag, DISK) then DISK_STATS_SIZE * c.disk else 0)
  }

  /** The header of a new file. */
  function NewHeader(c: Counts, now: Clock): (h: Header) {
    Header(now.time, c.actflag, 0, c.irqcpu, if Bit(c.actflag, DISK) then c.disk else 0, c.cpu, c.serial, c.iface,
           SA_MAGIC, FILE_STATS_SIZE, now.day, now.month, now.year, now.names)
  }

  /** The collector's numbers once it has taken over those of a file it appends to. */
  function Adopted(c: Counts, h: Header): (c': Counts) {
    var flag := if h.nrDisk != c.disk && h.nrDisk == 0 then ClearBit(h.actflag, DISK) else h.actflag;
    Counts(flag, c.cpu, h.serial, h.irqcpu, h.iface, if h.nrDisk != 0 then h.nrDisk else c.disk)
  }

  predicate DiskFlagged(h: Header) {
    h.nrDisk == 0 || Bit(h.actflag, DISK)
  }

  predicate GoodHeader(h: Header) {
    h.InRange() && h.magic == SA_MAGIC && h.stSize == FILE_STATS_SIZE && DiskFlagged(h)
  }

  /** A new header describes what its writer is going to write. */
  lemma NewHeaderAgrees(c: Counts, now: Clock)
    requires c.InRange() && now.InRange()
    ensures GoodHeader(NewHeader(c, now)) && HeaderLayout(NewHeader(c, now)) == WriterLayout(c)
  {
    CountsFit(c);
    ClockFits(now);
    ConstantsFit();
    FieldsInRange(NewHeader(c, now));
  }

  lemma CountsFit(c: Counts)
    requires c.InRange()
    ensures FieldFits(c.actflag, 4) && FieldFits(c.cpu, 4) && FieldFits(c.serial, 4)
    ensures FieldFits(c.irqcpu, 4) && FieldFits(c.iface, 4) && FieldFits(c.disk, 4)
  {
    FitsIn(c.actflag, 4);
  }

  lemma ClockFits(now: Clock)
    requires now.InRange()
    ensures FieldFits(now.time, 8) && FieldFits(now.day, 1) && FieldFits(now.month, 1) && FieldFits(now.year, 1)
  {
    FitsIn(now.time, 8);
  }

  lemma ConstantsFit()
    ensures FieldFits(0, 4) && FieldFits(SA_MAGIC, 2) && FieldFits(FILE_STATS_SIZE, 2)
  {
    Pow2Byte(8);
    Pow2Byte(0);
  }

  lemma FieldsInRange(h: Header)
    requires FieldFits(h.ustTime, 8) && FieldFits(h.actflag, 4) && FieldFits(h.nrPid, 4) && FieldFits(h.irqcpu, 4)
    requires FieldFits(h.nrDisk, 4) && FieldFits(h.proc, 4) && FieldFits(h.serial, 4) && FieldFits(h.iface, 4)
    requires FieldFits(h.magic, 2) && FieldFits(h.stSize, 2)
    requires FieldFits(h.day, 1) && FieldFits(h.month, 1) && FieldFits(h.year, 1) && |h.names| == NAMES_SIZE
    ensures h.InRange()
  {
  }

  lemma FitsIn(v: nat, w: nat)
    requires v < Pow2(8 * w)
    ensures FieldFits(v, w)
  {
  }

  /**
   After the collector has adopted the numbers of a file, it writes in the layout of that file
   exactly if the header does not count disks without flagging them.
   */
  lemma AdoptedAgreesIff(c: Counts, h: Header)
    requires c.cpu == h.proc
    ensures WriterLayout(Adopted(c, h)) == HeaderLayout(h) <==> DiskFlagged(h)
  {
    BitOfClearBit(h.actflag, DISK, DISK);
    BitOfClearBit(h.actflag, DISK, ONE_IRQ);
  }

  lemma AdoptedInRange(c: Counts, h: Header)
    requires c.InRange() && h.InRange()
    ensures Adopted(c, h).InRange()
  {
    NumbersInRange(h);
    SingleBitBounds(h.actflag, DISK, 32);
  }

  lemma NumbersInRange(h: Header)
    requires h.InRange()
    ensures h.actflag < Pow2(32) && h.irqcpu < Pow2(32) && h.nrDisk < Pow2(32) && h.serial < Pow2(32)
            && h.iface < Pow2(32)
  {
    var f, w := h.Fields(), Widths();
    assert FieldFits(f[1], w[1]) && FieldFits(f[3], w[3]) && FieldFits(f[4], w[4]);
    assert FieldFits(f[6], w[6]) && FieldFits(f[7], w[7]);
  }

  lemma CountedInRange(c: Counts, m: Machine)
    requires c.actflag < Pow2(32) && m.InRange()
    ensures Counted(c, m).InRange()
  {
    SingleBitBounds(c.actflag, SERIAL, 32);
    var f1 := if m.serial != 0 then SetBit(c.actflag, SERIAL) else c.actflag;
    SingleBitBounds(f1, NET_DEV, 32);
    SingleBitBounds(SetBit(f1, NET_DEV), NET_EDEV, 32);
  }

  // ---------- Files ----------

  /** The contents of a file that a collector has written. */
  datatype Contents = Contents(hdr: Header, recs: seq<Record>)

  function FileBytes(k: Contents): (b: seq<U8>)
    decreases |k.recs|
  {
    var n := |k.recs| - 1;
    if n < 0 then HeaderBytes(k.hdr) else FileBytes(k.(recs := k.recs[..n])) + Encode(k.recs[n])
  }

  lemma {:induction false} FileIsHeaderAndRecords(k: Contents)
    ensures FileBytes(k) == HeaderBytes(k.hdr) + EncodeAll(k.recs)
    decreases |k.recs|
  {
    var n := |k.recs| - 1;
    if n >= 0 {
      var init := k.(recs := k.recs[..n]);
      FileIsHeaderAndRecords(init);
      JoinOneMore(Encode, init.recs, k.recs[n]);
      assert k.recs == init.recs + [k.recs[n]];
    }
  }

  lemma OneMoreRecord(k: Contents, r: Record)
    ensures FileBytes(k.(recs := k.recs + [r])) == FileBytes(k) + Encode(r)
  {
    var more := k.(recs := k.recs + [r]);
    assert more.(recs := more.recs[..|k.recs|]) == k;
  }

  predicate Rejected(file: seq<U8>) {
    |file| < FILE_HDR_SIZE || DecodeHeader(file).magic != SA_MAGIC
  }

  predicate Whole(k: Contents) {
    GoodHeader(k.hdr) && AllFit(HeaderLayout(k.hdr), k.recs)
  }

  lemma BehindHeader(h: Header, x: seq<U8>, file: seq<U8>)
    requires h.InRange() && file == HeaderBytes(h) + x
    ensures |file| >= FILE_HDR_SIZE && DecodeHeader(file) == h && file[FILE_HDR_SIZE..] == x
  {
    HeaderRoundTrip(h, x);
  }

  lemma BehindRecords(k: Contents, tail: seq<U8>, file: seq<U8>)
    requires GoodHeader(k.hdr) && file == FileBytes(k) + tail
    ensures !Rejected(file) && DecodeHeader(file) == k.hdr && file[FILE_HDR_SIZE..] == EncodeAll(k.recs) + tail
  {
    FileIsHeaderAndRecords(k);
    var head, recs := HeaderBytes(k.hdr), EncodeAll(k.recs);
    assert (head + recs) + tail == head + (recs + tail);
    BehindHeader(k.hdr, recs + tail, file);
  }

  /**
   The readers find in a written file the header and the records that were written, and its end after the last
   one.
   */
  lemma WrittenIsRead(k: Contents)
    requires Whole(k)
    ensures var file := FileBytes(k);
            && !Rejected(file)
            && DecodeHeader(file) == k.hdr
            && Parse(HeaderLayout(DecodeHeader(file)), file, FILE_HDR_SIZE) == Some(k.recs)
  {
    var file := FileBytes(k);
    assert file == FileBytes(k) + [];
    BehindRecords(k, [], file);
    assert file[FILE_HDR_SIZE..] == EncodeAll(k.recs);
    ParseIff(HeaderLayout(k.hdr), file, FILE_HDR_SIZE, k.recs);
  }

  /** Whatever follows the records of a file, the readers get the header and these records first. */
  lemma WrittenIsDelivered(k: Contents, tail: seq<U8>)
    requires Whole(k)
    ensures var file := FileBytes(k) + tail;
            && !Rejected(file) && DecodeHeader(file) == k.hdr
            && k.recs <= Delivered(HeaderLayout(k.hdr), file, FILE_HDR_SIZE)
  {
    var file := FileBytes(k) + tail;
    BehindRecords(k, tail, file);
    DeliveredBefore(HeaderLayout(k.hdr), file, FILE_HDR_SIZE, k.recs, tail);
  }

  /** A record of which only a part could be written ends the reading, after all the whole ones. */
  lemma TornIsRead(k: Contents, r: Record, m: nat)
    requires Whole(k) && r.Fits(HeaderLayout(k.hdr)) && 0 < m < |Encode(r)|
    ensures var file, l := FileBytes(k) + Encode(r)[..m], HeaderLayout(k.hdr);
            && !Rejected(file) && DecodeHeader(file) == k.hdr
            && Delivered(l, file, FILE_HDR_SIZE) == k.recs && Parse(l, file, FILE_HDR_SIZE) == None
  {
    var part, l := Encode(r)[..m], HeaderLayout(k.hdr);
    var file := FileBytes(k) + part;
    BehindRecords(k, part, file);
    TornAfter(l, file, FILE_HDR_SIZE, k.recs, r, m);
  }

  // ---------- The machine ----------

  /** What goes to standard output: headers and bunches of statistics. */
  datatype Item = Head(h: Header) | Bunch(r: Record)

  /** The bytes on standard output. */
  function ItemBytes(i: Item): (b: seq<U8>) {
    match i
    case Head(h) => HeaderBytes(h)
    case Bunch(r) => Encode(r)
  }

  function StreamBytes(items: seq<Item>): (b: seq<U8>) {
    Joined(ItemBytes, items)
  }

  /**
   The files; the collector's numbers, its options -F and -L, whether it believes to hold the lock;
   the file it really holds a lock on; whether it writes to standard output, and what; the name of
   its output file, and whether it is running with this file open.
   */
  datatype World = World(logs: map<Name, Contents>, junk: map<Name, seq<U8>>, c: Counts,
                         fOption: bool, lOption: bool, locked: bool, held: Option<Name>,
                         stdout: bool, stream: seq<Item>, ofile: Name, running: bool)

  datatype Answer = Go | Wait | Exit

  function Asked(w: World, lock: Flock, fatal: bool): (a: Answer) {
    if !w.lOption || lock.Granted? then Go
    else if lock.WouldBlock? && !fatal then Wait
    else Exit
  }

  /** Asking for the lock on a file. */
  function AfterAsk(w: World, name: Name, lock: Flock): (w': World) {
    if w.lOption && lock.Granted? then w.(locked := true, held := Some(name)) else w
  }

  function Counted(c: Counts, m: Machine): (c': Counts) {
    var f1 := if m.serial != 0 then SetBit(c.actflag, SERIAL) else c.actflag;
    var f2 := if m.iface != 0 then SetBit(SetBit(f1, NET_DEV), NET_EDEV) else f1;
    Counts(f2, m.cpu, m.serial, if m.cpu > 0 then m.irqcpu else 0, m.iface,
           if m.disk > 0 then m.disk + NR_DISK_PREALLOC else 0)
  }

  /** The bytes of a file, none if there is no such file. */
  function BytesOf(w: World, name: Name): (b: seq<U8>) {
    if name in w.logs then FileBytes(w.logs[name]) else if name in w.junk then w.junk[name] else []
  }

  /** The header the collector finds in a file, if it accepts it. */
  function HeaderIn(w: World, name: Name): (h: Option<Header>) {
    if name in w.logs then Some(w.logs[name].hdr)
    else if name in w.junk && !Rejected(w.junk[name]) then Some(DecodeHeader(w.junk[name]))
    else None
  }

  /** What opening a file will come to. */
  datatype Plan = Create | Append | Refuse

  function Planned(w: World, name: Name): (p: Plan) {
    var h := HeaderIn(w, name);
    if h.Some? then if h.value.proc == w.c.cpu then Append else if w.fOption then Create else Refuse
    else if name !in w.junk || w.junk[name] == [] || w.fOption then Create
    else Refuse
  }

  /** The collector's numbers for a new file: the activity flag of a file it replaces prevails. */
  function ForNewFile(w: World, name: Name): (c: Counts) {
    Flagged(w.c, HeaderIn(w, name))
  }

  function Flagged(c: Counts, h: Option<Header>): (c': Counts) {
    if h.Some? then c.(actflag := h.value.actflag) else c
  }

  /** The file is replaced by one with a header, of which perhaps only a part can be written. */
  function Headed(w: World, name: Name, now: Clock, room: nat): (w': World) {
    var h := NewHeader(w.c, now);
    if room < FILE_HDR_SIZE then
      w.(logs := w.logs - {name}, junk := w.junk[name := Part(HeaderBytes(h), room)], ofile := name, running := false)
    else w.(logs := w.logs[name := Contents(h, [])], junk := w.junk - {name}, ofile := name, running := true)
  }

  function Part(b: seq<U8>, room: nat): (p: seq<U8>) {
    if room < |b| then b[..room] else b
  }

  /** A new file with the numbers of the collector, or without the lock at most an empty one. */
  function Created(w: World, name: Name, now: Clock, lock: Flock, room: nat): (w': World) {
    if Asked(w, lock, true).Go? then Headed(AfterAsk(w, name, lock), name, now, room)
    else
      w.(junk := if name in w.logs || name in w.junk then w.junk else w.junk[name := []],
         ofile := name, running := false)
  }

  function Opened(w: World, name: Name, now: Clock, lock: Flock, room: nat): (w': World) {
    OpenedAs(w, name, now, lock, room, HeaderIn(w, name), Planned(w, name))
  }

  /** The outcome for a file with this header, if it has one, and with this plan. */
  function OpenedAs(w: World, name: Name, now: Clock, lock: Flock, room: nat, h: Option<Header>, p: Plan): (w': World) {
    match p
    case Create => Created(w.(c := Flagged(w.c, h)), name, now, lock, room)
    case Append => w.(c := if h.Some? then Adopted(w.c, h.value) else w.c, ofile := name, running := true)
    case Refuse => w.(c := Flagged(w.c, h), ofile := name, running := false)
  }

  /** The output file with a whole record at its end. */
  function WithRecord(w: World, r: Record): (w': World) {
    if w.ofile in w.logs then
      w.(logs := w.logs[w.ofile := w.logs[w.ofile].(recs := w.logs[w.ofile].recs + [r])])
    else w.(junk := w.junk[w.ofile := BytesOf(w, w.ofile) + Encode(r)])
  }

  /** The output file with a part of a record at its end. */
  function TornOff(w: World, part: seq<U8>): (w': World) {
    w.(logs := w.logs - {w.ofile}, junk := w.junk[w.ofile := BytesOf(w, w.ofile) + part])
  }

  /** As much of a record as can be written; unless that is all, the program ends. */
  function Put(w: World, r: Record, room: nat): (w': World) {
    if room >= |Encode(r)| then WithRecord(w, r)
    else if room == 0 then w.(running := false)
    else TornOff(w, Encode(r)[..room]).(running := false)
  }

  function StatsRecord(c: Counts, stats: seq<U8>, mem: Memory): (r: Record) {
    var l := WriterLayout(c);
    Record(stats, Sections(Buffer(mem.cpu, l.cpu), Buffer(mem.irq, l.irq), Buffer(mem.serial, l.serial),
                           Buffer(mem.irqcpu, l.irqcpu), Buffer(mem.iface, l.iface), Buffer(mem.disk, l.disk)))
  }

  /** One record at the end of the output file, if the lock can be had; otherwise nothing, or the end of the program. */
  function Wrote(w: World, r: Record, lock: Flock, fatal: bool, room: nat): (w': World) {
    if w.locked then Put(w, r, room)
    else
      match Asked(w, lock, fatal)
      case Go => Put(AfterAsk(w, w.ofile, lock), r, room)
      case Wait => w
      case Exit => w.(running := false)
  }

  function Zeros(n: nat): (b: seq<U8>)
    ensures |b| == n
  {
    seq<U8>(n, _ => 0)
  }

  function DummyStats(now: Clock): (b: seq<U8>)
    ensures |b| == FILE_STATS_SIZE && b[RECORD_TYPE] == R_DUMMY
  {
    Zeros(144) + Bytes(now.time, 8) + Zeros(280) + [R_DUMMY, now.hour, now.minute, now.second] + Zeros(12)
  }

  type StatsBytes = b: seq<U8> | |b| == FILE_STATS_SIZE witness Zeros(FILE_STATS_SIZE)

  /** Fixed parts as the collector fills them; the last ones before a rotation are marked on standard output only. */
  function Typed(stats: StatsBytes, mark: U8): (b: seq<U8>)
    ensures |b| == FILE_STATS_SIZE && b[RECORD_TYPE] == mark
  {
    stats[RECORD_TYPE := mark]
  }

  /**
   What can happen: a collector is started, for a restart mark only or to collect; it takes one
   sample; it takes one sample and goes on in another file.  A room says how many bytes of a record
   or header can be written.
   */
  datatype Event =
    | Start(actflag: nat, fOption: bool, lOption: bool, stdout: bool, m: Machine, name: Name, now: Clock, lock: Flock,
            room: nat, outNow: Clock, markOnly: bool, later: Clock, laterLock: Flock, laterRoom: nat)
    | Sample(stats: StatsBytes, mem: Memory, lock: Flock, room: nat)
    | Rotation(stats: StatsBytes, mem: Memory, lock: Flock, room: nat, m: Machine, outNow: Clock, name: Name,
               now: Clock, newLock: Flock, newRoom: nat, newMem: Memory, laterLock: Flock, laterRoom: nat)
  {
    predicate InRange() {
      match this
      case Start(a, _, _, _, m, _, now, _, _, outNow, _, later, _, _) =>
        a < Pow2(32) && m.InRange() && now.InRange() && outNow.InRange() && later.InRange()
      case Sample(_, _, _, _) => true
      case Rotation(_, _, _, _, m, outNow, _, now, _, _, _, _, _) => m.InRange() && outNow.InRange() && now.InRange()
    }
  }

  /** The statistics on standard output. */
  function Shown(w: World, stats: StatsBytes, mem: Memory, mark: U8): (w': World) {
    if w.running && w.stdout then w.(stream := w.stream + [Bunch(StatsRecord(w.c, Typed(stats, mark), mem))]) else w
  }

  /** The statistics in the file. */
  function Filed(w: World, stats: StatsBytes, mem: Memory, lock: Flock, room: nat): (w': World) {
    if w.running then Wrote(w, StatsRecord(w.c, Typed(stats, R_STATS), mem), lock, false, room) else w
  }

  function Marked(w: World, now: Clock, lock: Flock, room: nat): (w': World) {
    if w.running then Wrote(w, Record(DummyStats(now), NOTHING), lock, true, room).(running := false) else w
  }

  function Fresh(w: World, actflag: nat, fOption: bool, lOption: bool, stdout: bool): (w': World) {
    w.(c := Counts(ClearBit(actflag, PID), 0, 0, 0, 0, 0), fOption := fOption, lOption := lOption,
       locked := false, held := None, stdout := stdout, stream := [], running := false)
  }

  /** A header on standard output. */
  function Announced(w: World, now: Clock): (w': World) {
    if w.running && w.stdout then w.(stream := w.stream + [Head(NewHeader(w.c, now))]) else w
  }

  /** The old file is closed, which gives its lock back, and the items of the machine are counted again. */
  function Recounted(w: World, m: Machine): (w': World) {
    w.(c := Counted(w.c, m), held := None)
  }

  function Step(w: World, e: Event): (w': World) {
    match e
    case Start(actflag, f, l, stdout, m, name, now, lock, room, outNow, markOnly, later, laterLock, laterRoom) =>
      var open := Announced(Opened(Recounted(Fresh(w, actflag, f, l, stdout), m), name, now, lock, room), outNow);
      if markOnly then Marked(open, later, laterLock, laterRoom) else open
    case Sample(stats, mem, lock, room) => Filed(Shown(w, stats, mem, R_STATS), stats, mem, lock, room)
    case Rotation(stats, mem, lock, room, m, outNow, name, now, newLock, newRoom, newMem, laterLock, laterRoom) =>
      var v := Filed(Shown(w, stats, mem, R_LAST_STATS), stats, mem, lock, room);
      if !v.running then v
      else Filed(Opened(Announced(Recounted(v, m), outNow), name, now, newLock, newRoom),
                 stats, newMem, laterLock, laterRoom)
  }

  function Fold<W, E>(step: (W, E) -> W, w: W, es: seq<E>): (w': W)
    decreases |es|
  {
    if es == [] then w else Fold(step, step(w, es[0]), es[1..])
  }

  function Run(w: World, es: seq<Event>): (w': World) {
    Fold(Step, w, es)
  }

  lemma {:induction false} FoldOneMore<W, E>(step: (W, E) -> W, w: W, es: seq<E>, e: E)
    ensures Fold(step, w, es + [e]) == step(Fold(step, w, es), e)
    decreases |es|
  {
    if es == [] {
      assert (es + [e])[1..] == es;
    } else {
      FoldOneMore(step, step(w, es[0]), es[1..], e);
      assert (es + [e])[1..] == es[1..] + [e];
    }
  }

  lemma RunOneMore(w: World, es: seq<Event>, e: Event)
    ensures Run(w, es + [e]) == Step(Run(w, es), e)
  {
    FoldOneMore(Step, w, es, e);
  }

  // ---------- What every step keeps ----------

  /** A written file is whole; any other file is rejected, or damaged behind a good header. */
  ghost predicate Sound(logs: map<Name, Contents>, junk: map<Name, seq<U8>>, n: Name) {
    && (n in logs ==> Whole(logs[n]) && n !in junk)
    && (n in junk ==> Rejected(junk[n]) || GoodHeader(DecodeHeader(junk[n])))
  }

  ghost predicate FilesOk(w: World) {
    forall n :: Sound(w.logs, w.junk, n)
  }

  /** The open file takes what the collector writes. */
  ghost predicate OutputOk(w: World) {
    && w.c.InRange()
    && (w.running ==> HeaderIn(w, w.ofile).Some? && WriterLayout(w.c) == HeaderLayout(HeaderIn(w, w.ofile).value))
  }

  ghost predicate Ok(w: World) {
    FilesOk(w) && OutputOk(w)
  }

  lemma HeaderInGood(w: World, name: Name)
    requires FilesOk(w) && HeaderIn(w, name).Some?
    ensures GoodHeader(HeaderIn(w, name).value)
  {
    assert Sound(w.logs, w.junk, name);
  }

  lemma ForNewFileInRange(w: World, name: Name)
    requires FilesOk(w) && w.c.InRange()
    ensures ForNewFile(w, name).InRange()
  {
    if HeaderIn(w, name).Some? {
      HeaderInGood(w, name);
      NumbersInRange(HeaderIn(w, name).value);
    }
  }

  lemma HeadedOk(w: World, name: Name, now: Clock, room: nat)
    requires FilesOk(w) && w.c.InRange() && now.InRange()
    ensures Ok(Headed(w, name, now, room))
  {
    var h := NewHeader(w.c, now);
    NewHeaderAgrees(w.c, now);
    if room < FILE_HDR_SIZE {
      PartRejected(h, room);
    }
    var v := Headed(w, name, now, room);
    forall n
      ensures Sound(v.logs, v.junk, n)
    {
      assert Sound(w.logs, w.junk, n);
    }
  }

  lemma PartRejected(h: Header, room: nat)
    requires h.InRange() && room < FILE_HDR_SIZE
    ensures Rejected(Part(HeaderBytes(h), room))
  {
    HeaderRoundTrip(h, []);
  }

  lemma CreatedOk(w: World, name: Name, now: Clock, lock: Flock, room: nat)
    requires FilesOk(w) && w.c.InRange() && now.InRange()
    ensures Ok(Created(w, name, now, lock, room))
  {
    if Asked(w, lock, true).Go? {
      HeadedOk(AfterAsk(w, name, lock), name, now, room);
    } else {
      var v := Created(w, name, now, lock, room);
      forall n
        ensures Sound(v.logs, v.junk, n)
      {
        assert Sound(w.logs, w.junk, n);
      }
    }
  }

  /**
   However opening ends, the files are in order and a running collector writes in the layout of the file it has
   open.
   */
  lemma OpenedOk(w: World, name: Name, now: Clock, lock: Flock, room: nat)
    requires FilesOk(w) && w.c.InRange() && now.InRange()
    ensures Ok(Opened(w, name, now, lock, room))
  {
    ForNewFileInRange(w, name);
    match Planned(w, name)
    case Create =>
      CreatedOk(w.(c := ForNewFile(w, name)), name, now, lock, room);
    case Append =>
      AppendOk(w, name);
    case Refuse =>
  }

  lemma AppendOk(w: World, name: Name)
    requires FilesOk(w) && w.c.InRange() && HeaderIn(w, name).Some? && HeaderIn(w, name).value.proc == w.c.cpu
    ensures Ok(w.(c := Adopted(w.c, HeaderIn(w, name).value), ofile := name, running := true))
  {
    var h := HeaderIn(w, name).value;
    HeaderInGood(w, name);
    AdoptedAgreesIff(w.c, h);
    AdoptedInRange(w.c, h);
  }

  /** Bytes at the end of the output file leave its header as it is. */
  lemma HeaderAfterWrite(w: World, x: seq<U8>)
    requires FilesOk(w) && HeaderIn(w, w.ofile).Some?
    ensures var b := BytesOf(w, w.ofile) + x;
            !Rejected(b) && HeaderIn(w, w.ofile) == Some(DecodeHeader(b)) && GoodHeader(DecodeHeader(b))
  {
    HeaderInGood(w, w.ofile);
    if w.ofile in w.logs {
      BehindRecords(w.logs[w.ofile], x, BytesOf(w, w.ofile) + x);
    } else {
      HeaderStays(w.junk[w.ofile], x);
    }
  }

  lemma WithRecordOk(w: World, r: Record)
    requires Ok(w) && w.running && r.Fits(WriterLayout(w.c))
    ensures Ok(WithRecord(w, r))
  {
    RecordedSound(w, r);
    WithRecordFrame(w, r);
    OthersSound(w, WithRecord(w, r));
  }

  lemma RecordedSound(w: World, r: Record)
    requires Ok(w) && w.running && r.Fits(WriterLayout(w.c))
    ensures var v, o := WithRecord(w, r), w.ofile;
            && Sound(v.logs, v.junk, o) && HeaderIn(v, o) == HeaderIn(w, o)
            && v.logs - {o} == w.logs - {o} && v.junk - {o} == w.junk - {o}
  {
    assert Sound(w.logs, w.junk, w.ofile);
    if w.ofile in w.logs {
      LogSound(w, r);
    } else {
      JunkSound(w, r);
    }
  }

  lemma LogSound(w: World, r: Record)
    requires Ok(w) && w.running && r.Fits(WriterLayout(w.c)) && w.ofile in w.logs && w.ofile !in w.junk
    ensures var v, o := WithRecord(w, r), w.ofile;
            && Sound(v.logs, v.junk, o) && HeaderIn(v, o) == HeaderIn(w, o)
            && v.logs - {o} == w.logs - {o} && v.junk == w.junk
  {
    var v, o := WithRecord(w, r), w.ofile;
    assert Sound(w.logs, w.junk, o);
    assert v.logs[o].hdr == w.logs[o].hdr && v.logs[o].recs == w.logs[o].recs + [r];
  }

  lemma JunkSound(w: World, r: Record)
    requires Ok(w) && w.running && w.ofile !in w.logs
    ensures var v, o := WithRecord(w, r), w.ofile;
            && Sound(v.logs, v.junk, o) && HeaderIn(v, o) == HeaderIn(w, o)
            && v.logs == w.logs && v.junk - {o} == w.junk - {o}
  {
    HeaderAfterWrite(w, Encode(r));
  }

  /** Files other than the output file are as they were. */
  lemma OthersSound(w: World, v: World)
    requires FilesOk(w) && Sound(v.logs, v.junk, w.ofile) && v.logs - {w.ofile} == w.logs - {w.ofile}
    requires v.junk - {w.ofile} == w.junk - {w.ofile}
    ensures FilesOk(v)
  {
    forall n
      ensures Sound(v.logs, v.junk, n)
    {
      assert Sound(w.logs, w.junk, n);
      if n != w.ofile {
        assert n in v.logs <==> n in v.logs - {w.ofile};
        assert n in w.logs <==> n in w.logs - {w.ofile};
        assert n in v.junk <==> n in v.junk - {w.ofile};
        assert n in w.junk <==> n in w.junk - {w.ofile};
      }
    }
  }

  lemma TornOffOk(w: World, part: seq<U8>)
    requires Ok(w) && w.running
    ensures Ok(TornOff(w, part))
  {
    HeaderAfterWrite(w, part);
    var v := TornOff(w, part);
    forall n
      ensures Sound(v.logs, v.junk, n)
    {
      assert Sound(w.logs, w.junk, n);
    }
  }

  lemma PutOk(w: World, r: Record, room: nat)
    requires Ok(w) && w.running && r.Fits(WriterLayout(w.c))
    ensures Ok(Put(w, r, room))
  {
    if room >= |Encode(r)| {
      WithRecordOk(w, r);
    } else if room > 0 {
      TornOffOk(w, Encode(r)[..room]);
    }
  }

  lemma FiledOk(w: World, stats: StatsBytes, mem: Memory, lock: Flock, room: nat)
    requires Ok(w)
    ensures Ok(Filed(w, stats, mem, lock, room))
  {
    if w.running {
      var r := StatsRecord(w.c, Typed(stats, R_STATS), mem);
      PutOk(w, r, room);
      PutOk(AfterAsk(w, w.ofile, lock), r, room);
    }
  }

  lemma MarkedOk(w: World, now: Clock, lock: Flock, room: nat)
    requires Ok(w)
    ensures Ok(Marked(w, now, lock, room))
  {
    if w.running {
      var r := Record(DummyStats(now), NOTHING);
      PutOk(w, r, room);
      PutOk(AfterAsk(w, w.ofile, lock), r, room);
    }
  }

  lemma RecountedInRange(w: World, m: Machine)
    requires w.c.actflag < Pow2(32) && m.InRange()
    ensures Recounted(w, m).c.InRange()
  {
    CountedInRange(w.c, m);
  }

  /** Whether the files are in order does not depend on standard output. */
  lemma AnnouncedOk(w: World, now: Clock)
    ensures FilesOk(w) ==> FilesOk(Announced(w, now))
    ensures Ok(w) ==> Ok(Announced(w, now))
    ensures Announced(w, now).c == w.c
  {
    var v := Announced(w, now);
    assert v.logs == w.logs && v.junk == w.junk && v.c == w.c && v.running == w.running && v.ofile == w.ofile;
    if FilesOk(w) {
      forall n
        ensures Sound(v.logs, v.junk, n)
      {
        assert Sound(w.logs, w.junk, n);
      }
    }
  }

  lemma StartOk(w: World, e: Event)
    requires FilesOk(w) && e.Start? && e.InRange()
    ensures Ok(Step(w, e))
  {
    SingleBitBounds(e.actflag, PID, 32);
    var begun := Fresh(w, e.actflag, e.fOption, e.lOption, e.stdout);
    RecountedInRange(begun, e.m);
    OpenedOk(Recounted(begun, e.m), e.name, e.now, e.lock, e.room);
    var open := Opened(Recounted(begun, e.m), e.name, e.now, e.lock, e.room);
    AnnouncedOk(open, e.outNow);
    MarkedOk(Announced(open, e.outNow), e.later, e.laterLock, e.laterRoom);
  }

  lemma RotationOk(w: World, e: Event)
    requires Ok(w) && e.Rotation? && e.InRange()
    ensures Ok(Step(w, e))
  {
    FiledOk(Shown(w, e.stats, e.mem, R_LAST_STATS), e.stats, e.mem, e.lock, e.room);
    var v := Filed(Shown(w, e.stats, e.mem, R_LAST_STATS), e.stats, e.mem, e.lock, e.room);
    if v.running {
      RecountedInRange(v, e.m);
      var u := Announced(Recounted(v, e.m), e.outNow);
      OpenedOk(u, e.name, e.now, e.newLock, e.newRoom);
      FiledOk(Opened(u, e.name, e.now, e.newLock, e.newRoom), e.stats, e.newMem, e.laterLock, e.laterRoom);
    }
  }

  /** Each step keeps the files in order and the layout of the collector that of its file. */
  lemma StepOk(w: World, e: Event)
    requires Ok(w) && e.InRange()
    ensures Ok(Step(w, e))
  {
    match e
    case Start(_, _, _, _, _, _, _, _, _, _, _, _, _, _) => StartOk(w, e);
    case Sample(stats, mem, lock, room) => FiledOk(Shown(w, stats, mem, R_STATS), stats, mem, lock, room);
    case Rotation(_, _, _, _, _, _, _, _, _, _, _, _, _) => RotationOk(w, e);
  }

  ghost predicate Kept<W(!new), E(!new)>(inv: W -> bool, can: E -> bool, step: (W, E) -> W) {
    forall w, e :: inv(w) && can(e) ==> inv(step(w, e))
  }

  lemma {:induction false} FoldKeeps<W(!new), E(!new)>(inv: W -> bool, can: E -> bool, step: (W, E) -> W,
                                                       w: W, es: seq<E>)
    requires Kept(inv, can, step) && inv(w) && forall i :: 0 <= i < |es| ==> can(es[i])
    ensures inv(Fold(step, w, es))
    decreases |es|
  {
    if es != [] {
      FoldKeeps(inv, can, step, step(w, es[0]), es[1..]);
    }
  }

  /**
   Over every history, the collector's layout is that of the file it has open, and all records have the layout of
   their file.
   */
  lemma RunOk(w: World, es: seq<Event>)
    requires Ok(w) && forall i :: 0 <= i < |es| ==> es[i].InRange()
    ensures Ok(Run(w, es))
  {
    forall v: World, e: Event | Ok(v) && e.InRange()
      ensures Ok(Step(v, e))
    {
      StepOk(v, e);
    }
    FoldKeeps(v => Ok(v), (e: Event) => e.InRange(), Step, w, es);
  }

  // ---------- Nothing is lost without -F ----------

  /** Every file still begins with the bytes it had. */
  ghost predicate Grown(w: World, w': World) {
    forall n :: Longer(w, w', n)
  }

  ghost predicate Longer(w: World, w': World, n: Name) {
    BytesOf(w, n) <= BytesOf(w', n)
  }

  lemma GrownTransitive(u: World, v: World, w: World)
    requires Grown(u, v) && Grown(v, w)
    ensures Grown(u, w)
  {
    forall n
      ensures Longer(u, w, n)
    {
      assert Longer(u, v, n) && Longer(v, w, n);
    }
  }

  lemma PutGrows(w: World, r: Record, room: nat)
    requires w.ofile in w.logs ==> w.ofile !in w.junk
    ensures Grown(w, Put(w, r, room))
  {
    if room >= |Encode(r)| {
      WithRecordGrows(w, r);
    } else if room > 0 {
      TornOffGrows(w, Encode(r)[..room]);
      SameFiles(w, TornOff(w, Encode(r)[..room]), Put(w, r, room));
    } else {
      SameBytes(w, w, Put(w, r, room));
    }
  }

  lemma WithRecordGrows(w: World, r: Record)
    requires w.ofile in w.logs ==> w.ofile !in w.junk
    ensures Grown(w, WithRecord(w, r))
  {
    if w.ofile in w.logs {
      OneMoreRecord(w.logs[w.ofile], r);
    }
    forall n
      ensures Longer(w, WithRecord(w, r), n)
    {
    }
  }

  lemma TornOffGrows(w: World, part: seq<U8>)
    ensures Grown(w, TornOff(w, part))
  {
    forall n
      ensures Longer(w, TornOff(w, part), n)
    {
    }
  }

  lemma FiledGrows(w: World, stats: StatsBytes, mem: Memory, lock: Flock, room: nat)
    requires FilesOk(w)
    ensures Grown(w, Filed(w, stats, mem, lock, room)) && Filed(w, stats, mem, lock, room).fOption == w.fOption
    ensures Filed(w, stats, mem, lock, room).running ==> w.running
  {
    assert Sound(w.logs, w.junk, w.ofile);
    var r := StatsRecord(w.c, Typed(stats, R_STATS), mem);
    PutGrows(w, r, room);
    PutGrows(AfterAsk(w, w.ofile, lock), r, room);
    SameBytes(w, AfterAsk(w, w.ofile, lock), Filed(w, stats, mem, lock, room));
    SameBytes(w, w, w.(running := false));
  }

  /** Growing looks only at the files. */
  lemma SameBytes(u: World, v: World, w: World)
    requires u.logs == v.logs && u.junk == v.junk
    ensures Grown(v, w) ==> Grown(u, w)
    ensures w.logs == v.logs && w.junk == v.junk ==> Grown(u, w)
  {
    forall n
      ensures Longer(v, w, n) ==> Longer(u, w, n)
      ensures w.logs == v.logs && w.junk == v.junk ==> Longer(u, w, n)
    {
    }
    if Grown(v, w) {
      forall n
        ensures Longer(u, w, n)
      {
        assert Longer(v, w, n);
      }
    }
  }

  lemma MarkedGrows(w: World, now: Clock, lock: Flock, room: nat)
    requires FilesOk(w)
    ensures Grown(w, Marked(w, now, lock, room)) && !Marked(w, now, lock, room).running
  {
    assert Sound(w.logs, w.junk, w.ofile);
    var r := Record(DummyStats(now), NOTHING);
    PutGrows(w, r, room);
    PutGrows(AfterAsk(w, w.ofile, lock), r, room);
    SameBytes(w, AfterAsk(w, w.ofile, lock), Put(AfterAsk(w, w.ofile, lock), r, room));
    SameBytes(w, w, w);
    SameBytes(w, w, Wrote(w, r, lock, true, room));
    if w.running {
      SameFiles(w, Wrote(w, r, lock, true, room), Marked(w, now, lock, room));
    }
  }

  lemma SameFiles(u: World, v: World, w: World)
    requires v.logs == w.logs && v.junk == w.junk
    ensures Grown(u, v) ==> Grown(u, w)
  {
    if Grown(u, v) {
      forall n
        ensures Longer(u, w, n)
      {
        assert Longer(u, v, n);
      }
    }
  }

  /** Other files are not touched by opening one. */
  lemma OthersStay(w: World, name: Name, now: Clock, lock: Flock, room: nat, n: Name)
    requires n != name
    ensures BytesOf(Created(w, name, now, lock, room), n) == BytesOf(w, n)
  {
  }

  lemma OpenedGrows(w: World, name: Name, now: Clock, lock: Flock, room: nat)
    requires !w.fOption
    ensures Grown(w, Opened(w, name, now, lock, room)) && !Opened(w, name, now, lock, room).fOption
  {
    var v := Opened(w, name, now, lock, room);
    if Planned(w, name).Create? {
      assert BytesOf(w, name) == [];
      forall n
        ensures Longer(w, v, n)
      {
        if n != name {
          OthersStay(w.(c := ForNewFile(w, name)), name, now, lock, room, n);
        }
      }
    } else {
      SameBytes(w, w, v);
    }
  }

  lemma StartGrows(w: World, e: Event)
    requires Ok(w) && e.Start? && e.InRange() && !e.fOption
    ensures Grown(w, Step(w, e)) && (Step(w, e).running ==> !Step(w, e).fOption)
  {
    var begun := Recounted(Fresh(w, e.actflag, e.fOption, e.lOption, e.stdout), e.m);
    SingleBitBounds(e.actflag, PID, 32);
    RecountedInRange(Fresh(w, e.actflag, e.fOption, e.lOption, e.stdout), e.m);
    OpenedOk(begun, e.name, e.now, e.lock, e.room);
    OpenedGrows(begun, e.name, e.now, e.lock, e.room);
    var open := Announced(Opened(begun, e.name, e.now, e.lock, e.room), e.outNow);
    SameBytes(w, begun, open);
    SameFiles(begun, Opened(begun, e.name, e.now, e.lock, e.room), open);
    MarkedGrows(open, e.later, e.laterLock, e.laterRoom);
    GrownTransitive(w, open, Marked(open, e.later, e.laterLock, e.laterRoom));
  }

  lemma RotationGrows(w: World, e: Event)
    requires Ok(w) && e.Rotation? && e.InRange() && (w.running ==> !w.fOption)
    ensures Grown(w, Step(w, e)) && (Step(w, e).running ==> !Step(w, e).fOption)
  {
    var shown := Shown(w, e.stats, e.mem, R_LAST_STATS);
    FiledGrows(shown, e.stats, e.mem, e.lock, e.room);
    FiledOk(shown, e.stats, e.mem, e.lock, e.room);
    var v := Filed(shown, e.stats, e.mem, e.lock, e.room);
    SameBytes(w, shown, v);
    if v.running {
      MovedGrows(v, e);
      GrownTransitive(w, v, Step(w, e));
    }
  }

  lemma MovedGrows(v: World, e: Event)
    requires Ok(v) && e.Rotation? && e.InRange() && v.running && !v.fOption
    ensures var u := Announced(Recounted(v, e.m), e.outNow);
            var w' := Filed(Opened(u, e.name, e.now, e.newLock, e.newRoom),
                            e.stats, e.newMem, e.laterLock, e.laterRoom);
            Grown(v, w') && !w'.fOption
  {
    var u := Announced(Recounted(v, e.m), e.outNow);
    RecountedInRange(v, e.m);
    OpenedOk(u, e.name, e.now, e.newLock, e.newRoom);
    OpenedGrows(u, e.name, e.now, e.newLock, e.newRoom);
    var open := Opened(u, e.name, e.now, e.newLock, e.newRoom);
    SameBytes(v, u, open);
    FiledGrows(open, e.stats, e.newMem, e.laterLock, e.laterRoom);
    GrownTransitive(v, open, Filed(open, e.stats, e.newMem, e.laterLock, e.laterRoom));
  }

  lemma StepGrows(w: World, e: Event)
    requires Ok(w) && e.InRange() && (w.running ==> !w.fOption) && (e.Start? ==> !e.fOption)
    ensures Grown(w, Step(w, e)) && (Step(w, e).running ==> !Step(w, e).fOption)
  {
    match e
    case Start(_, _, _, _, _, _, _, _, _, _, _, _, _, _) => StartGrows(w, e);
    case Sample(stats, mem, lock, room) =>
      var shown := Shown(w, stats, mem, R_STATS);
      FiledGrows(shown, stats, mem, lock, room);
      SameBytes(w, shown, Step(w, e));
    case Rotation(_, _, _, _, _, _, _, _, _, _, _, _, _) => RotationGrows(w, e);
  }

  /**
   In no history without option -F does a file lose or change a byte, whatever the locks, the machine and the
   disk do.
   */
  lemma NothingLost(w: World, es: seq<Event>)
    requires Ok(w) && (w.running ==> !w.fOption)
    requires forall i :: 0 <= i < |es| ==> es[i].InRange() && (es[i].Start? ==> !es[i].fOption)
    ensures Grown(w, Run(w, es))
  {
    assert Grown(w, w) by {
      SameBytes(w, w, w);
    }
    forall v: World, e: Event | Ok(v) && Grown(w, v) && (v.running ==> !v.fOption) && e.InRange()
        && (e.Start? ==> !e.fOption)
      ensures Ok(Step(v, e)) && Grown(w, Step(v, e)) && (Step(v, e).running ==> !Step(v, e).fOption)
    {
      StepOk(v, e);
      StepGrows(v, e);
      GrownTransitive(w, v, Step(v, e));
    }
    FoldKeeps(v => Ok(v) && Grown(w, v) && (v.running ==> !v.fOption),
              (e: Event) => e.InRange() && (e.Start? ==> !e.fOption), Step, w, es);
  }

  /** So the readers still get every record of every file, in order, before anything else. */
  lemma NoRecordLost(w: World, es: seq<Event>, n: Name)
    requires Ok(w) && (w.running ==> !w.fOption) && n in w.logs
    requires forall i :: 0 <= i < |es| ==> es[i].InRange() && (es[i].Start? ==> !es[i].fOption)
    ensures var file, k := BytesOf(Run(w, es), n), w.logs[n];
            && !Rejected(file) && DecodeHeader(file) == k.hdr
            && k.recs <= Delivered(HeaderLayout(k.hdr), file, FILE_HDR_SIZE)
  {
    NothingLost(w, es);
    assert Longer(w, Run(w, es), n);
    assert Sound(w.logs, w.junk, n);
    var file, b := BytesOf(Run(w, es), n), FileBytes(w.logs[n]);
    assert file == b + file[|b|..];
    WrittenIsDelivered(w.logs[n], file[|b|..]);
  }

  // ---------- Standard output ----------

  /**
   The numbers of the collector go with a file it is going to open: what opening changes makes no difference to
   its layout.
   */
  predicate StdoutFits(c: Counts, h: Option<Header>) {
    h.Some? ==>
      && (Bit(h.value.actflag, ONE_IRQ) <==> Bit(c.actflag, ONE_IRQ))
      && if h.value.proc == c.cpu then
           && h.value.serial == c.serial && h.value.irqcpu == c.irqcpu && h.value.iface == c.iface
           && h.value.nrDisk == if Bit(c.actflag, DISK) then c.disk else 0
         else c.disk == 0 || (Bit(h.value.actflag, DISK) <==> Bit(c.actflag, DISK))
  }

  lemma SameProduct(k: nat, a: nat, b: nat)
    requires k > 0 && k * a == k * b
    ensures a == b
  {
  }

  lemma AdoptedSameIff(c: Counts, h: Header)
    requires c.cpu == h.proc && DiskFlagged(h)
    ensures WriterLayout(Adopted(c, h)) == WriterLayout(c) <==> StdoutFits(c, Some(h))
  {
    AdoptedAgreesIff(c, h);
    if HeaderLayout(h) == WriterLayout(c) {
      SameProduct(STATS_IRQ_CPU_SIZE * (c.cpu + 1), h.irqcpu, c.irqcpu);
    }
  }

  lemma FlagSameIff(c: Counts, h: Header)
    requires c.cpu != h.proc
    ensures WriterLayout(c.(actflag := h.actflag)) == WriterLayout(c) <==> StdoutFits(c, Some(h))
  {
  }

  /** The numbers of a collector after it has opened a file. */
  lemma OpenedCounts(w: World, name: Name, now: Clock, lock: Flock, room: nat)
    requires Opened(w, name, now, lock, room).running
    ensures var h := HeaderIn(w, name);
            Opened(w, name, now, lock, room).c
            == if h.None? then w.c
               else if h.value.proc == w.c.cpu then Adopted(w.c, h.value)
               else w.c.(actflag := h.value.actflag)
  {
    OpenedAsCounts(w, name, now, lock, room, HeaderIn(w, name), Planned(w, name));
  }

  lemma OpenedAsCounts(w: World, name: Name, now: Clock, lock: Flock, room: nat, h: Option<Header>, p: Plan)
    requires OpenedAs(w, name, now, lock, room, h, p).running
    ensures !p.Refuse?
    ensures OpenedAs(w, name, now, lock, room, h, p).c
            == if p.Create? || h.None? then Flagged(w.c, h) else Adopted(w.c, h.value)
  {
  }

  /**
   On rotation the header on standard output is written before the new file is opened.  Whatever
   opening comes to, as long as the collector goes on, what follows on standard output has the
   layout of that header exactly if the numbers counted go with what the file had in its header.
   */
  lemma StdoutAgreesIff(w: World, name: Name, now: Clock, lock: Flock, room: nat, outNow: Clock)
    requires FilesOk(w) && Opened(w, name, now, lock, room).running
    ensures WriterLayout(Opened(w, name, now, lock, room).c) == HeaderLayout(NewHeader(w.c, outNow))
            <==> StdoutFits(w.c, HeaderIn(w, name))
  {
    var h := HeaderIn(w, name);
    OpenedCounts(w, name, now, lock, room);
    assert HeaderLayout(NewHeader(w.c, outNow)) == WriterLayout(w.c);
    if h.Some? {
      HeaderInGood(w, name);
      if h.value.proc == w.c.cpu {
        AdoptedSameIff(w.c, h.value);
      } else {
        FlagSameIff(w.c, h.value);
      }
    }
  }

  function LastHead(items: seq<Item>): (h: Option<Header>) {
    var n := |items| - 1;
    if n < 0 then None else if items[n].Head? then Some(items[n].h) else LastHead(items[..n])
  }

  /** Every bunch on standard output has the layout of the last header before it. */
  predicate StreamOk(items: seq<Item>) {
    var n := |items| - 1;
    n >= 0 ==>
      && StreamOk(items[..n])
      && (items[n].Bunch? ==> LastHead(items[..n]).Some? && items[n].r.Fits(HeaderLayout(LastHead(items[..n]).value)))
  }

  /** A collector that writes to standard output writes in the layout of the last header there. */
  predicate InStep(w: World) {
    w.running && w.stdout ==> LastHead(w.stream).Some? && WriterLayout(w.c) == HeaderLayout(LastHead(w.stream).value)
  }

  lemma OneMoreItem(items: seq<Item>, i: Item)
    ensures (items + [i])[..|items|] == items
    ensures LastHead(items + [i]) == if i.Head? then Some(i.h) else LastHead(items)
    ensures StreamOk(items + [i])
            <==> StreamOk(items)
                 && (i.Bunch? ==> LastHead(items).Some? && i.r.Fits(HeaderLayout(LastHead(items).value)))
  {
  }

  /** A bunch fits exactly if the collector is in step. */
  lemma ShownIff(w: World, stats: StatsBytes, mem: Memory, mark: U8)
    requires mark != R_DUMMY && StreamOk(w.stream)
    ensures StreamOk(Shown(w, stats, mem, mark).stream) <==> InStep(w)
    ensures InStep(Shown(w, stats, mem, mark)) <==> InStep(w)
  {
    var r := StatsRecord(w.c, Typed(stats, mark), mem);
    OneMoreItem(w.stream, Bunch(r));
    assert forall l: Layout :: r.Fits(l) <==> l == WriterLayout(w.c);
  }

  lemma AnnouncedInStep(w: World, now: Clock)
    requires StreamOk(w.stream)
    ensures StreamOk(Announced(w, now).stream)
    ensures w.running && w.stdout ==> LastHead(Announced(w, now).stream) == Some(NewHeader(w.c, now))
    ensures InStep(Announced(w, now))
  {
    OneMoreItem(w.stream, Head(NewHeader(w.c, now)));
  }

  /** Everything but the files and the lock. */
  predicate SameElse(w: World, v: World) {
    v.stream == w.stream && v.stdout == w.stdout && v.c == w.c && v.lOption == w.lOption && v.ofile == w.ofile
    && (v.running ==> w.running)
  }

  /** Writing changes the files, and perhaps ends the program, but nothing else. */
  lemma PutFrame(w: World, r: Record, room: nat)
    ensures var v := Put(w, r, room);
            v == w.(logs := v.logs, junk := v.junk, running := v.running) && (v.running ==> w.running)
  {
    WithRecordFrame(w, r);
  }

  lemma WithRecordFrame(w: World, r: Record)
    ensures WithRecord(w, r) == w.(logs := WithRecord(w, r).logs, junk := WithRecord(w, r).junk)
  {
  }

  /** What is written to the file, and opening one, do not change what is on standard output. */
  lemma FiledSame(w: World, stats: StatsBytes, mem: Memory, lock: Flock, room: nat)
    ensures SameElse(w, Filed(w, stats, mem, lock, room))
  {
    var r := StatsRecord(w.c, Typed(stats, R_STATS), mem);
    PutFrame(w, r, room);
    PutFrame(AfterAsk(w, w.ofile, lock), r, room);
  }

  lemma HeadedSame(w: World, name: Name, now: Clock, room: nat)
    ensures var v := Headed(w, name, now, room);
            v.stream == w.stream && v.stdout == w.stdout && v.lOption == w.lOption && v.ofile == name
  {
  }

  lemma OpenedSame(w: World, name: Name, now: Clock, lock: Flock, room: nat)
    ensures var v := Opened(w, name, now, lock, room);
            v.stream == w.stream && v.stdout == w.stdout && v.lOption == w.lOption && v.ofile == name
  {
    OpenedAsSame(w, name, now, lock, room, HeaderIn(w, name), Planned(w, name));
  }

  lemma OpenedAsSame(w: World, name: Name, now: Clock, lock: Flock, room: nat, h: Option<Header>, p: Plan)
    ensures var v := OpenedAs(w, name, now, lock, room, h, p);
            v.stream == w.stream && v.stdout == w.stdout && v.lOption == w.lOption && v.ofile == name
  {
    HeadedSame(AfterAsk(w.(c := Flagged(w.c, h)), name, lock), name, now, room);
  }

  /** The state in which a rotation opens the new file, if it comes to that. */
  function AtRotation(w: World, e: Event): (u: World)
    requires e.Rotation?
  {
    Announced(Recounted(Filed(Shown(w, e.stats, e.mem, R_LAST_STATS), e.stats, e.mem, e.lock, e.room), e.m), e.outNow)
  }

  /**
   A stream in order stays so with every step of a collector that is in step with it.  Starting and
   sampling keep in step; a rotation does exactly if the numbers counted go with the new file.
   */
  lemma StreamStep(w: World, e: Event)
    requires Ok(w) && e.InRange() && StreamOk(w.stream) && InStep(w)
    ensures StreamOk(Step(w, e).stream)
    ensures !e.Rotation? ==> InStep(Step(w, e))
    ensures e.Rotation? && Step(w, e).running && w.stdout ==>
              var u := AtRotation(w, e);
              InStep(Step(w, e)) <==> StdoutFits(u.c, HeaderIn(u, e.name))
  {
    match e
    case Start(_, _, _, _, _, _, _, _, _, _, _, _, _, _) => StartStream(w, e);
    case Sample(stats, mem, lock, room) =>
      ShownIff(w, stats, mem, R_STATS);
      FiledSame(Shown(w, stats, mem, R_STATS), stats, mem, lock, room);
    case Rotation(_, _, _, _, _, _, _, _, _, _, _, _, _) => RotationStream(w, e);
  }

  lemma StartStream(w: World, e: Event)
    requires e.Start?
    ensures StreamOk(Step(w, e).stream) && InStep(Step(w, e))
  {
    var begun := Recounted(Fresh(w, e.actflag, e.fOption, e.lOption, e.stdout), e.m);
    OpenedSame(begun, e.name, e.now, e.lock, e.room);
    var open := Opened(begun, e.name, e.now, e.lock, e.room);
    AnnouncedInStep(open, e.outNow);
    MarkedStream(Announced(open, e.outNow), e.later, e.laterLock, e.laterRoom);
  }

  lemma MarkedStream(w: World, now: Clock, lock: Flock, room: nat)
    ensures Marked(w, now, lock, room).stream == w.stream && !Marked(w, now, lock, room).running
  {
    PutFrame(w, Record(DummyStats(now), NOTHING), room);
    PutFrame(AfterAsk(w, w.ofile, lock), Record(DummyStats(now), NOTHING), room);
  }

  lemma RotationStream(w: World, e: Event)
    requires Ok(w) && e.Rotation? && e.InRange() && StreamOk(w.stream) && InStep(w)
    ensures StreamOk(Step(w, e).stream)
    ensures Step(w, e).running && w.stdout ==>
              var u := AtRotation(w, e);
              InStep(Step(w, e)) <==> StdoutFits(u.c, HeaderIn(u, e.name))
  {
    var shown := Shown(w, e.stats, e.mem, R_LAST_STATS);
    ShownIff(w, e.stats, e.mem, R_LAST_STATS);
    FiledSame(shown, e.stats, e.mem, e.lock, e.room);
    FiledOk(shown, e.stats, e.mem, e.lock, e.room);
    var v := Filed(shown, e.stats, e.mem, e.lock, e.room);
    if v.running {
      var u := AtRotation(w, e);
      AnnouncedInStep(Recounted(v, e.m), e.outNow);
      OpenedSame(u, e.name, e.now, e.newLock, e.newRoom);
      var open := Opened(u, e.name, e.now, e.newLock, e.newRoom);
      FiledSame(open, e.stats, e.newMem, e.laterLock, e.laterRoom);
      if open.running {
        StdoutAgreesIff(u, e.name, e.now, e.newLock, e.newRoom, e.outNow);
      }
    }
  }

  /** A collector out of step breaks the stream with its next sample. */
  lemma OutOfStepBreaks(w: World, e: Event)
    requires StreamOk(w.stream) && !InStep(w) && (e.Sample? || e.Rotation?)
    ensures !StreamOk(Step(w, e).stream)
  {
    ShownIff(w, e.stats, e.mem, if e.Sample? then R_STATS else R_LAST_STATS);
    RestKeepsBroken(w, e);
  }

  /** A broken stream stays broken until another program starts. */
  lemma BrokenStays(w: World, e: Event)
    requires !StreamOk(w.stream) && (e.Sample? || e.Rotation?)
    ensures !StreamOk(Step(w, e).stream)
  {
    var mark := if e.Sample? then R_STATS else R_LAST_STATS;
    OneMoreItem(w.stream, Bunch(StatsRecord(w.c, Typed(e.stats, mark), e.mem)));
    RestKeepsBroken(w, e);
  }

  /** What a step does after the first bunch does not mend a stream. */
  lemma RestKeepsBroken(w: World, e: Event)
    requires e.Sample? || e.Rotation?
    requires !StreamOk(Shown(w, e.stats, e.mem, if e.Sample? then R_STATS else R_LAST_STATS).stream)
    ensures !StreamOk(Step(w, e).stream)
  {
    if e.Sample? {
      FiledSame(Shown(w, e.stats, e.mem, R_STATS), e.stats, e.mem, e.lock, e.room);
    } else {
      var shown := Shown(w, e.stats, e.mem, R_LAST_STATS);
      FiledSame(shown, e.stats, e.mem, e.lock, e.room);
      var v := Filed(shown, e.stats, e.mem, e.lock, e.room);
      if v.running {
        var u := AtRotation(w, e);
        OneMoreItem(shown.stream, Head(NewHeader(Recounted(v, e.m).c, e.outNow)));
        OpenedSame(u, e.name, e.now, e.newLock, e.newRoom);
        FiledSame(Opened(u, e.name, e.now, e.newLock, e.newRoom), e.stats, e.newMem, e.laterLock, e.laterRoom);
      }
    }
  }

  // ---------- The lock ----------

  /** A collector with -L that believes to hold the lock does hold it, on its output file. */
  predicate Guarded(w: World) {
    w.running && w.lOption && w.locked ==> w.held == Some(w.ofile)
  }

  /** The state in which a write to the output file is made, if it is made. */
  function AtWrite(w: World, lock: Flock, fatal: bool): (u: Option<World>) {
    if w.locked then Some(w) else if Asked(w, lock, fatal).Go? then Some(AfterAsk(w, w.ofile, lock)) else None
  }

  /** With -L, a write goes to a file that is held exactly if the collector is guarded. */
  lemma WriteHeldIff(w: World, r: Record, lock: Flock, fatal: bool, room: nat)
    requires w.running && w.lOption
    ensures AtWrite(w, lock, fatal).None? ==> Wrote(w, r, lock, fatal, room) in {w, w.(running := false)}
    ensures AtWrite(w, lock, fatal).Some? ==>
              var u := AtWrite(w, lock, fatal).value;
              && Wrote(w, r, lock, fatal, room) == Put(u, r, room)
              && (u.held == Some(u.ofile) <==> Guarded(w))
  {
  }

  lemma FiledGuarded(w: World, stats: StatsBytes, mem: Memory, lock: Flock, room: nat)
    ensures var v := Filed(w, stats, mem, lock, room);
            v.running ==> (Guarded(v) <==> Guarded(w)) && (w.locked ==> v.locked)
  {
    var r := StatsRecord(w.c, Typed(stats, R_STATS), mem);
    PutFrame(w, r, room);
    PutFrame(AfterAsk(w, w.ofile, lock), r, room);
  }

  lemma OpenedGuarded(w: World, name: Name, now: Clock, lock: Flock, room: nat)
    requires w.held == None
    ensures var v := Opened(w, name, now, lock, room);
            v.running ==> (Guarded(v) <==> !(w.lOption && w.locked && Planned(w, name).Append?))
  {
    OpenedAsGuarded(w, name, now, lock, room, HeaderIn(w, name), Planned(w, name));
  }

  lemma OpenedAsGuarded(w: World, name: Name, now: Clock, lock: Flock, room: nat, h: Option<Header>, p: Plan)
    requires w.held == None
    ensures var v := OpenedAs(w, name, now, lock, room, h, p);
            v.running ==> (Guarded(v) <==> !(w.lOption && w.locked && p.Append?))
  {
  }

  /**
   A collector with -L is guarded from its start on and by every sample.  After a rotation it is,
   unless it believed to hold the lock and the new file is appended to: the lock it believes in went
   with the old file.
   */
  lemma GuardedStep(w: World, e: Event)
    requires Step(w, e).running
    ensures e.Start? ==> Guarded(Step(w, e))
    ensures e.Sample? ==> (Guarded(Step(w, e)) <==> Guarded(w))
    ensures e.Rotation? ==>
              var u := AtRotation(w, e);
              Guarded(Step(w, e)) <==> !(u.lOption && u.locked && Planned(u, e.name).Append?)
  {
    match e
    case Start(actflag, f, l, stdout, m, name, now, lock, room, outNow, markOnly, later, laterLock, laterRoom) =>
      OpenedGuarded(Recounted(Fresh(w, actflag, f, l, stdout), m), name, now, lock, room);
    case Sample(stats, mem, lock, room) =>
      FiledGuarded(Shown(w, stats, mem, R_STATS), stats, mem, lock, room);
    case Rotation(stats, mem, lock, room, m, outNow, name, now, newLock, newRoom, newMem, laterLock, laterRoom) =>
      var u := AtRotation(w, e);
      OpenedGuarded(u, name, now, newLock, newRoom);
      FiledGuarded(Opened(u, name, now, newLock, newRoom), stats, newMem, laterLock, laterRoom);
  }

  /** A collector that holds the lock on one file and rotates to another of its kind writes there without a lock. */
  lemma LockLost(w: World, e: Event, stats: StatsBytes, mem: Memory, lock: Flock, room: nat)
    requires e.Rotation? && w.running && w.lOption && w.locked && w.held == Some(w.ofile)
    requires Step(w, e).running && Planned(AtRotation(w, e), e.name).Append?
    ensures var v := Step(w, e);
            && AtWrite(v, lock, false) == Some(v) && v.held != Some(v.ofile)
            && Step(v, Sample(stats, mem, lock, room))
               == Put(Shown(v, stats, mem, R_STATS), StatsRecord(v.c, Typed(stats, R_STATS), mem), room)
  {
    GuardedStep(w, e);
    FiledGuarded(Shown(w, e.stats, e.mem, R_LAST_STATS), e.stats, e.mem, e.lock, e.room);
  }
}
