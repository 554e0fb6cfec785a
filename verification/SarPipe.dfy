/**
 sar at the other end of a pipe from sadc: it reads a header, then bunches of statistics, and another
 header after each bunch that is marked as the last one before a rotation.
 */
module SarPipe {
  import opened Common
  import opened Bits
  import opened SaFile
  import opened SadcModel
  import opened SadcHistory

  // ---------- What is read ----------

  /** The header at the beginning of some bytes, if it has the magic number; its records are of the usual size. */
  function HeaderAt(b: seq<U8>): (h: Option<Header>) {
    if |b| < FILE_HDR_SIZE || DecodeHeader(b).magic != SA_MAGIC || DecodeHeader(b).stSize != FILE_STATS_SIZE then None
    else Some(DecodeHeader(b))
  }

  /** The bunch at the beginning of some bytes; its type does not matter for what it consists of. */
  function BunchAt(l: Layout, b: seq<U8>): (r: Option<Record>) {
    if FILE_STATS_SIZE + l.Size() > |b| then None else Some(Record(b[..FILE_STATS_SIZE], Cut(l, b, FILE_STATS_SIZE)))
  }

  function BunchSize(l: Layout): (n: nat)
    ensures n >= FILE_STATS_SIZE
  {
    FILE_STATS_SIZE + l.Size()
  }

  predicate LastOne(r: Record) {
    |r.stats| > RECORD_TYPE && r.stats[RECORD_TYPE] == R_LAST_STATS
  }

  function Less(count: int): (left: int) {
    if count > 0 then count - 1 else count
  }

  /** Reading from a header on. */
  function FromHeader(b: seq<U8>, count: int, first: bool): (items: seq<Item>)
    decreases |b|
  {
    var h := HeaderAt(b);
    if h.None? then [] else [Head(h.value)] + FromBunch(h.value, b[FILE_HDR_SIZE..], count, first)
  }

  /** Reading from a bunch on.  The first bunch is not counted, and nobody looks at its mark. */
  function FromBunch(h: Header, b: seq<U8>, count: int, first: bool): (items: seq<Item>)
    decreases |b|
  {
    var r, l := BunchAt(HeaderLayout(h), b), HeaderLayout(h);
    if r.None? then []
    else
      var rest := b[BunchSize(l)..];
      [Bunch(r.value)]
      + if first then FromBunch(h, rest, count, false)
        else if LastOne(r.value) then
          if Less(count) != 0 then FromHeader(rest, Less(count), false)
          else if HeaderAt(rest).Some? then [Head(HeaderAt(rest).value)] else []
        else if Less(count) != 0 then FromBunch(h, rest, Less(count), false)
        else []
  }

  /** What sar gets from a pipe; a negative count is none. */
  function Received(b: seq<U8>, count: int): (items: seq<Item>) {
    FromHeader(b, count, true)
  }

  // ---------- The program ----------

  /** A cleared header. */
  const NO_HEADER := Header(0, 0, 0, 0, 0, 0, 0, 0, 0, 0, 0, 0, 0, [])

  class Pipe {
    const input: seq<U8>
    var pos: nat
    var hdr: Header

    constructor (input: seq<U8>)
      ensures this.input == input && pos == 0
    {
      this.input, pos, hdr := input, 0, NO_HEADER;
    }

    ghost predicate Valid()
      reads this
    {
      pos <= |input|
    }

    /** One call of the system: as many bytes as there happen to be, none at the end. */
    method Read(size: nat) returns (data: seq<U8>)
      requires Valid() && size > 0
      modifies this`pos
      ensures Valid() && pos == old(pos) + |data| && data == input[old(pos)..pos] && |data| <= size
      ensures data == [] ==> pos == |input|
    {
      var n: nat :| n <= size && n <= |input| - pos && (n == 0 ==> pos == |input|);
      data := input[pos..pos + n];
      pos := pos + n;
    }

    /** Reads all of the bytes asked for, unless the input ends before. */
    method SaRead(size: nat) returns (eof: bool, data: seq<U8>)
      requires Valid()
      modifies this`pos
      ensures Valid() && pos >= old(pos) && eof == (old(pos) + size > |input|)
      ensures !eof ==> pos == old(pos) + size && data == input[old(pos)..pos]
    {
      ghost var start := pos;
      var left := size;
      data := [];
      while left > 0
        invariant Valid() && 0 <= left && start <= pos && pos + left == start + size && data == input[start..pos]
      {
        var more := Read(left);
        if more == [] {
          return true, data;
        }
        left := left - |more|;
        data := data + more;
      }
      eof := false;
    }

    method ReadHeaderData() returns (ok: bool)
      requires Valid()
      modifies this`pos, this`hdr
      ensures Valid() && pos >= old(pos) && ok == HeaderAt(input[old(pos)..]).Some?
      ensures ok ==> pos == old(pos) + FILE_HDR_SIZE && HeaderAt(input[old(pos)..]) == Some(hdr)
    {
      ghost var b := input[pos..];
      var eof, data := SaRead(FILE_HDR_SIZE);
      if eof {
        return false;
      }
      assert b == data + input[pos..];
      HeaderStays(data, input[pos..]);
      hdr := DecodeHeader(data);
      ok := hdr.magic == SA_MAGIC && hdr.stSize == FILE_STATS_SIZE;
    }

    /** A section, if there is anything in it. */
    method ReadSection(size: nat) returns (eof: bool, data: seq<U8>)
      requires Valid()
      modifies this`pos
      ensures Valid() && pos >= old(pos) && eof == (old(pos) + size > |input|)
      ensures !eof ==> pos == old(pos) + size && data == input[old(pos)..pos]
    {
      eof, data := false, [];
      if size > 0 {
        eof, data := SaRead(size);
      }
    }

    method ReadStatBunch() returns (r: Option<Record>)
      requires Valid()
      modifies this`pos
      ensures Valid() && r == BunchAt(HeaderLayout(hdr), input[old(pos)..])
      ensures r.Some? ==> pos == old(pos) + BunchSize(HeaderLayout(hdr))
    {
      ghost var start := pos;
      ghost var b := input[pos..];
      var l := HeaderLayout(hdr);
      var eof, stats := SaRead(FILE_STATS_SIZE);
      if eof {
        return None;
      }
      ghost var p := pos;
      var more;
      eof, more := ReadSections(l);
      if eof {
        return None;
      }
      CutAhead(l, input, start);
      r := Some(Record(stats, more));
    }

    /** The sections of a bunch, in the order of the source. */
    method ReadSections(l: Layout) returns (eof: bool, more: Sections)
      requires Valid()
      modifies this`pos
      ensures Valid() && pos >= old(pos) && eof == (old(pos) + l.Size() > |input|)
      ensures !eof ==> pos == old(pos) + l.Size() && more == Cut(l, input, old(pos))
    {
      ghost var start := pos;
      more := NOTHING;
      var cpu, irq, serial, irqcpu, iface, disk;
      eof, cpu, irq, serial := ReadThree(l.cpu, l.irq, l.serial);
      if !eof {
        eof, irqcpu, iface, disk := ReadThree(l.irqcpu, l.iface, l.disk);
        more := Sections(cpu, irq, serial, irqcpu, iface, disk);
        if !eof {
          CutInTwo(l, input, start, more);
        }
      }
    }

    method ReadThree(k: nat, m: nat, n: nat) returns (eof: bool, x: seq<U8>, y: seq<U8>, z: seq<U8>)
      requires Valid()
      modifies this`pos
      ensures Valid() && pos >= old(pos) && eof == (old(pos) + k + m + n > |input|)
      ensures !eof ==> pos == old(pos) + k + m + n && Three(input, old(pos), k, m, n, x, y, z)
    {
      ghost var start := pos;
      y, z := [], [];
      eof, x := ReadSection(k);
      if eof {
        return;
      }
      eof, y := ReadSection(m);
      if eof {
        return;
      }
      eof, z := ReadSection(n);
      if !eof {
        assert ThreeAt(input, start, k, m, n, x, y, z);
      }
    }

    /** Reads and displays until the count is used up or the input ends. */
    method ReadStats(count: int) returns (items: seq<Item>)
      requires Valid() && pos == 0 && count != 0
      modifies this
      ensures items == Received(input, count)
    {
      ghost var all := Received(input, count);
      var cnt, more := count, true;
      more, items := Begin(count);
      while more && cnt != 0
        invariant Valid() && if more then Goes(all, items, hdr, input[pos..], cnt) else items == all
        decreases more, |input| - pos
      {
        more, cnt, items := Next(all, items, cnt);
      }
      assert more ==> GoesNow(all, items, hdr, input[pos..], cnt);
    }

    /** The first header, and the first bunch, which is only compared with. */
    method Begin(ghost count: int) returns (more: bool, items: seq<Item>)
      requires Valid() && pos == 0 && count != 0
      modifies this
      ensures Valid()
      ensures if more then Goes(Received(input, count), items, hdr, input[pos..], count)
              else items == Received(input, count)
    {
      assert input[0..] == input;
      var ok := ReadHeaderData();
      if !ok {
        return false, [];
      }
      ghost var b := input[pos..];
      assert Received(input, count) == [Head(hdr)] + FromBunch(hdr, b, count, true);
      var r := ReadStatBunch();
      if r.None? {
        return false, [Head(hdr)];
      }
      FirstBunch(hdr, b, count);
      Behind(input, FILE_HDR_SIZE, BunchSize(HeaderLayout(hdr)));
      more, items := true, [Head(hdr), Bunch(r.value)];
    }

    /** The next bunch, and a header if the bunch is marked. */
    method Next(ghost all: seq<Item>, before: seq<Item>, count: int) returns (more: bool, cnt: int, items: seq<Item>)
      requires Valid() && count != 0 && Goes(all, before, hdr, input[pos..], count)
      modifies this
      ensures Valid() && (more ==> pos > old(pos))
      ensures if more then Goes(all, items, hdr, input[pos..], cnt) else items == all
    {
      ghost var b, h := input[pos..], hdr;
      ghost var start := pos;
      more, cnt, items := true, Less(count), before;
      var r := ReadStatBunch();
      OneBunch(all, before, h, b, count);
      if r.None? {
        return false, cnt, items;
      }
      items := items + [Bunch(r.value)];
      Behind(input, start, BunchSize(HeaderLayout(h)));
      if LastOne(r.value) {
        more, items := NextHeader(all, items, cnt);
      }
    }

    /** The header after a marked bunch; the program ends if there is none. */
    method NextHeader(ghost all: seq<Item>, before: seq<Item>, ghost cnt: int) returns (more: bool, items: seq<Item>)
      requires Valid()
      requires HeaderNext(all, before, input[pos..], cnt)
      modifies this
      ensures Valid() && pos >= old(pos)
      ensures if more then Goes(all, items, hdr, input[pos..], cnt) else items == all
    {
      ghost var start := pos;
      more := ReadHeaderData();
      items := before;
      if more {
        Behind(input, start, FILE_HDR_SIZE);
        items := items + [Head(hdr)];
      }
    }
  }

  /** What is still to come. */
  ghost predicate GoesNow(all: seq<Item>, items: seq<Item>, h: Header, b: seq<U8>, count: int) {
    all == items + if count == 0 then [] else FromBunch(h, b, count, false)
  }

  /** The same, in a form that keeps its contents out of the proofs that only pass it on. */
  ghost predicate Goes(all: seq<Item>, items: seq<Item>, h: Header, b: seq<U8>, count: int) {
    forall c :: c == count ==> GoesNow(all, items, h, b, c)
  }

  lemma FirstBunch(h: Header, b: seq<U8>, count: int)
    requires BunchAt(HeaderLayout(h), b).Some? && count != 0
    ensures Goes([Head(h)] + FromBunch(h, b, count, true), [Head(h), Bunch(BunchAt(HeaderLayout(h), b).value)],
                 h, b[BunchSize(HeaderLayout(h))..], count)
  {
    var r, rest := BunchAt(HeaderLayout(h), b).value, b[BunchSize(HeaderLayout(h))..];
    OneStep(h, b, r, rest, count, true);
    Joins([Head(h)], Bunch(r), FromBunch(h, rest, count, false));
    assert [Head(h)] + [Bunch(r)] == [Head(h), Bunch(r)];
  }

  /** What there is behind a bunch. */
  function After(h: Header, r: Record, rest: seq<U8>, count: int, first: bool): (items: seq<Item>) {
    if first then FromBunch(h, rest, count, false)
    else if LastOne(r) then
      if Less(count) != 0 then FromHeader(rest, Less(count), false)
      else if HeaderAt(rest).Some? then [Head(HeaderAt(rest).value)] else []
    else if Less(count) != 0 then FromBunch(h, rest, Less(count), false)
    else []
  }

  lemma OneStep(h: Header, b: seq<U8>, r: Record, rest: seq<U8>, count: int, first: bool)
    requires BunchAt(HeaderLayout(h), b) == Some(r) && b[BunchSize(HeaderLayout(h))..] == rest
    ensures FromBunch(h, b, count, first) == [Bunch(r)] + After(h, r, rest, count, first)
  {
  }

  lemma HeaderStep(b: seq<U8>, count: int)
    ensures FromHeader(b, count, false)
            == if HeaderAt(b).None? then []
               else [Head(HeaderAt(b).value)] + FromBunch(HeaderAt(b).value, b[FILE_HDR_SIZE..], count, false)
  {
  }

  lemma Joins<T>(a: seq<T>, x: T, b: seq<T>)
    ensures a + ([x] + b) == (a + [x]) + b
  {
  }

  lemma OneBunch(all: seq<Item>, items: seq<Item>, h: Header, b: seq<U8>, count: int)
    requires count != 0 && Goes(all, items, h, b, count)
    ensures var r := BunchAt(HeaderLayout(h), b);
            if r.None? then all == items
            else
              var more, rest := items + [Bunch(r.value)], b[BunchSize(HeaderLayout(h))..];
              if LastOne(r.value) then HeaderNext(all, more, rest, Less(count))
              else Goes(all, more, h, rest, Less(count))
  {
    var r := BunchAt(HeaderLayout(h), b);
    assert GoesNow(all, items, h, b, count);
    if r.Some? {
      var rest := b[BunchSize(HeaderLayout(h))..];
      var after := After(h, r.value, rest, count, false);
      OneStep(h, b, r.value, rest, count, false);
      Joins(items, Bunch(r.value), after);
      if LastOne(r.value) {
        AfterMarked(all, items + [Bunch(r.value)], rest, Less(count), after);
      }
    }
  }

  /** A header is to be read next, and the program ends if there is none. */
  ghost predicate HeaderNext(all: seq<Item>, items: seq<Item>, b: seq<U8>, count: int) {
    var h := HeaderAt(b);
    if h.None? then all == items else Goes(all, items + [Head(h.value)], h.value, b[FILE_HDR_SIZE..], count)
  }

  lemma AfterMarked(all: seq<Item>, items: seq<Item>, b: seq<U8>, count: int, after: seq<Item>)
    requires all == items + after
    requires after == if count != 0 then FromHeader(b, count, false)
                      else if HeaderAt(b).Some? then [Head(HeaderAt(b).value)] else []
    ensures HeaderNext(all, items, b, count)
  {
    HeaderStep(b, count);
    if HeaderAt(b).Some? && count != 0 {
      var h := HeaderAt(b).value;
      Joins(items, Head(h), FromBunch(h, b[FILE_HDR_SIZE..], count, false));
    }
  }

  lemma Behind(b: seq<U8>, p: nat, n: nat)
    requires p + n <= |b|
    ensures b[p..][n..] == b[p + n..]
  {
  }

  /** Three sections, one after the other, from position p on. */
  ghost predicate ThreeAt(b: seq<U8>, p: nat, k: nat, m: nat, n: nat, x: seq<U8>, y: seq<U8>, z: seq<U8>) {
    p + k + m + n <= |b| && x == b[p..p + k] && y == b[p + k..p + k + m] && z == b[p + k + m..p + k + m + n]
  }

  /** The same, in a form that keeps its contents out of the proofs that only pass it on. */
  ghost predicate Three(b: seq<U8>, p: nat, k: nat, m: nat, n: nat, x: seq<U8>, y: seq<U8>, z: seq<U8>) {
    forall q: nat :: q == p ==> ThreeAt(b, q, k, m, n, x, y, z)
  }

  lemma CutInTwo(l: Layout, b: seq<U8>, p: nat, m: Sections)
    requires p + l.Size() <= |b|
    requires Three(b, p, l.cpu, l.irq, l.serial, m.cpu, m.irq, m.serial)
    requires Three(b, p + l.cpu + l.irq + l.serial, l.irqcpu, l.iface, l.disk, m.irqcpu, m.iface, m.disk)
    ensures m == Cut(l, b, p)
  {
    assert ThreeAt(b, p, l.cpu, l.irq, l.serial, m.cpu, m.irq, m.serial);
    assert ThreeAt(b, p + l.cpu + l.irq + l.serial, l.irqcpu, l.iface, l.disk, m.irqcpu, m.iface, m.disk);
  }

  lemma Slice(b: seq<U8>, p: nat, i: nat, j: nat)
    requires i <= j && p + j <= |b|
    ensures b[p..][i..j] == b[p + i..p + j]
  {
  }

  lemma CutAhead(l: Layout, b: seq<U8>, p: nat)
    requires p + BunchSize(l) <= |b|
    ensures BunchAt(l, b[p..]) == Some(Record(b[p..p + FILE_STATS_SIZE], Cut(l, b, p + FILE_STATS_SIZE)))
  {
    var p0 := FILE_STATS_SIZE;
    var p1 := p0 + l.cpu;
    var p2 := p1 + l.irq;
    var p3 := p2 + l.serial;
    var p4 := p3 + l.irqcpu;
    var p5 := p4 + l.iface;
    Slice(b, p, 0, p0);
    Slice(b, p, p0, p1);
    Slice(b, p, p1, p2);
    Slice(b, p, p2, p3);
    Slice(b, p, p3, p4);
    Slice(b, p, p4, p5);
    Slice(b, p, p5, p5 + l.disk);
  }

  // ---------- What sadc has written ----------

  /** A stream that ends with a bunch after which a header is due. */
  predicate HeaderDue(items: seq<Item>) {
    items == [] || (var i := items[|items| - 1]; i.Bunch? && LastOne(i.r))
  }

  /** Headers, and only good ones, are at the beginning and after marked bunches; the first bunch is not marked. */
  predicate Shaped(items: seq<Item>) {
    var n := |items| - 1;
    n >= 0 ==>
      && Shaped(items[..n]) && (items[n].Head? <==> HeaderDue(items[..n]))
      && match items[n] {
           case Head(h) => GoodHeader(h)
           case Bunch(r) => Statistics(r) && (n == 1 ==> !LastOne(r))
         }
  }

  predicate Statistics(r: Record) {
    |r.stats| == FILE_STATS_SIZE && !r.IsDummy()
  }

  /** What a reader is, apart from how it does it: fh reads from a header on, fb from a bunch on. */
  datatype Reading = Reading(fh: (seq<U8>, bool) -> seq<Item>, fb: (Header, seq<U8>, bool) -> seq<Item>) {
    /** Where the first j items have been read. */
    function FromItem(items: seq<Item>, j: nat, b: seq<U8>): (rest: seq<Item>)
      requires j <= |items|
    {
      if HeaderDue(items[..j]) || LastHead(items[..j]).None? then fh(b, j == 0)
      else fb(LastHead(items[..j]).value, b, j == 1)
    }

    ghost predicate ReadsHeads() {
      forall h, rest, first :: GoodHeader(h) ==> fh(HeaderBytes(h) + rest, first) == [Head(h)] + fb(h, rest, first)
    }

    ghost predicate ReadsBunches() {
      forall h, r, rest, first :: Statistics(r) ==>
        var got := fb(h, Encode(r) + rest, first);
        if r.Fits(HeaderLayout(h)) then
          got == [Bunch(r)] + if !first && LastOne(r) then fh(rest, false) else fb(h, rest, false)
        else got == [] || got[0] != Bunch(r)
    }

    ghost predicate Lawful() {
      && ReadsHeads() && ReadsBunches()
      && (forall first :: fh([], first) == []) && (forall h, first :: fb(h, [], first) == [])
    }
  }

  /** How sar reads, as long as there is no count. */
  const SAR: Reading := Reading((b: seq<U8>, first: bool) => FromHeader(b, -1, first),
                                (h: Header, b: seq<U8>, first: bool) => FromBunch(h, b, -1, first))

  lemma {:induction false} ShapedPrefix(items: seq<Item>, j: nat)
    requires Shaped(items) && j <= |items|
    ensures Shaped(items[..j])
    decreases |items|
  {
    if j < |items| {
      var n := |items| - 1;
      ShapedPrefix(items[..n], j);
      assert items[..n][..j] == items[..j];
    } else {
      assert items[..j] == items;
    }
  }

  lemma {:induction false} StreamOkPrefix(items: seq<Item>, j: nat)
    requires StreamOk(items) && j <= |items|
    ensures StreamOk(items[..j])
    decreases |items|
  {
    if j < |items| {
      var n := |items| - 1;
      StreamOkPrefix(items[..n], j);
      assert items[..n][..j] == items[..j];
    } else {
      assert items[..j] == items;
    }
  }

  lemma {:induction false} HeadFirst(items: seq<Item>)
    requires Shaped(items) && items != []
    ensures LastHead(items).Some? && GoodHeader(LastHead(items).value)
    decreases |items|
  {
    var n := |items| - 1;
    if items[n].Bunch? {
      HeadFirst(items[..n]);
    }
  }

  /** What the reader makes of a bunch that begins at hand. */
  lemma BunchAtIff(l: Layout, r: Record, rest: seq<U8>)
    requires Statistics(r)
    ensures r.Fits(l) ==> BunchAt(l, Encode(r) + rest) == Some(r) && (Encode(r) + rest)[BunchSize(l)..] == rest
    ensures BunchAt(l, Encode(r) + rest) == Some(r) ==> r.Fits(l)
  {
    var b, x := Encode(r) + rest, FILE_STATS_SIZE;
    assert b[..x] == r.stats;
    if r.Fits(l) {
      assert |Encode(r)| == BunchSize(l);
      Front(b, x, |b|, Flat(r.more), rest) by {
        assert b[x..] == Flat(r.more) + rest;
      }
      ContentsAreCut(l, b, x, r.more);
    }
  }

  lemma HeaderAtHead(h: Header, rest: seq<U8>)
    requires GoodHeader(h)
    ensures HeaderAt(HeaderBytes(h) + rest) == Some(h) && (HeaderBytes(h) + rest)[FILE_HDR_SIZE..] == rest
  {
    HeaderRoundTrip(h, rest);
  }

  lemma HeadRead(h: Header, rest: seq<U8>, first: bool)
    requires GoodHeader(h)
    ensures FromHeader(HeaderBytes(h) + rest, -1, first) == [Head(h)] + FromBunch(h, rest, -1, first)
  {
    HeaderAtHead(h, rest);
  }

  lemma BunchRead(h: Header, r: Record, b: seq<U8>, rest: seq<U8>, first: bool)
    requires BunchAt(HeaderLayout(h), b) == Some(r) && b[BunchSize(HeaderLayout(h))..] == rest
    ensures FromBunch(h, b, -1, first)
            == [Bunch(r)] + if !first && LastOne(r) then FromHeader(rest, -1, false) else FromBunch(h, rest, -1, false)
  {
  }

  lemma OtherRead(h: Header, r: Record, b: seq<U8>, first: bool)
    requires BunchAt(HeaderLayout(h), b) != Some(r)
    ensures FromBunch(h, b, -1, first) == [] || FromBunch(h, b, -1, first)[0] != Bunch(r)
  {
  }

  lemma SarReads()
    ensures SAR.Lawful()
  {
    forall h, rest, first | GoodHeader(h)
      ensures FromHeader(HeaderBytes(h) + rest, -1, first) == [Head(h)] + FromBunch(h, rest, -1, first)
    {
      HeadRead(h, rest, first);
    }
    forall h, r, rest, first | Statistics(r)
      ensures var got := SAR.fb(h, Encode(r) + rest, first);
              if r.Fits(HeaderLayout(h)) then
                got == [Bunch(r)] + if !first && LastOne(r) then SAR.fh(rest, false) else SAR.fb(h, rest, false)
              else got == [] || got[0] != Bunch(r)
    {
      BunchAtIff(HeaderLayout(h), r, rest);
      if r.Fits(HeaderLayout(h)) {
        BunchRead(h, r, Encode(r) + rest, rest, first);
      } else {
        OtherRead(h, r, Encode(r) + rest, first);
      }
    }
    assert SAR.ReadsBunches();
    assert forall first :: FromHeader([], -1, first) == [];
    assert forall h, first :: FromBunch(h, [], -1, first) == [];
  }

  /** Item j is read as it was written if it is a header, or a bunch that fits. */
  lemma OneItem(d: Reading, items: seq<Item>, j: nat, rest: seq<U8>)
    requires d.Lawful() && j < |items| && Shaped(items[..j]) && Shaped(items[..j + 1])
    ensures items[j].Bunch? ==> LastHead(items[..j]).Some?
    ensures var got := d.FromItem(items, j, ItemBytes(items[j]) + rest);
            if items[j].Head? || items[j].r.Fits(HeaderLayout(LastHead(items[..j]).value)) then
              got == [items[j]] + d.FromItem(items, j + 1, rest)
            else got == [] || got[0] != items[j]
  {
    var init, next := items[..j], items[..j + 1];
    assert next[..j] == init && next[j] == items[j];
    OneMoreItem(init, items[j]);
    assert next == init + [items[j]];
    if items[j].Bunch? {
      HeadFirst(init);
    }
  }

  /** What reading item j comes to. */
  ghost predicate ItemRead(d: Reading, items: seq<Item>, j: nat, rest: seq<U8>)
    requires j < |items|
  {
    var got := d.FromItem(items, j, ItemBytes(items[j]) + rest);
    if StreamOk(items[..j + 1]) then got == [items[j]] + d.FromItem(items, j + 1, rest)
    else got == [] || got[0] != items[j]
  }

  lemma InOrderNext(items: seq<Item>, j: nat)
    requires j < |items| && StreamOk(items[..j])
    ensures StreamOk(items[..j + 1])
            <==> items[j].Head? || (var h := LastHead(items[..j]); h.Some? && items[j].r.Fits(HeaderLayout(h.value)))
  {
    assert items[..j + 1] == items[..j] + [items[j]];
    OneMoreItem(items[..j], items[j]);
  }

  lemma ReadOne(d: Reading, items: seq<Item>, j: nat, rest: seq<U8>)
    requires d.Lawful() && Shaped(items) && j < |items| && StreamOk(items[..j])
    ensures ItemRead(d, items, j, rest)
  {
    ShapedPrefix(items, j);
    ShapedPrefix(items, j + 1);
    OneItem(d, items, j, rest);
    InOrderNext(items, j);
  }

  lemma FirstBytes(items: seq<Item>, j: nat)
    requires j < |items|
    ensures items[j..] == [items[j]] + items[j + 1..]
    ensures StreamBytes(items[j..]) == ItemBytes(items[j]) + StreamBytes(items[j + 1..])
  {
    var t := items[j..];
    assert t[0] == items[j] && t[1..] == items[j + 1..];
  }

  lemma {:induction false} ReadOn(d: Reading, items: seq<Item>, j: nat)
    requires d.Lawful() && Shaped(items) && j <= |items| && StreamOk(items[..j])
    ensures d.FromItem(items, j, StreamBytes(items[j..])) == items[j..] <==> StreamOk(items)
    decreases |items| - j
  {
    if j == |items| {
      assert items[..j] == items && items[j..] == [];
    } else {
      ReadOne(d, items, j, StreamBytes(items[j + 1..]));
      FirstBytes(items, j);
      if StreamOk(items[..j + 1]) {
        ReadOn(d, items, j + 1);
        SameTail(items[j], d.FromItem(items, j + 1, StreamBytes(items[j + 1..])), items[j + 1..]);
      } else if StreamOk(items) {
        StreamOkPrefix(items, j + 1);
      }
    }
  }

  lemma SameTail<T>(x: T, a: seq<T>, b: seq<T>)
    ensures [x] + a == [x] + b <==> a == b
  {
    assert ([x] + a)[1..] == a && ([x] + b)[1..] == b;
  }

  /** sar receives exactly the headers and bunches that were written, if and only if the stream is in order. */
  lemma ReceivedIff(items: seq<Item>)
    requires Shaped(items)
    ensures Received(StreamBytes(items), -1) == items <==> StreamOk(items)
  {
    assert items[..0] == [] && items[0..] == items;
    SarReads();
    ReadOn(SAR, items, 0);
  }

  /** With a count sar gets a beginning of what it gets without one. */
  lemma CountCuts(b: seq<U8>, count: int)
    ensures Received(b, count) <= Received(b, -1)
  {
    HeaderCuts(b, count, true);
  }

  lemma {:induction false} HeaderCuts(b: seq<U8>, count: int, first: bool)
    ensures FromHeader(b, count, first) <= FromHeader(b, -1, first)
    decreases |b|
  {
    if HeaderAt(b).Some? {
      BunchCuts(HeaderAt(b).value, b[FILE_HDR_SIZE..], count, first);
    }
  }

  lemma {:induction false} BunchCuts(h: Header, b: seq<U8>, count: int, first: bool)
    ensures FromBunch(h, b, count, first) <= FromBunch(h, b, -1, first)
    decreases |b|
  {
    var r, l := BunchAt(HeaderLayout(h), b), HeaderLayout(h);
    if r.Some? {
      var rest := b[BunchSize(l)..];
      if first {
        BunchCuts(h, rest, count, false);
      } else if LastOne(r.value) {
        HeaderCuts(rest, Less(count), false);
      } else {
        BunchCuts(h, rest, Less(count), false);
      }
    }
  }

  // ---------- Over whole histories ----------

  /** A collector that goes on writing to standard output owes no header there. */
  ghost predicate Tidy(w: World) {
    Shaped(w.stream) && (w.running && w.stdout ==> !HeaderDue(w.stream))
  }

  lemma ShapedMore(items: seq<Item>, i: Item)
    requires Shaped(items) && (i.Head? <==> HeaderDue(items))
    requires i.Head? ==> GoodHeader(i.h)
    requires i.Bunch? ==> Statistics(i.r) && (|items| == 1 ==> !LastOne(i.r))
    ensures Shaped(items + [i])
  {
    assert (items + [i])[..|items|] == items;
  }

  lemma ShownTidy(w: World, stats: StatsBytes, mem: Memory, mark: U8)
    requires Tidy(w) && mark in {R_STATS, R_LAST_STATS}
    requires w.running && w.stdout && mark == R_LAST_STATS ==> |w.stream| >= 2
    ensures var v := Shown(w, stats, mem, mark);
            && Shaped(v.stream) && (w.running && w.stdout ==> (HeaderDue(v.stream) <==> mark == R_LAST_STATS))
            && (w.running && w.stdout ==> |v.stream| >= 2)
  {
    if w.running && w.stdout {
      ShapedMore(w.stream, Bunch(StatsRecord(w.c, Typed(stats, mark), mem)));
    }
  }

  lemma AnnouncedTidy(w: World, now: Clock)
    requires Shaped(w.stream) && (w.running && w.stdout ==> HeaderDue(w.stream)) && w.c.InRange() && now.InRange()
    ensures Tidy(Announced(w, now))
  {
    if w.running && w.stdout {
      NewHeaderAgrees(w.c, now);
      ShapedMore(w.stream, Head(NewHeader(w.c, now)));
    }
  }

  lemma StepTidy(w: World, e: Event)
    requires Ok(w) && e.InRange() && Tidy(w)
    requires e.Rotation? && w.running && w.stdout ==> |w.stream| >= 2
    ensures Tidy(Step(w, e))
    ensures var v := Step(w, e);
            !e.Start? && v.running && v.stdout ==> |v.stream| >= 2
  {
    match e
    case Start(_, _, _, _, _, _, _, _, _, _, _, _, _, _) => StartTidy(w, e);
    case Sample(stats, mem, lock, room) =>
      ShownTidy(w, stats, mem, R_STATS);
      FiledSame(Shown(w, stats, mem, R_STATS), stats, mem, lock, room);
    case Rotation(_, _, _, _, _, _, _, _, _, _, _, _, _) => RotationTidy(w, e);
  }

  lemma StartTidy(w: World, e: Event)
    requires Ok(w) && e.Start? && e.InRange()
    ensures Tidy(Step(w, e))
  {
    var u := AtStart(w, e);
    var open := Opened(u, e.name, e.now, e.lock, e.room);
    Bits.SingleBitBounds(e.actflag, PID, 32);
    RecountedInRange(Fresh(w, e.actflag, e.fOption, e.lOption, e.stdout), e.m);
    OpenedSame(u, e.name, e.now, e.lock, e.room);
    OpenedOk(u, e.name, e.now, e.lock, e.room);
    AnnouncedTidy(open, e.outNow);
    MarkedStream(Announced(open, e.outNow), e.later, e.laterLock, e.laterRoom);
  }

  /** What a rotation does before the old file is closed, and what it does then. */
  function Closing(w: World, e: Event): (v: World)
    requires e.Rotation?
  {
    Filed(Shown(w, e.stats, e.mem, R_LAST_STATS), e.stats, e.mem, e.lock, e.room)
  }

  function Moved(v: World, e: Event): (w: World)
    requires e.Rotation?
  {
    var open := Opened(Announced(Recounted(v, e.m), e.outNow), e.name, e.now, e.newLock, e.newRoom);
    Filed(open, e.stats, e.newMem, e.laterLock, e.laterRoom)
  }

  lemma ClosingTidy(w: World, e: Event)
    requires Ok(w) && e.Rotation? && Tidy(w) && (w.running && w.stdout ==> |w.stream| >= 2)
    ensures var v := Closing(w, e);
            && Ok(v) && Shaped(v.stream)
            && (v.running && v.stdout ==> HeaderDue(v.stream) && |v.stream| >= 2)
  {
    ShownTidy(w, e.stats, e.mem, R_LAST_STATS);
    var shown := Shown(w, e.stats, e.mem, R_LAST_STATS);
    FiledSame(shown, e.stats, e.mem, e.lock, e.room);
    FiledOk(shown, e.stats, e.mem, e.lock, e.room);
  }

  lemma MovedTidy(v: World, e: Event)
    requires Ok(v) && e.Rotation? && e.InRange() && v.running && Shaped(v.stream) && (v.stdout ==> HeaderDue(v.stream))
    ensures Tidy(Moved(v, e)) && |Moved(v, e).stream| >= |v.stream| && Moved(v, e).stdout == v.stdout
  {
    var u := Announced(Recounted(v, e.m), e.outNow);
    RecountedInRange(v, e.m);
    AnnouncedTidy(Recounted(v, e.m), e.outNow);
    OpenedSame(u, e.name, e.now, e.newLock, e.newRoom);
    FiledSame(Opened(u, e.name, e.now, e.newLock, e.newRoom), e.stats, e.newMem, e.laterLock, e.laterRoom);
  }

  lemma RotationSplits(w: World, e: Event)
    requires e.Rotation?
    ensures Step(w, e) == if !Closing(w, e).running then Closing(w, e) else Moved(Closing(w, e), e)
  {
  }

  lemma RotationTidy(w: World, e: Event)
    requires Ok(w) && e.Rotation? && e.InRange() && Tidy(w) && (w.running && w.stdout ==> |w.stream| >= 2)
    ensures Tidy(Step(w, e))
    ensures Step(w, e).running && Step(w, e).stdout ==> |Step(w, e).stream| >= 2
  {
    var v := Closing(w, e);
    ClosingTidy(w, e);
    RotationSplits(w, e);
    if v.running {
      MovedTidy(v, e);
    }
  }

  lemma {:induction false} TidySoFar(w: World, es: seq<Event>, n: nat)
    requires Ok(w) && !w.running && w.stream == [] && AllInRange(es) && Orderly(es) && n <= |es|
    ensures var v := Before(w, es, n);
            && Ok(v) && Tidy(v)
            && (n > 0 && !es[n - 1].Start? && v.running && v.stdout ==> |v.stream| >= 2)
  {
    if n > 0 {
      TidySoFar(w, es, n - 1);
      OneMoreEvent(w, es, n - 1);
      StepOk(Before(w, es, n - 1), es[n - 1]);
      StepTidy(Before(w, es, n - 1), es[n - 1]);
    } else {
      assert es[..0] == [];
    }
  }

  /**
   After any history that begins with no collector running, sar receives from the bytes on standard output exactly
   what the last collector has written there, if and only if each rotation of that collector that other output has
   followed found numbers that fit.
   */
  lemma ReceivedOverRun(w: World, es: seq<Event>)
    requires Ok(w) && !w.running && w.stream == [] && AllInRange(es) && Orderly(es)
    ensures var items := Run(w, es).stream;
            Received(StreamBytes(items), -1) == items
            <==> forall i: nat :: i < |es| - 1 && SameProgram(es, i, |es|) ==> Fitting(w, es, i)
  {
    TidySoFar(w, es, |es|);
    assert es[..|es|] == es;
    ReceivedIff(Run(w, es).stream);
    StreamOverRun(w, es);
  }

  /** In the two histories whose stream is broken, sar does not get what has been written. */
  lemma Misread(now: Clock, stats: StatsBytes, mem: Memory)
    requires now.InRange()
    ensures var appended := Story(Plain(0), BASE_FLAG, Plain(3), BASE_FLAG, false, now, stats, mem);
            Received(StreamBytes(Run(NEW, appended).stream), -1) != Run(NEW, appended).stream
    ensures var replaced := Story(Machine(1, 0, 0, 0, 0), BASE_FLAG + ONE_IRQ_FLAG, Plain(0), BASE_FLAG, true, now,
                                  stats, mem);
            Received(StreamBytes(Run(NEW, replaced).stream), -1) != Run(NEW, replaced).stream
  {
    AppendHistory(now, stats, mem);
    ReplaceHistory(now, stats, mem);
    var appended := Story(Plain(0), BASE_FLAG, Plain(3), BASE_FLAG, false, now, stats, mem);
    var replaced := Story(Machine(1, 0, 0, 0, 0), BASE_FLAG + ONE_IRQ_FLAG, Plain(0), BASE_FLAG, true, now, stats, mem);
    BrokenMisread(appended);
    BrokenMisread(replaced);
  }

  lemma BrokenMisread(es: seq<Event>)
    requires AllInRange(es) && Orderly(es) && !StreamOk(Run(NEW, es).stream)
    ensures Received(StreamBytes(Run(NEW, es).stream), -1) != Run(NEW, es).stream
  {
    NewIsOk();
    TidySoFar(NEW, es, |es|);
    assert es[..|es|] == es;
    ReceivedIff(Run(NEW, es).stream);
  }
}
