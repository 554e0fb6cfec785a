/**
 The macros that store and load the packed bit fields of a squashfs image whose byte order
 is not the host's.  `Pack` is the macro of mksquashfs, `Unpack` the one of read_fs; each has
 one shift for little-endian and one for big-endian hosts.
 */
module Squashfs {
  import opened Bits

  datatype Host = LittleEndian | BigEndian

  /** An unsigned long long is 64 bits wide. */
  const WORD_BITS := 64

  /** The byte at address `addr` of an unsigned long long that holds `val`. */
  function ByteAt(host: Host, val: nat, addr: nat): (b: U8)
    requires addr < 8
  {
    Low(Shr(val, 8 * (if host.LittleEndian? then addr else 7 - addr)), 8)
  }

  /** The SHIFT argument of the macros. */
  function ShiftFor(host: Host, bpos: nat, tbits: nat): (s: nat)
    requires bpos + tbits <= WORD_BITS
  {
    if host.LittleEndian? then WORD_BITS - tbits - bpos else bpos
  }

  // ---------- Bits of a buffer, in the order a field occupies them ----------

  /** A little-endian host writes a field from the high end of each byte, a big-endian one from the low end. */
  predicate BufferBit(host: Host, buf: seq<U8>, j: nat)
    requires j < 8 * |buf|
  {
    Bit(buf[j / 8], if host.LittleEndian? then 7 - j % 8 else j % 8)
  }

  /** Bit t of a field of `tbits` bits, counted in the same direction. */
  predicate FieldBit(host: Host, value: nat, tbits: nat, t: nat)
    requires t < tbits
  {
    Bit(value, if host.LittleEndian? then tbits - 1 - t else t)
  }

  datatype Field = Field(pos: nat, tbits: nat, value: nat) {
    /** What the macros demand: a width of at least one bit that fits the 64-bit word after the bit offset. */
    predicate Fits(n: nat) {
      1 <= tbits && pos % 8 + tbits <= 64 && pos + tbits <= 8 * n
    }

    predicate InRange() {
      value < Pow2(tbits)
    }

    predicate Covers(j: nat) {
      pos <= j < pos + tbits
    }

    predicate BitThere(host: Host, j: nat) {
      Covers(j) && FieldBit(host, value, tbits, j - pos)
    }
  }

  predicate Disjoint(f: Field, g: Field) {
    f.pos + f.tbits <= g.pos || g.pos + g.tbits <= f.pos
  }

  // ---------- Pack ----------

  /** The 64-bit word that Pack spreads over the buffer. */
  function PackedWord(host: Host, f: Field): (val: nat)
    requires f.pos % 8 + f.tbits <= 64
  {
    Low(Shl(f.value, ShiftFor(host, f.pos % 8, f.tbits)), WORD_BITS)
  }

  lemma PackedWordBit(host: Host, f: Field, q: nat)
    requires f.pos % 8 + f.tbits <= 64 && f.InRange() && q < 64
    ensures var shift := ShiftFor(host, f.pos % 8, f.tbits);
            Bit(PackedWord(host, f), q) <==> shift <= q < shift + f.tbits && Bit(f.value, q - shift)
  {
    var shift := ShiftFor(host, f.pos % 8, f.tbits);
    BitOfLow(Shl(f.value, shift), WORD_BITS, q);
    BitOfShl(f.value, shift, q);
    if q >= shift + f.tbits {
      LowOfSmall(f.value, f.tbits);
      BitOfLow(f.value, f.tbits, q - shift);
    }
  }

  /** In the word, the byte at address 7 - i holds the bits the field puts into byte i after its first. */
  lemma PackedByteBit(host: Host, f: Field, i: nat, j: nat)
    requires 1 <= f.tbits && f.pos % 8 + f.tbits <= 64 && f.InRange()
    requires i < 8 && 8 * (f.pos / 8 + i) <= j < 8 * (f.pos / 8 + i) + 8
    ensures Bit(ByteAt(host, PackedWord(host, f), 7 - i), if host.LittleEndian? then 7 - j % 8 else j % 8)
            <==> f.BitThere(host, j)
  {
    var first, bpos := f.pos / 8, f.pos % 8;
    SplitIndex(j, first + i);
    var r := j - 8 * (first + i);
    var val, k := PackedWord(host, f), if host.LittleEndian? then 7 - r else r;
    var down := if host.LittleEndian? then 7 - i else i;
    BitOfLow(Shr(val, 8 * down), 8, k);
    BitOfShr(val, 8 * down, k);
    PackedWordBit(host, f, k + 8 * down);
    assert f.pos == 8 * first + bpos;
    var o := 8 * i + r;
    assert j - f.pos == o - bpos;
    assert k + 8 * down == if host.LittleEndian? then 63 - o else o;
  }

  lemma SplitIndex(j: nat, a: nat)
    requires 8 * a <= j < 8 * a + 8
    ensures j / 8 == a && j % 8 == j - 8 * a
  {
  }

  /** The buffer with byte m ORed by the word's byte that belongs there, for the first i bytes. */
  ghost predicate OredUpTo(host: Host, f: Field, before: seq<U8>, now: seq<U8>, i: nat)
    requires f.pos % 8 + f.tbits <= 64
  {
    && |now| == |before| && i <= 8
    && forall m :: 0 <= m < |now| ==>
         now[m] == if f.pos / 8 <= m < f.pos / 8 + i
                   then Or(before[m], ByteAt(host, PackedWord(host, f), 7 - (m - f.pos / 8)))
                   else before[m]
  }

  lemma OredBit(host: Host, f: Field, before: seq<U8>, now: seq<U8>, i: nat, j: nat)
    requires f.Fits(|before|) && f.InRange() && OredUpTo(host, f, before, now, i)
    requires f.pos % 8 + f.tbits <= 8 * i < f.pos % 8 + f.tbits + 8
    requires j < 8 * |before|
    ensures BufferBit(host, now, j) <==> BufferBit(host, before, j) || f.BitThere(host, j)
  {
    var m, k := j / 8, if host.LittleEndian? then 7 - j % 8 else j % 8;
    if f.pos / 8 <= m < f.pos / 8 + i {
      BitOfOr(before[m], ByteAt(host, PackedWord(host, f), 7 - (m - f.pos / 8)), k);
      PackedByteBit(host, f, m - f.pos / 8, j);
    }
  }

  /** Storing a field sets the field's bits and leaves every other bit of the buffer alone. */
  ghost predicate Stored(host: Host, f: Field, before: seq<U8>, after: seq<U8>) {
    && |after| == |before|
    && forall j :: 0 <= j < 8 * |before| ==>
         (BufferBit(host, after, j) <==> BufferBit(host, before, j) || f.BitThere(host, j))
  }

  method Pack(host: Host, f: Field, p: array<U8>)
    requires f.Fits(p.Length) && f.InRange()
    modifies p
    ensures Stored(host, f, old(p[..]), p[..])
  {
    ghost var before := p[..];
    var bpos := f.pos % 8;
    var val := Low(Shl(f.value, ShiftFor(host, bpos, f.tbits)), WORD_BITS);
    var s, d, bits := 7, f.pos / 8, 0;
    ghost var i := 0;
    while bits < f.tbits + bpos
      invariant bits == 8 * i < f.tbits + bpos + 8
      invariant s == 7 - i && d == f.pos / 8 + i
      invariant OredUpTo(host, f, before, p[..], i)
    {
      OrBound(p[d], ByteAt(host, val, s), 8);
      p[d] := Or(p[d], ByteAt(host, val, s));
      d, s := d + 1, s - 1;
      bits := bits + 8;
      i := i + 1;
    }
    forall j | 0 <= j < 8 * p.Length
      ensures BufferBit(host, p[..], j) <==> BufferBit(host, before, j) || f.BitThere(host, j)
    {
      OredBit(host, f, before, p[..], i, j);
    }
  }

  // ---------- Unpack ----------

  /** The number whose bytes are bs, least significant first. */
  function Number(bs: seq<U8>): (n: nat) {
    if bs == [] then 0 else Or(bs[0], Shl(Number(bs[1..]), 8))
  }

  lemma {:induction false} BitOfNumber(bs: seq<U8>, k: nat)
    ensures Bit(Number(bs), k) <==> k < 8 * |bs| && Bit(bs[k / 8], k % 8)
  {
    if bs == [] {
      ZeroBits(k);
    } else {
      BitOfOr(bs[0], Shl(Number(bs[1..]), 8), k);
      BitOfShl(Number(bs[1..]), 8, k);
      if k < 8 {
        assert k / 8 == 0 && k % 8 == k;
      } else {
        BitOfNumber(bs[1..], k - 8);
        assert (k - 8) / 8 + 1 == k / 8 && (k - 8) % 8 == k % 8;
        LowOfSmall(bs[0], 8);
        BitOfLow(bs[0], 8, k);
      }
    }
  }

  function Reversed(bs: seq<U8>): (r: seq<U8>)
    ensures |r| == |bs|
    ensures forall i :: 0 <= i < |bs| ==> r[i] == bs[|bs| - 1 - i]
  {
    seq(|bs|, i requires 0 <= i < |bs| => bs[|bs| - 1 - i])
  }

  /** The unsigned long long stored in the eight bytes of `mem`. */
  function WordOf(host: Host, mem: seq<U8>): (val: nat)
    requires |mem| == 8
  {
    Number(if host.LittleEndian? then mem else Reversed(mem))
  }

  /** The memory of the word after the first i bytes of the field have been copied into it. */
  ghost predicate CopiedUpTo(f: Field, p: seq<U8>, mem: seq<U8>, i: nat)
    requires f.pos / 8 + i <= |p|
  {
    && |mem| == 8 && i <= 8
    && forall a :: 0 <= a < 8 ==> mem[a] == if 7 - i < a then p[f.pos / 8 + 7 - a] else 0
  }

  /** Bit q of the shifted word is the buffer's bit at the matching place, or zero beyond the copied bytes. */
  lemma ShiftedBit(host: Host, f: Field, p: seq<U8>, mem: seq<U8>, i: nat, q: nat)
    requires f.Fits(|p|) && f.pos / 8 + i <= |p| && CopiedUpTo(f, p, mem, i)
    requires f.pos % 8 + f.tbits <= 8 * i
    ensures var j := Landing(host, f, q);
            Bit(Shr(WordOf(host, mem), ShiftFor(host, f.pos % 8, f.tbits)), q)
            <==> f.pos / 8 * 8 <= j < f.pos / 8 * 8 + 8 * i && BufferBit(host, p, j)
  {
    var shift := ShiftFor(host, f.pos % 8, f.tbits);
    var k, start := q + shift, 8 * (f.pos / 8);
    BitOfShr(WordOf(host, mem), shift, q);
    WordBit(host, mem, k);
    if k < 64 {
      var d := if host.LittleEndian? then 63 - k else k;
      assert Landing(host, f, q) == start + d;
      MemoryBit(host, f, p, mem, i, d);
    }
  }

  /** Bit k of the word. */
  lemma WordBit(host: Host, mem: seq<U8>, k: nat)
    requires |mem| == 8
    ensures Bit(WordOf(host, mem), k)
            <==> k < 64 && Bit(mem[if host.LittleEndian? then k / 8 else 7 - k / 8], k % 8)
  {
    BitOfNumber(if host.LittleEndian? then mem else Reversed(mem), k);
  }

  /** The bit at place d of the copied bytes, counted as the fields of the buffer are. */
  lemma MemoryBit(host: Host, f: Field, p: seq<U8>, mem: seq<U8>, i: nat, d: nat)
    requires f.pos / 8 + i <= |p| && CopiedUpTo(f, p, mem, i) && d < 64
    ensures var k, j := if host.LittleEndian? then 63 - d else d, 8 * (f.pos / 8) + d;
            Bit(mem[if host.LittleEndian? then k / 8 else 7 - k / 8], k % 8) <==> d < 8 * i && BufferBit(host, p, j)
  {
    var k, j, a := if host.LittleEndian? then 63 - d else d, 8 * (f.pos / 8) + d, d / 8;
    SplitIndex(d, a);
    SplitIndex(k, if host.LittleEndian? then 7 - a else a);
    SplitIndex(j, f.pos / 8 + a);
    ZeroBits(k % 8);
  }

  /**
   Loads a field.  `raw` is what the macro computes; `value` is `raw` stored in a member that is
   `tbits` wide.
   */
  method Unpack(host: Host, pos: nat, tbits: nat, p: array<U8>) returns (raw: nat, value: nat)
    requires Field(pos, tbits, 0).Fits(p.Length)
    ensures value == Low(raw, tbits)
    ensures forall t :: 0 <= t < tbits ==>
              (FieldBit(host, value, tbits, t) <==> BufferBit(host, p[..], pos + t))
    ensures raw == value <==>
              forall j: nat :: NeighbourBit(host, pos, tbits, j) ==> !BufferBit(host, p[..], j)
  {
    ghost var f := Field(pos, tbits, 0);
    var bpos := pos % 8;
    var mem: seq<U8> := [0, 0, 0, 0, 0, 0, 0, 0];
    var s, d, bits := pos / 8, 7, 0;
    ghost var i := 0;
    while bits < tbits + bpos
      invariant bits == 8 * i < tbits + bpos + 8
      invariant s == pos / 8 + i <= p.Length && d == 7 - i
      invariant CopiedUpTo(f, p[..], mem, i)
    {
      mem := mem[d := p[s]];
      d, s := d - 1, s + 1;
      bits := bits + 8;
      i := i + 1;
    }
    raw := Shr(WordOf(host, mem), ShiftFor(host, bpos, tbits));
    value := Low(raw, tbits);
    forall t | 0 <= t < tbits
      ensures FieldBit(host, value, tbits, t) <==> BufferBit(host, p[..], pos + t)
    {
      var q := if host.LittleEndian? then tbits - 1 - t else t;
      BitOfLow(raw, tbits, q);
      ShiftedBit(host, f, p[..], mem, i, q);
    }
    RawIsExact(host, f, p[..], mem, i);
  }

  /** The bits that the last (or first) byte of a field shares with its neighbour and that end up above the value. */
  predicate NeighbourBit(host: Host, pos: nat, tbits: nat, j: nat) {
    if host.LittleEndian? then pos / 8 * 8 <= j < pos
    else pos + tbits <= j < (pos + tbits + 7) / 8 * 8
  }

  /** The buffer bit that lands on bit q of the shifted word. */
  function Landing(host: Host, f: Field, q: nat): (j: int) {
    if host.LittleEndian? then f.pos + f.tbits - 1 - q else f.pos + q
  }

  /** Without the mask the macro's value is exact if and only if the neighbouring bits are clear. */
  lemma RawIsExact(host: Host, f: Field, p: seq<U8>, mem: seq<U8>, i: nat)
    requires f.Fits(|p|) && f.pos / 8 + i <= |p| && CopiedUpTo(f, p, mem, i)
    requires f.pos % 8 + f.tbits <= 8 * i < f.pos % 8 + f.tbits + 8
    ensures var raw := Shr(WordOf(host, mem), ShiftFor(host, f.pos % 8, f.tbits));
            raw == Low(raw, f.tbits) <==>
            forall j: nat :: NeighbourBit(host, f.pos, f.tbits, j) ==> !BufferBit(host, p, j)
  {
    var raw := Shr(WordOf(host, mem), ShiftFor(host, f.pos % 8, f.tbits));
    if raw == Low(raw, f.tbits) {
      forall j: nat | NeighbourBit(host, f.pos, f.tbits, j)
        ensures !BufferBit(host, p, j)
      {
        var q := if host.LittleEndian? then f.pos + f.tbits - 1 - j else j - f.pos;
        BitOfLow(raw, f.tbits, q);
        ShiftedBit(host, f, p, mem, i, q);
      }
    }
    if forall j: nat :: NeighbourBit(host, f.pos, f.tbits, j) ==> !BufferBit(host, p, j) {
      forall q: nat | q >= f.tbits
        ensures !Bit(raw, q)
      {
        HighBitClear(host, f, p, mem, i, q);
      }
      NoHighBits(raw, f.tbits);
    }
  }

  lemma HighBitClear(host: Host, f: Field, p: seq<U8>, mem: seq<U8>, i: nat, q: nat)
    requires f.Fits(|p|) && f.pos / 8 + i <= |p| && CopiedUpTo(f, p, mem, i)
    requires f.pos % 8 + f.tbits <= 8 * i < f.pos % 8 + f.tbits + 8
    requires forall j: nat :: NeighbourBit(host, f.pos, f.tbits, j) ==> !BufferBit(host, p, j)
    requires q >= f.tbits
    ensures !Bit(Shr(WordOf(host, mem), ShiftFor(host, f.pos % 8, f.tbits)), q)
  {
    ShiftedBit(host, f, p, mem, i, q);
    var j, first := Landing(host, f, q), f.pos / 8;
    if first * 8 <= j < first * 8 + 8 * i {
      WholeBytes(f.pos + f.tbits, first + i);
      assert NeighbourBit(host, f.pos, f.tbits, j);
    }
  }

  /** e bytes are enough for x bits and not too many. */
  lemma WholeBytes(x: nat, e: nat)
    requires 8 * e < x + 8
    ensures 8 * e <= (x + 7) / 8 * 8
  {
  }

  /** A byte with a bit on each side of its middle: the half that is loaded second comes with a bit of its neighbour. */
  lemma NeighbourSpoils(host: Host)
    ensures var p, pos := [0x12], if host.LittleEndian? then 4 else 0;
            var mem := [0, 0, 0, 0, 0, 0, 0, p[0]];
            var raw := Shr(WordOf(host, mem), ShiftFor(host, pos, 4));
            CopiedUpTo(Field(pos, 4, 0), p, mem, 1) && raw != Low(raw, 4)
  {
    var p, pos := [0x12], if host.LittleEndian? then 4 else 0;
    var j: nat := if host.LittleEndian? then 3 else 4;
    assert Bit(0x12, 4);
    assert NeighbourBit(host, pos, 4, j) && BufferBit(host, p, j);
    RawIsExact(host, Field(pos, 4, 0), p, [0, 0, 0, 0, 0, 0, 0, p[0]], 1);
  }

  // ---------- Whole structures ----------

  /** The fields of one structure: they fit, hold values in range and do not overlap. */
  ghost predicate Layout(fs: seq<Field>, n: nat) {
    && (forall i :: 0 <= i < |fs| ==> fs[i].Fits(n) && fs[i].InRange())
    && (forall i, k :: 0 <= i < k < |fs| ==> Disjoint(fs[i], fs[k]))
  }

  /** The buffer holds the fields and nothing else. */
  ghost predicate Holds(host: Host, fs: seq<Field>, buf: seq<U8>) {
    forall j :: 0 <= j < 8 * |buf| ==>
      (BufferBit(host, buf, j) <==> exists i :: 0 <= i < |fs| && fs[i].BitThere(host, j))
  }

  lemma HoldsOneMore(host: Host, fs: seq<Field>, f: Field, before: seq<U8>, after: seq<U8>)
    requires Holds(host, fs, before) && Stored(host, f, before, after)
    ensures Holds(host, fs + [f], after)
  {
    var gs := fs + [f];
    forall j | 0 <= j < 8 * |after|
      ensures BufferBit(host, after, j) <==> exists i :: 0 <= i < |gs| && gs[i].BitThere(host, j)
    {
      if BufferBit(host, before, j) {
        var i :| 0 <= i < |fs| && fs[i].BitThere(host, j);
        assert gs[i].BitThere(host, j);
      }
      assert gs[|fs|] == f;
    }
  }

  /** Clears the buffer and stores the fields one after the other. */
  method Store(host: Host, fs: seq<Field>, p: array<U8>)
    requires Layout(fs, p.Length)
    modifies p
    ensures Holds(host, fs, p[..])
  {
    for m := 0 to p.Length
      invariant forall k :: 0 <= k < m ==> p[k] == 0
    {
      p[m] := 0;
    }
    forall j | 0 <= j < 8 * p.Length
      ensures !BufferBit(host, p[..], j)
    {
      ZeroBits(if host.LittleEndian? then 7 - j % 8 else j % 8);
    }
    for i := 0 to |fs|
      invariant Holds(host, fs[..i], p[..])
    {
      ghost var before := p[..];
      Pack(host, fs[i], p);
      HoldsOneMore(host, fs[..i], fs[i], before, p[..]);
      assert fs[..i + 1] == fs[..i] + [fs[i]];
    }
    assert fs[..|fs|] == fs;
  }

  /** Whatever bits a load finds at the place of field i, they are the field's own. */
  lemma LoadedValue(host: Host, fs: seq<Field>, buf: seq<U8>, i: nat, value: nat)
    requires Layout(fs, |buf|) && Holds(host, fs, buf) && i < |fs|
    requires value < Pow2(fs[i].tbits)
    requires forall t :: 0 <= t < fs[i].tbits ==>
               (FieldBit(host, value, fs[i].tbits, t) <==> BufferBit(host, buf, fs[i].pos + t))
    ensures value == fs[i].value
  {
    var f := fs[i];
    forall k | 0 <= k < f.tbits
      ensures Bit(value, k) == Bit(f.value, k)
    {
      var t := if host.LittleEndian? then f.tbits - 1 - k else k;
      OnlyOwner(fs, |buf|, i, f.pos + t);
      assert FieldBit(host, value, f.tbits, t) <==> BufferBit(host, buf, f.pos + t);
      assert f.BitThere(host, f.pos + t) <==> FieldBit(host, f.value, f.tbits, t);
    }
    SameBits(value, f.value, f.tbits);
  }

  lemma OnlyOwner(fs: seq<Field>, n: nat, i: nat, j: nat)
    requires Layout(fs, n) && i < |fs| && fs[i].Covers(j)
    ensures forall k :: 0 <= k < |fs| && fs[k].Covers(j) ==> k == i
  {
  }

  /** Storing a structure and loading each field gives every value back. */
  method StoreAndLoad(host: Host, fs: seq<Field>, p: array<U8>) returns (values: seq<nat>)
    requires Layout(fs, p.Length)
    modifies p
    ensures Holds(host, fs, p[..])
    ensures |values| == |fs| && forall i :: 0 <= i < |fs| ==> values[i] == fs[i].value
  {
    Store(host, fs, p);
    values := [];
    for i := 0 to |fs|
      invariant Holds(host, fs, p[..])
      invariant |values| == i && forall k :: 0 <= k < i ==> values[k] == fs[k].value
    {
      var raw, value := Unpack(host, fs[i].pos, fs[i].tbits, p);
      LoadedValue(host, fs, p[..], i, value);
      values := values + [value];
    }
  }

  /** The image of a structure depends on its fields only, not on the order they were stored in. */
  lemma OrderDoesNotMatter(host: Host, fs: seq<Field>, gs: seq<Field>, a: seq<U8>, b: seq<U8>)
    requires |a| == |b| && Holds(host, fs, a) && Holds(host, gs, b)
    requires forall f :: f in fs <==> f in gs
    ensures a == b
  {
    forall j | 0 <= j < 8 * |a|
      ensures BufferBit(host, a, j) == BufferBit(host, b, j)
    {
      if BufferBit(host, a, j) {
        var i :| 0 <= i < |fs| && fs[i].BitThere(host, j);
        assert fs[i] in gs;
      }
      if BufferBit(host, b, j) {
        var i :| 0 <= i < |gs| && gs[i].BitThere(host, j);
        assert gs[i] in fs;
      }
    }
    SameBuffer(host, a, b);
  }

  lemma SameBuffer(host: Host, a: seq<U8>, b: seq<U8>)
    requires |a| == |b|
    requires forall j :: 0 <= j < 8 * |a| ==> BufferBit(host, a, j) == BufferBit(host, b, j)
    ensures a == b
  {
    forall m | 0 <= m < |a|
      ensures a[m] == b[m]
    {
      forall k | 0 <= k < 8
        ensures Bit(a[m], k) == Bit(b[m], k)
      {
        var j := 8 * m + if host.LittleEndian? then 7 - k else k;
        assert j / 8 == m;
        assert BufferBit(host, a, j) == BufferBit(host, b, j);
      }
      SameBits(a[m], b[m], 8);
    }
  }
}
