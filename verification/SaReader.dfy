/** How sar and sadf read a data file, one record at a time. */
module SaReader {
  import opened Common
  import opened Bits
  import opened SaFile

  /** The result of one read: the bytes, the end of the file, or an unexpected end, which makes the program exit. */
  datatype Bytes = Data(b: seq<U8>) | AtEnd | Short

  class Reader {
    const file: seq<U8>
    const hdr: Header
    var pos: nat

    /** Opens a file whose header has been read and found good. */
    constructor (file: seq<U8>)
      requires |file| >= FILE_HDR_SIZE && DecodeHeader(file).magic == SA_MAGIC
      ensures this.file == file && hdr == DecodeHeader(file) && pos == FILE_HDR_SIZE
    {
      this.file, hdr, pos := file, DecodeHeader(file), FILE_HDR_SIZE;
    }

    function Sizes(): (l: Layout) {
      HeaderLayout(hdr)
    }

    /** Reads size bytes; with soft, finding no byte at all is the end of the file. */
    method Fread(size: nat, soft: bool) returns (r: Bytes)
      requires pos <= |file|
      modifies this`pos
      ensures pos <= |file|
      ensures r.AtEnd? <==> soft && (size == 0 || old(pos) == |file|)
      ensures r.Short? <==> old(pos) + size > |file| && !r.AtEnd?
      ensures r.Data? ==> pos == old(pos) + size && r.b == file[old(pos)..pos]
      ensures r.AtEnd? ==> pos == old(pos)
    {
      var n := if pos + size <= |file| then size else |file| - pos;
      var b := file[pos..pos + n];
      pos := pos + n;
      if n == 0 && soft {
        return AtEnd;
      }
      if n < size {
        return Short;
      }
      return Data(b);
    }

    /** Reads one section, if there is one. */
    method ReadSection(size: nat) returns (r: Bytes)
      requires pos <= |file|
      modifies this`pos
      ensures pos <= |file| && !r.AtEnd?
      ensures r.Short? <==> old(pos) + size > |file|
      ensures r.Data? ==> pos == old(pos) + size && r.b == file[old(pos)..pos]
    {
      if size > 0 {
        r := Fread(size, false);
      } else {
        r := Data([]);
      }
    }

    /** Reads three sections, one after the other. */
    method ReadThree(m: nat, n: nat, k: nat) returns (r: Option<(seq<U8>, seq<U8>, seq<U8>)>)
      requires pos <= |file|
      modifies this`pos
      ensures pos <= |file|
      ensures r.None? <==> old(pos) + m + n + k > |file|
      ensures r.Some? ==>
                var p1 := old(pos) + m;
                var p2 := p1 + n;
                r.value == (file[old(pos)..p1], file[p1..p2], file[p2..p2 + k]) && pos == p2 + k
    {
      var a := ReadSection(m);
      if a.Data? {
        var b := ReadSection(n);
        if b.Data? {
          var c := ReadSection(k);
          if c.Data? {
            return Some((a.b, b.b, c.b));
          }
        }
      }
      return None;
    }

    /** Reads the varying part of a record. */
    method ReadExtraStats() returns (m: Option<Sections>)
      requires pos <= |file|
      modifies this`pos
      ensures pos <= |file|
      ensures m.None? <==> old(pos) + Sizes().Size() > |file|
      ensures m.Some? ==> m.value == Cut(Sizes(), file, old(pos)) && pos == old(pos) + Sizes().Size()
    {
      var l := Sizes();
      var a := ReadThree(l.cpu, l.irq, l.serial);
      if a.Some? {
        var b := ReadThree(l.irqcpu, l.iface, l.disk);
        if b.Some? {
          return Some(Sections(a.value.0, a.value.1, a.value.2, b.value.0, b.value.1, b.value.2));
        }
      }
      return None;
    }

    /** Reads one record; only those that do not mark a restart have a varying part. */
    method ReadRecord() returns (o: Outcome)
      requires pos <= |file| && hdr.stSize == FILE_STATS_SIZE
      modifies this`pos
      ensures pos <= |file|
      ensures o == RecordAt(Sizes(), file, old(pos))
      ensures o.Got? ==> pos == old(pos) + |Encode(o.r)|
      ensures o.Eof? ==> pos == old(pos)
    {
      var s := Fread(hdr.stSize, true);
      if s.AtEnd? {
        return Eof;
      }
      if s.Short? {
        return Unexpected;
      }
      if s.b[RECORD_TYPE] == R_DUMMY {
        return Got(Record(s.b, NOTHING));
      }
      ghost var start := pos;
      var m := ReadExtraStats();
      if m.None? {
        return Unexpected;
      }
      CutIsContents(Sizes(), file, start);
      return Got(Record(s.b, m.value));
    }

    /** From position p on, the file holds the records rs from the i-th on, and nothing else. */
    ghost predicate Lies(p: nat, rs: seq<Record>, i: nat) {
      && hdr.stSize == FILE_STATS_SIZE && p <= |file| && i <= |rs|
      && AllFit(Sizes(), rs) && file[p..] == EncodeAll(rs[i..])
    }

    /** Lies, in a form that keeps its contents out of the proofs that only pass it on. */
    ghost predicate Stands(p: nat, rs: seq<Record>, i: nat) {
      i <= |rs| && forall q :: q == p ==> Lies(q, rs, i)
    }

    /** One record of a file of which we know that it is well formed. */
    method Fetch(ghost rs: seq<Record>, ghost i: nat) returns (r: Option<Record>)
      requires Stands(pos, rs, i)
      modifies this`pos
      ensures if i < |rs| then r == Some(rs[i]) && Stands(pos, rs, i + 1) else r == None && pos == old(pos)
    {
      assert Lies(pos, rs, i);
      WhatIsNext(pos, rs, i);
      var o := ReadRecord();
      return if o.Got? then Some(o.r) else None;
    }

    lemma WhatIsNext(p: nat, rs: seq<Record>, i: nat)
      requires Lies(p, rs, i)
      ensures RecordAt(Sizes(), file, p) == if i < |rs| then Got(rs[i]) else Eof
      ensures i < |rs| ==> Lies(p + |Encode(rs[i])|, rs, i + 1)
    {
      if i < |rs| {
        assert rs[i..][0] == rs[i] && rs[i..][1..] == rs[i + 1..];
        FirstRecord(Sizes(), file, p, rs[i], EncodeAll(rs[i + 1..]));
      } else {
        assert rs[i..] == [];
      }
    }
  }

  /** A written file is read from the first record on. */
  lemma StandsAtFirst(r: Reader, rs: seq<Record>)
    requires |r.file| >= FILE_HDR_SIZE && r.hdr.stSize == FILE_STATS_SIZE
    requires Parse(HeaderLayout(r.hdr), r.file, FILE_HDR_SIZE) == Some(rs)
    ensures r.Stands(FILE_HDR_SIZE, rs, 0)
  {
    ParseIff(HeaderLayout(r.hdr), r.file, FILE_HDR_SIZE, rs);
    assert rs[0..] == rs;
    assert r.Lies(FILE_HDR_SIZE, rs, 0);
  }
}
