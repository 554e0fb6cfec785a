/**
 The table the ioconf parser builds on the heap.  A line is parsed into scratch structures that are
 kept from line to line until a record takes them over; several entries may share a configuration.
 `view` is the table as a value, `made` the configurations by number.
 */
module IocTable {
  import opened Common
  import opened IocNumerals
  import opened IocName
  import opened IocLines

  /** The blocks of memory that have been allocated and not freed; only such a block can be freed. */
  class Allocator {
    ghost var inUse: set<object>

    constructor ()
      ensures inUse == {}
    {
      inUse := {};
    }

    method Take(o: object)
      requires o !in inUse
      modifies this
      ensures inUse == old(inUse) + {o}
    {
      inUse := inUse + {o};
    }

    method Free(o: object)
      requires o in inUse
      modifies this
      ensures inUse == old(inUse) - {o}
    {
      inUse := inUse - {o};
    }
  }

  /** n more blocks. */
  ghost predicate Grown(a: set<object>, b: set<object>, n: int) {
    a <= b && |b| == |a| + n
  }

  lemma GrownNot(a: set<object>, b: set<object>, n: int)
    requires Grown(a, b, n)
    ensures a == b <==> n == 0
  {
    assert b == a + (b - a);
  }

  /** Growing, and then giving back nothing that was there before. */
  lemma GrownLess(a: set<object>, b: set<object>, c: set<object>, n: int, m: int)
    requires Grown(a, b, n) && a <= c && |c| + m == |b|
    ensures Grown(a, c, n - m)
  {
  }

  class BlkConfig {
    var cfg: Config
    /** Its number among the configurations. */
    ghost var id: nat

    constructor ()
      ensures cfg == BLANK
    {
      cfg, id := BLANK, 0;
    }
  }

  /** A cleared configuration. */
  const BLANK := Config("", false, None, "", "", 0, 0, "", None)

  class DescBuffer {
    var text: string
    /** The major of the entry it was made for. */
    ghost var owner: nat

    constructor (text: string, ghost owner: nat)
      ensures this.text == text && this.owner == owner
    {
      this.text := text;
      this.owner := owner;
    }
  }

  /** An entry's description: none, a buffer of its own, or the text inside a configuration. */
  datatype DescPointer = Nowhere | Own(buf: DescBuffer) | Inside(config: BlkConfig)

  class IocEntry {
    var live: bool
    var ctrlno: U32
    var desc: DescPointer
    var blkp: BlkConfig?
    /** The major it was stored at. */
    ghost var major: nat

    constructor ()
      ensures !live && ctrlno == 0 && desc == Nowhere && blkp == null
    {
      live, ctrlno, desc, blkp := false, 0, Nowhere, null;
      major := 0;
    }
  }

  class Ioconf {
    const table: array<IocEntry?>
    /** Scratch structures: the C locals blkp and iocp. */
    var blkp: BlkConfig?
    var iocp: IocEntry?
    var count: nat
    /** The contents of the array, the configurations in the order they were made, and the table as a value. */
    ghost var slots: seq<IocEntry?>
    ghost var made: seq<BlkConfig>
    ghost var view: Table
    ghost var Repr: set<object>

    /** The entry at major i, and what it points at, is that of the table. */
    ghost predicate SlotOk(i: nat)
      reads this, Repr
    {
      i < |slots| ==>
        if slots[i] == null then i !in view.entries
        else
          && slots[i] in Repr && i in view.entries
          && var e, v := slots[i], view.entries[i];
             && e != iocp && e.major == i && e.live == v.live && e.ctrlno == v.ctrlno
             && v.config.Some? && v.config.value < |made| && e.blkp == made[v.config.value]
             && match e.desc {
                  case Nowhere => v.text == NoText
                  case Own(buf) => buf in Repr && buf.owner == i && v.text == OwnText(buf.text)
                  case Inside(config) => v.text == SharedText && config == e.blkp
                }
    }

    /** Configuration k is that of the table, and no scratch structure. */
    ghost predicate ConfigOk(k: nat)
      reads this, Repr
    {
      k < |made| ==>
        && made[k] in Repr && made[k] != blkp && made[k].id == k
        && k < |view.configs| && made[k].cfg == view.configs[k]
    }

    ghost predicate Linked()
      reads this, Repr
    {
      && this in Repr && table !in Repr
      && |slots| == MAX_BLKDEV + 1 == table.Length && |made| == |view.configs| && Ok(view)
      && (blkp != null ==> blkp in Repr) && (iocp != null ==> iocp in Repr)
      && (forall i: nat :: SlotOk(i))
      && (forall k: nat :: ConfigOk(k))
    }

    ghost predicate Valid()
      reads this, Repr, table
    {
      Linked() && table[..] == slots
    }

    /** Everything the table is made of is memory in use. */
    ghost predicate Backed(heap: Allocator)
      reads this, heap
    {
      heap !in Repr && Repr - {this} <= heap.inUse
    }

    /** The number of scratch structures at hand. */
    ghost function Spare(): (n: nat)
      reads this
    {
      (if blkp == null then 0 else 1) + if iocp == null then 0 else 1
    }

    /** Scratch structures at hand and cleared. */
    ghost predicate Prepared()
      reads this, blkp, iocp
    {
      && blkp != null && blkp.cfg == BLANK
      && iocp != null && !iocp.live && iocp.desc == Nowhere && iocp.blkp == null
    }

    constructor ()
      ensures Valid() && Repr == {this} && fresh(table) && view == EMPTY && made == [] && count == 0 && Spare() == 0
    {
      table := new IocEntry?[MAX_BLKDEV + 1](_ => null);
      slots := seq(MAX_BLKDEV + 1, _ => null);
      made, view := [], EMPTY;
      blkp, iocp, count := null, null, 0;
      new;
      Repr := {this};
      assert EMPTY == After([]);
      AfterOk([]);
    }

    method PrepareConfig(heap: Allocator)
      requires Valid() && Backed(heap)
      modifies this`blkp, this`Repr, blkp, heap
      ensures Valid() && Backed(heap) && fresh(Repr - old(Repr)) && blkp != null && blkp.cfg == BLANK
      ensures Grown(old(heap.inUse), heap.inUse, Spare() - old(Spare()))
    {
      if blkp == null {
        blkp := new BlkConfig();
        heap.Take(blkp);
        Repr := Repr + {blkp};
      } else {
        blkp.cfg := BLANK;
      }
      forall i: nat
        ensures SlotOk(i) && ConfigOk(i)
      {
        assert old(SlotOk(i)) && old(ConfigOk(i));
      }
    }

    method PrepareEntry(heap: Allocator)
      requires Valid() && Backed(heap)
      modifies this`iocp, this`Repr, iocp, heap
      ensures Valid() && Backed(heap) && fresh(Repr - old(Repr))
      ensures Grown(old(heap.inUse), heap.inUse, Spare() - old(Spare()))
      ensures iocp != null && !iocp.live && iocp.desc == Nowhere && iocp.blkp == null
    {
      if iocp == null {
        iocp := new IocEntry();
        heap.Take(iocp);
        Repr := Repr + {iocp};
      } else {
        iocp.live, iocp.ctrlno, iocp.desc, iocp.blkp := false, 0, Nowhere, null;
      }
      forall i: nat
        ensures SlotOk(i) && ConfigOk(i)
      {
        assert old(SlotOk(i)) && old(ConfigOk(i));
      }
    }

    /** Makes sure that cleared scratch structures are at hand. */
    method Prepare(heap: Allocator)
      requires Valid() && Backed(heap)
      modifies this`blkp, this`iocp, this`Repr, blkp, iocp, heap
      ensures Valid() && Prepared() && Backed(heap) && fresh(Repr - old(Repr))
      ensures Grown(old(heap.inUse), heap.inUse, Spare() - old(Spare()))
    {
      PrepareConfig(heap);
      PrepareEntry(heap);
    }

    /** The controller number goes to the scratch entry even if the line comes to nothing. */
    method Number(ctrl: U32)
      requires Valid() && iocp != null
      modifies iocp`ctrlno
      ensures Valid() && iocp.ctrlno == ctrl
    {
      iocp.ctrlno := ctrl;
      forall i: nat
        ensures SlotOk(i) && ConfigOk(i)
      {
        assert old(SlotOk(i)) && old(ConfigOk(i));
      }
    }

    /** The description of an indirect record: its own, or that of the configuration. */
    method Describe(l: Line, c: BlkConfig, heap: Allocator)
      requires Valid() && l.Indirect? && iocp != null && Backed(heap)
      modifies this`Repr, iocp`desc, heap
      ensures Valid() && Backed(heap) && fresh(Repr - old(Repr))
      ensures Grown(old(heap.inUse), heap.inUse, if l.desc == None then 0 else 1)
      ensures if l.desc == None then iocp.desc == Inside(c)
              else iocp.desc.Own? && iocp.desc.buf in Repr && iocp.desc.buf.owner == l.major
                   && iocp.desc.buf.text == Clip(l.desc.value)
    {
      if l.desc == None {
        iocp.desc := Inside(c);
      } else {
        var buf := new DescBuffer(Clip(l.desc.value), l.major);
        iocp.desc := Own(buf);
        heap.Take(buf);
        Repr := Repr + {buf};
      }
      forall i: nat
        ensures SlotOk(i) && ConfigOk(i)
      {
        assert old(SlotOk(i)) && old(ConfigOk(i));
      }
    }

    /** Stores the scratch entry of an indirect record, and only then looks for the configuration. */
    method Store(l: Line)
      requires Valid() && l.InRange() && l.Indirect? && Stores(l, view)
      requires iocp != null && !iocp.live && iocp.blkp == null && iocp.ctrlno == l.ctrl
      requires if l.desc == None then
                 iocp.desc.Inside? && slots[l.indirect] != null && iocp.desc.config == slots[l.indirect].blkp
               else iocp.desc.Own? && iocp.desc.buf in Repr && iocp.desc.buf.owner == l.major
                    && iocp.desc.buf.text == Clip(l.desc.value)
      modifies this`iocp, this`slots, this`view, table, iocp`blkp, iocp`major
      ensures iocp == null
      ensures view == Step(old(view), l)
      ensures !SelfReference(l, old(view)) ==> Valid()
      ensures SelfReference(l, old(view)) ==> table[l.major] != null && table[l.major].blkp == null
    {
      assert SlotOk(l.indirect);
      StepOk(view, l);
      table[l.major] := iocp;
      iocp.blkp := table[l.indirect].blkp;
      iocp.major := l.major;
      slots, view, iocp := slots[l.major := iocp], Step(view, l), null;
      if l.major != l.indirect {
        forall i: nat
          ensures SlotOk(i) && ConfigOk(i)
        {
          assert old(SlotOk(i)) && old(ConfigOk(i));
        }
      }
    }

    /**
     An indirect record.  Since the entry is stored before its configuration is looked up, a record
     that refers to its own known major ends up without one.
     */
    method AddIndirect(l: Line, heap: Allocator)
      requires Valid() && Prepared() && l.Indirect? && l.InRange() && Backed(heap)
      modifies this, table, iocp, heap
      ensures fresh(Repr - old(Repr)) && view == Step(old(view), l) && count == old(count) && Backed(heap)
      ensures Grown(old(heap.inUse), heap.inUse, Stored(l, old(view)) + Spare() - old(Spare()))
      ensures !SelfReference(l, old(view)) ==> Valid()
      ensures SelfReference(l, old(view)) ==> table[l.major] != null && table[l.major].blkp == null
    {
      Number(l.ctrl);
      assert SlotOk(l.indirect);
      if l.indirect == 0 || l.indirect >= MAX_BLKDEV || table[l.indirect] == null {
        return;
      }
      Describe(l, table[l.indirect].blkp, heap);
      Store(l);
    }

    /** An exception record decorates the configuration of a known major, unless it has one already. */
    method AddException(l: Line)
      requires Valid() && l.InRange() && l.Exception() && 0 < l.major < MAX_BLKDEV && slots[l.major] != null
      modifies this`view, slots[l.major].blkp
      ensures Valid() && view == Step(old(view), l)
    {
      assert SlotOk(l.major);
      ghost var k := view.entries[l.major].config.value;
      assert ConfigOk(k);
      StepOk(view, l);
      var xblkp := table[l.major].blkp;
      if xblkp.cfg.ext == None {
        xblkp.cfg := xblkp.cfg.(ext := Some((l.record.ctrlno, l.record.name)));
      }
      view := Step(view, l);
      forall i: nat
        ensures SlotOk(i) && ConfigOk(i)
      {
        assert old(SlotOk(i)) && old(ConfigOk(i));
      }
    }

    /** A full record gets a live entry with a configuration of its own. */
    method AddDirect(l: Line)
      requires Valid() && Prepared() && l.InRange() && l.Full? && Stores(l, view)
      modifies this, table, iocp, blkp
      ensures Valid() && view == Step(old(view), l) && count == old(count) + 1 && Repr == old(Repr) && Spare() == 0
    {
      blkp.cfg := Cook(l.record);
      blkp.id := |made|;
      iocp.ctrlno, iocp.live, iocp.blkp := l.record.ctrlno, true, blkp;
      forall i: nat
        ensures SlotOk(i) && ConfigOk(i)
      {
        assert old(SlotOk(i)) && old(ConfigOk(i));
      }
      StoreLive(l);
    }

    /** Stores the scratch entry of a full record. */
    method StoreLive(l: Line)
      requires Valid() && l.InRange() && l.Full? && Stores(l, view)
      requires blkp != null && blkp.cfg == Cook(l.record) && blkp.id == |made|
      requires iocp != null && iocp.live && iocp.ctrlno == l.record.ctrlno && iocp.desc == Nowhere && iocp.blkp == blkp
      modifies this`iocp, this`blkp, this`count, this`slots, this`made, this`view, table, iocp`major
      ensures Valid() && view == Step(old(view), l) && count == old(count) + 1 && Spare() == 0
    {
      StepOk(view, l);
      iocp.major := l.major;
      table[l.major] := iocp;
      slots, made, view := slots[l.major := iocp], made + [blkp], Step(view, l);
      blkp, iocp, count := null, null, count + 1;
      forall i: nat
        ensures SlotOk(i) && ConfigOk(i)
      {
        assert old(SlotOk(i)) && old(ConfigOk(i));
      }
    }

    lemma ConfigInRepr(i: nat)
      requires Linked()
      ensures i < |slots| && slots[i] != null ==> slots[i] in Repr && slots[i].blkp in Repr && slots[i].blkp != null
    {
      assert SlotOk(i);
      if i < |slots| && slots[i] != null {
        assert ConfigOk(view.entries[i].config.value);
      }
    }

    method AddFull(l: Line)
      requires Valid() && Prepared() && l.InRange() && l.Full?
      modifies this, table, iocp, blkp, if l.major < MAX_BLKDEV && slots[l.major] != null then {slots[l.major].blkp}
                                        else {}
      ensures Valid() && view == Step(old(view), l) && Repr == old(Repr)
      ensures count == old(count) + if Stores(l, old(view)) then 1 else 0
      ensures Stored(l, old(view)) + Spare() == old(Spare())
    {
      Number(l.record.ctrlno);
      if l.major == 0 || l.major >= MAX_BLKDEV {
        return;
      }
      assert SlotOk(l.major);
      if l.Exception() {
        if table[l.major] != null {
          AddException(l);
        }
      } else {
        AddDirect(l);
      }
    }

    /** One line of the file. */
    method ProcessLine(l: Line, heap: Allocator)
      requires Valid() && l.InRange() && !SelfReference(l, view) && Backed(heap)
      modifies Repr, table, heap
      ensures Valid() && Backed(heap) && fresh(Repr - old(Repr))
      ensures Grown(old(heap.inUse), heap.inUse, Stored(l, old(view)) + Spare() - old(Spare()))
      ensures view == Step(old(view), l)
      ensures count == old(count) + if l.Full? && Stores(l, old(view)) then 1 else 0
    {
      if l.Comment? {
        return;
      }
      Prepare(heap);
      match l {
        case Malformed =>
        case Indirect(_, _, _, _) =>
          AddIndirect(l, heap);
        case Full(major, _) =>
          ConfigInRepr(major);
          AddFull(l);
      }
    }

    /** Scratch structures that nothing has taken over are freed in the end. */
    method Drop(heap: Allocator)
      requires Valid() && Backed(heap)
      modifies this`blkp, this`iocp, this`Repr, heap
      ensures Valid() && Backed(heap) && Repr <= old(Repr)
      ensures heap.inUse <= old(heap.inUse) && old(heap.inUse) - heap.inUse <= old(Repr) - {this}
      ensures |heap.inUse| + old(Spare()) == |old(heap.inUse)|
    {
      DropConfig(heap);
      DropEntry(heap);
    }

    method DropConfig(heap: Allocator)
      requires Valid() && Backed(heap)
      modifies this`blkp, this`Repr, heap
      ensures Valid() && Backed(heap) && blkp == null && Repr == old(Repr) - {old(blkp)}
      ensures heap.inUse == old(heap.inUse) - {old(blkp)}
      ensures |heap.inUse| + (if old(blkp) == null then 0 else 1) == |old(heap.inUse)|
    {
      if blkp != null {
        heap.Free(blkp);
      }
      Repr, blkp := Repr - {blkp}, null;
      forall i: nat
        ensures SlotOk(i) && ConfigOk(i)
      {
        assert old(SlotOk(i)) && old(ConfigOk(i));
      }
    }

    method DropEntry(heap: Allocator)
      requires Valid() && Backed(heap)
      modifies this`iocp, this`Repr, heap
      ensures Valid() && Backed(heap) && iocp == null && Repr == old(Repr) - {old(iocp)}
      ensures heap.inUse == old(heap.inUse) - {old(iocp)}
      ensures |heap.inUse| + (if old(iocp) == null then 0 else 1) == |old(heap.inUse)|
    {
      if iocp != null {
        heap.Free(iocp);
      }
      Repr, iocp := Repr - {iocp}, null;
      forall i: nat
        ensures SlotOk(i) && ConfigOk(i)
      {
        assert old(SlotOk(i)) && old(ConfigOk(i));
      }
    }

    /**
     Parses a whole file: the table is the one its lines describe, and the result counts the configurations made.
     What it has allocated is what the table is made of, and what is stranded.
     */
    method Init(lines: seq<Line>, heap: Allocator) returns (n: nat)
      requires Valid() && Backed(heap) && view == EMPTY && count == 0 && Repr == {this}
      requires AllInRange(lines) && NoSelfReference(lines)
      modifies this, table, heap
      ensures Valid() && Backed(heap) && fresh(Repr - old(Repr))
      ensures view == After(lines) && n == |view.configs|
      ensures Grown(old(heap.inUse), heap.inUse, Kept(view, MAX_BLKDEV) + Stranded(lines))
    {
      ghost var before := heap.inUse;
      NoneKept(MAX_BLKDEV);
      for i := 0 to |lines|
        invariant Valid() && Backed(heap) && fresh(Repr - {this}) && before !! (Repr - {this})
        invariant view == After(lines[..i]) && count == |view.configs|
        invariant Grown(before, heap.inUse, Kept(view, MAX_BLKDEV) + Stranded(lines[..i]) + Spare())
      {
        OneMore(lines, i);
        KeptOrStranded(lines, i);
        ProcessLine(lines[i], heap);
      }
      assert lines[..|lines|] == lines;
      Drop(heap);
      n := count;
    }

    /** What the table answers to a request for a name. */
    method Lookup(out: array<char>, major: U32, minor: U32) returns (a: Answer)
      requires Valid() && out.Length == ROOM + 1 && out !in Repr
      modifies out
      ensures a == Answered(view, major, minor)
    {
      if major >= MAX_BLKDEV || minor >= IOC_MAXMINOR {
        return NoAnswer;
      }
      assert SlotOk(major);
      if table[major] == null {
        return Named("nodev");
      }
      ghost var k := view.entries[major].config.value;
      assert ConfigOk(k);
      a := Name(out, table[major].blkp.cfg, table[major].ctrlno, minor);
    }

    // ---------- Releasing the table ----------

    /** Entries have nothing in common that would be freed with them. */
    lemma Apart(i: nat, k: nat)
      requires Linked() && i < |slots| && k < |slots| && i != k
      ensures Block(slots[i]) !! Block(slots[k])
    {
      assert SlotOk(i) && SlotOk(k) && EntryOk(view, i) && EntryOk(view, k);
      if slots[i] != null && slots[k] != null {
        SameConfig(i, k);
      }
    }

    /** Entries with the same configuration object have the same configuration number. */
    lemma SameConfig(i: nat, j: nat)
      requires Linked() && i < |slots| && j < |slots| && slots[i] != null && slots[j] != null
      ensures slots[i] in Repr && slots[j] in Repr && i in view.entries && j in view.entries
      ensures slots[i].blkp == slots[j].blkp ==> view.entries[i].config == view.entries[j].config
    {
      assert SlotOk(i) && SlotOk(j);
      assert ConfigOk(view.entries[i].config.value) && ConfigOk(view.entries[j].config.value);
    }

    /** What is freed with an entry belongs to the table, and is as much as the entry weighs. */
    lemma BlockSize(i: nat)
      requires Linked() && i < |slots|
      ensures Block(slots[i]) <= Repr - {this}
      ensures |Block(slots[i])| == if i in view.entries then Weight(view.entries[i]) else 0
    {
      EntryShape(i);
      ConfigInRepr(i);
      assert SlotOk(i) && EntryOk(view, i);
    }

    /** Neither the entries before it nor those of the other kind have anything in common with an entry. */
    lemma {:induction false} ApartFromAll(i: nat, n: nat, live: bool)
      requires Linked() && i < |slots| && n <= |slots|
      requires n <= i || (slots[i] != null && slots[i].live != live)
      ensures Blocks(slots, n, live) !! Block(slots[i])
    {
      if n > 0 {
        ApartFromAll(i, n - 1, live);
        if n - 1 != i {
          Apart(i, n - 1);
        }
      }
    }

    lemma {:induction false} KindsApart(n: nat, m: nat)
      requires Linked() && n <= m <= |slots|
      ensures Blocks(slots, n, true) !! Blocks(slots, m, false)
    {
      if n > 0 {
        KindsApart(n - 1, m);
        if slots[n - 1] != null && slots[n - 1].live {
          ApartFromAll(n - 1, m, false);
        }
      }
    }

    lemma {:induction false} BlocksInRepr(n: nat, live: bool)
      requires Linked() && n <= |slots|
      ensures Blocks(slots, n, live) <= Repr - {this}
    {
      if n > 0 {
        BlocksInRepr(n - 1, live);
        BlockSize(n - 1);
      }
    }

    /** What is freed is as much as the table keeps. */
    lemma {:induction false} BlocksSize(n: nat)
      requires Linked() && n <= |slots|
      ensures |Blocks(slots, n, false)| + |Blocks(slots, n, true)| == Kept(view, n)
    {
      if n > 0 {
        BlocksSize(n - 1);
        OneMoreOfBoth(n - 1);
      }
    }

    lemma OneMoreOfBoth(i: nat)
      requires Linked() && i < |slots|
      ensures |Blocks(slots, i + 1, false)| + |Blocks(slots, i + 1, true)|
              == |Blocks(slots, i, false)| + |Blocks(slots, i, true)|
                 + if i in view.entries then Weight(view.entries[i]) else 0
    {
      BlockSize(i);
      EntryShape(i);
      if slots[i] != null {
        OneMoreSize(i, slots[i].live);
      }
    }

    lemma OneMoreSize(i: nat, live: bool)
      requires Linked() && i < |slots| && slots[i] != null && slots[i].live == live
      ensures |Blocks(slots, i + 1, live)| == |Blocks(slots, i, live)| + |Block(slots[i])|
      ensures Blocks(slots, i + 1, !live) == Blocks(slots, i, !live)
    {
      ApartFromAll(i, i, live);
    }

    /** What is left in the table while it is being released. */
    ghost predicate LeftFrom(n: nat, live: bool)
      reads this, Repr, table
      requires Linked() && n <= |slots|
    {
      forall k :: 0 <= k < |slots| ==>
        table[k] == if slots[k] != null && InRepr(k)
                       && (if slots[k].live then live && k < n else live || k < n) then null
                    else slots[k]
    }

    ghost predicate InRepr(k: nat)
      reads this
      requires k < |slots|
    {
      slots[k] in Repr
    }

    /** An entry that is not live has a description, and a live one has none of its own. */
    lemma EntryShape(i: nat)
      requires Linked()
      ensures i < |slots| && slots[i] != null ==>
                && slots[i] in Repr && slots[i].blkp != null && (slots[i].live ==> slots[i].desc == Nowhere)
                && (!slots[i].live ==> slots[i].desc.Own? || slots[i].desc == Inside(slots[i].blkp))
      ensures i < |slots| ==> (slots[i] != null <==> i in view.entries)
    {
      assert SlotOk(i) && EntryOk(view, i);
    }

    /** The array has one element more than there are majors. */
    lemma NothingAtEnd()
      requires Linked()
      ensures slots[MAX_BLKDEV] == null
    {
      assert SlotOk(MAX_BLKDEV) && EntryOk(view, MAX_BLKDEV);
    }

    /** First the entries that are not live, with their own descriptions. */
    method ReleaseIndirect(heap: Allocator)
      requires Valid() && Backed(heap)
      modifies table, heap
      ensures Linked() && LeftFrom(0, true)
      ensures heap.inUse == old(heap.inUse) - Blocks(slots, MAX_BLKDEV, false)
    {
      NothingAtEnd();
      BlocksInRepr(MAX_BLKDEV, false);
      for i := 0 to MAX_BLKDEV
        invariant Linked() && LeftFrom(i, false)
        invariant heap.inUse == old(heap.inUse) - Blocks(slots, i, false)
      {
        BlocksGrow(slots, i + 1, MAX_BLKDEV, false);
        BlocksGrow(slots, i, i + 1, false);
        ReleaseOne(i, false, heap);
      }
    }

    /** Then the live ones, with their configurations. */
    method ReleaseLive(heap: Allocator)
      requires Linked() && LeftFrom(0, true) && heap !in Repr && Blocks(slots, MAX_BLKDEV, true) <= heap.inUse
      modifies table, heap
      ensures Linked() && LeftFrom(MAX_BLKDEV, true)
      ensures heap.inUse == old(heap.inUse) - Blocks(slots, MAX_BLKDEV, true)
    {
      NothingAtEnd();
      for i := 0 to MAX_BLKDEV
        invariant Linked() && LeftFrom(i, true)
        invariant heap.inUse == old(heap.inUse) - Blocks(slots, i, true)
      {
        BlocksGrow(slots, i + 1, MAX_BLKDEV, true);
        BlocksGrow(slots, i, i + 1, true);
        ReleaseOne(i, true, heap);
      }
    }

    /** The entry of one major, if it is of this kind. */
    method ReleaseOne(i: nat, live: bool, heap: Allocator)
      requires Linked() && i < MAX_BLKDEV && LeftFrom(i, live) && heap !in Repr
      requires Blocks(slots, i + 1, live) - Blocks(slots, i, live) <= heap.inUse
      modifies table, heap
      ensures Linked() && LeftFrom(i + 1, live)
      ensures heap.inUse == old(heap.inUse) - (Blocks(slots, i + 1, live) - Blocks(slots, i, live))
    {
      var p := table[i];
      EntryShape(i);
      ApartFromAll(i, i, live);
      if p != null && p.live == live {
        assert Blocks(slots, i + 1, live) - Blocks(slots, i, live) == Block(p);
        FreeEntry(p, heap);
        table[i] := null;
      }
    }

    /** The configurations among what is freed are those that have an owner. */
    lemma FreedHaveOwners(k: nat)
      requires Linked() && k < |made|
      ensures made[k] in Repr - {this} && made[k] !in Blocks(slots, MAX_BLKDEV, false)
      ensures made[k] in Blocks(slots, MAX_BLKDEV, true) <==> HasOwner(view, k)
    {
      assert ConfigOk(k);
      forall i: nat | i < |slots|
        ensures made[k] in Block(slots[i])
                <==> i in view.entries && view.entries[i].live && view.entries[i].config == Some(k)
        ensures slots[i] != null ==> i in view.entries && slots[i].live == view.entries[i].live
      {
        OwnsIff(i, k);
      }
      if made[k] in Blocks(slots, MAX_BLKDEV, true) {
        WhereFrom(slots, MAX_BLKDEV, true, made[k]);
      }
      if made[k] in Blocks(slots, MAX_BLKDEV, false) {
        WhereFrom(slots, MAX_BLKDEV, false, made[k]);
      }
      if HasOwner(view, k) {
        var m :| m in view.entries && view.entries[m].live && view.entries[m].config == Some(k);
        assert EntryOk(view, m);
        InBlocks(slots, MAX_BLKDEV, true, m);
      }
    }

    lemma OwnsIff(i: nat, k: nat)
      requires Linked() && i < |slots| && k < |made|
      ensures made[k] in Block(slots[i])
              <==> i in view.entries && view.entries[i].live && view.entries[i].config == Some(k)
      ensures slots[i] != null ==> slots[i] in Repr && i in view.entries && slots[i].live == view.entries[i].live
    {
      EntryShape(i);
      assert ConfigOk(k) && SlotOk(i);
      if slots[i] != null {
        assert ConfigOk(view.entries[i].config.value);
      }
    }

    /** What is freed. */
    ghost function Freed(): (s: set<object>)
      reads this, slots
      requires |slots| > MAX_BLKDEV
    {
      Blocks(slots, MAX_BLKDEV, false) + Blocks(slots, MAX_BLKDEV, true)
    }

    lemma FreedFacts()
      requires Linked()
      ensures Freed() <= Repr - {this} && |Freed()| == Kept(view, MAX_BLKDEV)
      ensures Blocks(slots, MAX_BLKDEV, true) !! Blocks(slots, MAX_BLKDEV, false)
      ensures forall k :: 0 <= k < |made| ==> made[k] in Repr - {this} && (made[k] in Freed() <==> HasOwner(view, k))
    {
      BlocksSize(MAX_BLKDEV);
      KindsApart(MAX_BLKDEV, MAX_BLKDEV);
      BlocksInRepr(MAX_BLKDEV, false);
      BlocksInRepr(MAX_BLKDEV, true);
      forall k | 0 <= k < |made|
        ensures made[k] in Repr - {this} && (made[k] in Freed() <==> HasOwner(view, k))
      {
        FreedHaveOwners(k);
      }
    }

    /**
     Releases the table.  All entries in it are freed, with their own descriptions, and of the configurations exactly
     those that a live entry owns.  Since only memory in use can be freed, nothing is freed twice.
     */
    method Release(heap: Allocator)
      requires Valid() && Backed(heap)
      modifies this`slots, this`made, this`view, table, heap
      ensures Valid() && view == EMPTY
      ensures heap.inUse == old(heap.inUse - Freed()) && old(Freed()) <= Repr - {this}
      ensures |heap.inUse| + Kept(old(view), MAX_BLKDEV) == |old(heap.inUse)|
      ensures forall k :: 0 <= k < |old(made)| ==> (old(made)[k] in heap.inUse <==> !HasOwner(old(view), k))
    {
      FreedFacts();
      ReleaseEntries(heap);
      Clear();
    }

    /** The release of a table that has been parsed, when there were these blocks before. */
    method ReleaseParsed(ghost lines: seq<Line>, heap: Allocator, ghost before: set<object>)
      requires Valid() && Backed(heap) && AllInRange(lines) && view == After(lines) && before !! (Repr - {this})
      requires Grown(before, heap.inUse, Kept(view, MAX_BLKDEV) + Stranded(lines))
      modifies this`slots, this`made, this`view, table, heap
      ensures Valid() && view == EMPTY
      ensures Grown(before, heap.inUse, Stranded(lines)) && (heap.inUse == before <==> EachMajorOnce(lines))
      ensures forall k :: 0 <= k < |old(made)| ==> (old(made)[k] in heap.inUse <==> Superseded(lines, k))
    {
      ghost var parsed, kept := heap.inUse, Kept(view, MAX_BLKDEV);
      forall k | 0 <= k < |made|
        ensures HasOwner(view, k) <==> !Superseded(lines, k)
      {
        SupersededIff(lines, k);
      }
      Release(heap);
      GrownLess(before, parsed, heap.inUse, kept + Stranded(lines), kept);
      GrownNot(before, heap.inUse, Stranded(lines));
      StrandedIff(lines);
    }

    /** The configurations are those of the table as a value. */
    lemma ConfigsAsMade()
      requires Linked()
      ensures |made| == |view.configs|
      ensures forall k :: 0 <= k < |made| ==>
                made[k] in Repr - {this} && made[k].id == k && made[k].cfg == view.configs[k]
    {
      forall k | 0 <= k < |made|
        ensures made[k] in Repr - {this} && made[k].id == k && made[k].cfg == view.configs[k]
      {
        assert ConfigOk(k);
      }
    }

    /** Both kinds of entries. */
    method ReleaseEntries(heap: Allocator)
      requires Valid() && Backed(heap)
      modifies table, heap
      ensures Linked() && LeftFrom(MAX_BLKDEV, true) && heap.inUse == old(heap.inUse - Freed())
    {
      KindsApart(MAX_BLKDEV, MAX_BLKDEV);
      BlocksInRepr(MAX_BLKDEV, true);
      ReleaseIndirect(heap);
      ReleaseLive(heap);
    }

    /** All entries have been released. */
    method Clear()
      requires Linked() && LeftFrom(MAX_BLKDEV, true)
      modifies this`slots, this`made, this`view
      ensures Valid() && view == EMPTY
    {
      NothingAtEnd();
      forall k | 0 <= k < table.Length
        ensures table[k] == null
      {
        assert SlotOk(k);
      }
      slots, made, view := seq(MAX_BLKDEV + 1, _ => null), [], EMPTY;
      AfterOk([]);
      forall i: nat
        ensures SlotOk(i) && ConfigOk(i)
      {
      }
    }
  }

  /** What is freed with an entry: a configuration with a live one, a description of its own with another. */
  ghost function Block(e: IocEntry?): (s: set<object>)
    reads e
  {
    if e == null then {}
    else if e.live then {e} + if e.blkp == null then {} else var c: BlkConfig := e.blkp; {c}
    else {e} + if e.desc.Own? then {e.desc.buf} else {}
  }

  /** What is freed with the first n entries, as far as they are live, or not. */
  ghost function Blocks(es: seq<IocEntry?>, n: nat, live: bool): (s: set<object>)
    reads es
    requires n <= |es|
    decreases |es|, n
  {
    if n == 0 then {}
    else Blocks(es, n - 1, live) + if es[n - 1] != null && es[n - 1].live == live then Block(es[n - 1]) else {}
  }

  lemma {:induction false} BlocksGrow(es: seq<IocEntry?>, i: nat, n: nat, live: bool)
    requires i <= n <= |es|
    ensures Blocks(es, i, live) <= Blocks(es, n, live)
  {
    if i < n {
      BlocksGrow(es, i, n - 1, live);
    }
  }

  lemma {:induction false} InBlocks(es: seq<IocEntry?>, n: nat, live: bool, i: nat)
    requires i < n <= |es|
    ensures es[i] != null && es[i].live == live ==> Block(es[i]) <= Blocks(es, n, live)
  {
    if i < n - 1 {
      InBlocks(es, n - 1, live, i);
    }
  }

  lemma {:induction false} WhereFrom(es: seq<IocEntry?>, n: nat, live: bool, o: object)
    requires n <= |es| && o in Blocks(es, n, live)
    ensures exists i :: 0 <= i < n && es[i] != null && es[i].live == live && o in Block(es[i])
  {
    if o !in (if es[n - 1] != null && es[n - 1].live == live then Block(es[n - 1]) else {}) {
      WhereFrom(es, n - 1, live, o);
    }
  }

  /** Frees one entry. */
  method FreeEntry(p: IocEntry, heap: Allocator)
    requires p.blkp != null && (p.live || p.desc.Own? || p.desc == Inside(p.blkp)) && Block(p) <= heap.inUse
    modifies heap
    ensures heap.inUse == old(heap.inUse) - Block(p)
  {
    if p.live {
      heap.Free(p.blkp);
    } else if p.desc != Inside(p.blkp) {
      heap.Free(p.desc.buf);
    }
    heap.Free(p);
  }

  /**
   From a file to what is released: of the memory that parsing allocates, releasing the table gives back everything
   but what is stranded.  A configuration stays if and only if a later line stores an entry for the major of the
   line that made it; and everything is given back if and only if no line does that.
   */
  method ParseAndRelease(lines: seq<Line>, heap: Allocator) returns (t: Ioconf, ghost made: seq<BlkConfig>)
    requires AllInRange(lines) && NoSelfReference(lines)
    modifies heap
    ensures Grown(old(heap.inUse), heap.inUse, Stranded(lines))
    ensures heap.inUse == old(heap.inUse) <==> EachMajorOnce(lines)
    ensures |made| == |After(lines).configs|
    ensures forall k :: 0 <= k < |made| ==>
              fresh(made[k]) && made[k].id == k && made[k].cfg == After(lines).configs[k]
              && (made[k] in heap.inUse <==> Superseded(lines, k))
  {
    t := new Ioconf();
    ghost var before := heap.inUse;
    var n := t.Init(lines, heap);
    made := t.made;
    t.ConfigsAsMade();
    t.ReleaseParsed(lines, heap, before);
  }

  /**
   From a file to a name, for the first request: the answer is that of the table the lines describe,
   but a file without any configuration counts as not parsed, and then there is none.
   */
  method ParseAndName(lines: seq<Line>, major: U32, minor: U32) returns (a: Answer)
    requires AllInRange(lines) && NoSelfReference(lines)
    ensures a == if After(lines).configs == [] then NoAnswer else Answered(After(lines), major, minor)
  {
    var t := new Ioconf();
    var heap := new Allocator();
    var n := t.Init(lines, heap);
    if n == 0 {
      return NoAnswer;
    }
    var out := new char[ROOM + 1];
    a := t.Lookup(out, major, minor);
  }
}
