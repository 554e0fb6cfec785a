/** The list in which the event monitor remembers the wireless interfaces it has met. */
module IwCache {
  import opened Common

  /** What is remembered of an interface. */
  datatype Entry = Entry(ifindex: int, ifname: string, hasRange: bool)

  /**
   The answers of the system when a new interface is looked up; the name is missing when the kernel does not know
   the index.
   */
  datatype System = System(socketOpens: bool, memoryLeft: bool, name: Option<string>, hasRange: bool)
  {
    predicate Succeeds() {
      socketOpens && memoryLeft && name.Some?
    }
  }

  predicate Known(es: seq<Entry>, ifindex: int) {
    exists i :: 0 <= i < |es| && es[i].ifindex == ifindex
  }

  predicate Distinct(es: seq<Entry>) {
    forall i, k :: 0 <= i < k < |es| ==> es[i].ifindex != es[k].ifindex
  }

  /** The entries with other indexes, in the same order. */
  function Without(es: seq<Entry>, ifindex: int): (r: seq<Entry>)
    ensures |r| <= |es|
  {
    if es == [] then []
    else
      var n := |es| - 1;
      Without(es[..n], ifindex) + if es[n].ifindex == ifindex then [] else [es[n]]
  }

  lemma RemoveAt(es: seq<Entry>, k: nat)
    requires k < |es| && Distinct(es)
    ensures Distinct(es[..k] + es[k + 1..])
  {
  }

  /** The first i entries of `was` have been dealt with; k of them are still at the front of `es`. */
  ghost predicate Dealt(was: seq<Entry>, i: nat, es: seq<Entry>, k: nat, ifindex: int) {
    && i <= |was| && k <= |es|
    && es[..k] == Without(was[..i], ifindex) && es[k..] == was[i..]
  }

  lemma DealtOneMore(was: seq<Entry>, i: nat, es: seq<Entry>, k: nat, ifindex: int)
    requires Dealt(was, i, es, k, ifindex) && i < |was|
    ensures k < |es| && es[k] == was[i]
    ensures es[k].ifindex == ifindex ==> Dealt(was, i + 1, es[..k] + es[k + 1..], k, ifindex)
    ensures es[k].ifindex != ifindex ==> Dealt(was, i + 1, es, k + 1, ifindex)
  {
    assert es[k] == es[k..][0];
    assert was[..i + 1][..i] == was[..i];
    assert was[i + 1..] == es[k + 1..];
    if es[k].ifindex == ifindex {
      assert (es[..k] + es[k + 1..])[..k] == es[..k] && (es[..k] + es[k + 1..])[k..] == es[k + 1..];
    } else {
      assert es[..k + 1] == es[..k] + [es[k]];
    }
  }

  // ---------- The list as a map ----------

  function AsMap(es: seq<Entry>): (m: map<int, Entry>) {
    if es == [] then map[] else AsMap(es[..|es| - 1])[es[|es| - 1].ifindex := es[|es| - 1]]
  }

  lemma {:induction false} AsMapKnows(es: seq<Entry>, ifindex: int)
    requires Distinct(es)
    ensures ifindex in AsMap(es) <==> Known(es, ifindex)
    ensures forall i :: 0 <= i < |es| ==> es[i].ifindex in AsMap(es) && AsMap(es)[es[i].ifindex] == es[i]
  {
    if es != [] {
      var n := |es| - 1;
      AsMapKnows(es[..n], ifindex);
      assert forall i :: 0 <= i < n ==> es[..n][i] == es[i];
      if Known(es, ifindex) {
        var i :| 0 <= i < |es| && es[i].ifindex == ifindex;
        assert i < n ==> es[..n][i].ifindex == ifindex;
      }
    }
  }

  /** Putting a new entry in front adds it to the map. */
  lemma {:induction false} AsMapFront(e: Entry, es: seq<Entry>)
    requires !Known(es, e.ifindex)
    ensures AsMap([e] + es) == AsMap(es)[e.ifindex := e]
  {
    if es == [] {
      assert ([e] + es)[..0] == [];
    } else {
      var n := |es| - 1;
      assert ([e] + es)[..n + 1] == [e] + es[..n];
      assert !Known(es[..n], e.ifindex) by {
        assert forall i :: 0 <= i < n ==> es[..n][i] == es[i];
      }
      AsMapFront(e, es[..n]);
      assert es[n].ifindex != e.ifindex;
    }
  }

  /** Taking the entries of an index out of the list takes the index out of the map. */
  lemma {:induction false} AsMapWithout(es: seq<Entry>, ifindex: int)
    ensures AsMap(Without(es, ifindex)) == AsMap(es) - {ifindex}
  {
    if es != [] {
      var n := |es| - 1;
      AsMapWithout(es[..n], ifindex);
      var m, e := AsMap(es[..n]), es[n];
      if e.ifindex == ifindex {
        assert m[ifindex := e] - {ifindex} == m - {ifindex};
        assert Without(es, ifindex) == Without(es[..n], ifindex);
      } else {
        assert m[e.ifindex := e] - {ifindex} == (m - {ifindex})[e.ifindex := e];
        assert Without(es, ifindex)[..|Without(es, ifindex)| - 1] == Without(es[..n], ifindex);
      }
    }
  }

  class WirelessIface {
    var ifindex: int
    var ifname: string
    var hasRange: bool
    var next: WirelessIface?

    constructor (ifindex: int, ifname: string, hasRange: bool)
      ensures this.ifindex == ifindex && this.ifname == ifname && this.hasRange == hasRange && next == null
    {
      this.ifindex, this.ifname, this.hasRange, next := ifindex, ifname, hasRange, null;
    }
  }

  class Cache {
    var head: WirelessIface?
    /** The list, as nodes and as values. */
    ghost var nodes: seq<WirelessIface>
    ghost var entries: seq<Entry>
    ghost var Repr: set<object>

    /** The node that starts the list from position i. */
    ghost function NodeAt(i: nat): (n: WirelessIface?)
      reads this
    {
      if i < |nodes| then nodes[i] else null
    }

    /** The nodes are linked in order without a cycle and carry distinct indexes. */
    ghost predicate Valid()
      reads this, Repr
    {
      && (forall i :: 0 <= i < |nodes| ==> nodes[i] in Repr) && this !in Repr
      && |nodes| == |entries| && head == NodeAt(0)
      && (forall i {:trigger nodes[i].next} :: 0 <= i < |nodes| ==> nodes[i].next == NodeAt(i + 1))
      && (forall i :: 0 <= i < |nodes| ==> entries[i] == Entry(nodes[i].ifindex, nodes[i].ifname, nodes[i].hasRange))
      && Distinct(entries)
    }

    constructor ()
      ensures Valid() && entries == [] && nodes == [] && Repr == {}
    {
      head, nodes, entries, Repr := null, [], [], {};
    }

    /** Finds an interface, or asks the system and puts it in front of the list. */
    method GetInterfaceData(ifindex: int, sys: System) returns (r: WirelessIface?)
      requires Valid()
      modifies this
      ensures Valid() && fresh(Repr - old(Repr))
      ensures Known(old(entries), ifindex) || !sys.Succeeds() ==> entries == old(entries) && nodes == old(nodes)
      ensures !Known(old(entries), ifindex) && sys.Succeeds() ==>
                && fresh(r) && nodes == [r] + old(nodes)
                && entries == [Entry(ifindex, sys.name.value, sys.hasRange)] + old(entries)
      ensures r == null <==> !Known(old(entries), ifindex) && !sys.Succeeds()
      ensures r != null ==> r in nodes && r.ifindex == ifindex
    {
      var curr := head;
      ghost var i := 0;
      while curr != null
        invariant i <= |nodes| && curr == NodeAt(i)
        invariant forall k :: 0 <= k < i ==> entries[k].ifindex != ifindex
        decreases |nodes| - i
      {
        if curr.ifindex == ifindex {
          return curr;
        }
        curr := curr.next;
        i := i + 1;
      }
      if !sys.socketOpens || !sys.memoryLeft || sys.name.None? {
        return null;
      }
      r := new WirelessIface(ifindex, sys.name.value, sys.hasRange);
      r.next := head;
      head := r;
      nodes := [r] + nodes;
      Repr := Repr + {r};
      entries := [Entry(ifindex, r.ifname, r.hasRange)] + entries;
    }

    /** Unlinks the node at position k, whose predecessor is `prev`. */
    method Unlink(ghost k: nat, prev: WirelessIface?, curr: WirelessIface)
      requires Valid() && k < |nodes| && curr == nodes[k] && prev == (if k == 0 then null else nodes[k - 1])
      modifies this, prev
      ensures Valid()
      ensures Repr == old(Repr) && NodeAt(k) == old(curr.next)
      ensures k > 0 ==> k <= |nodes| && nodes[k - 1] == prev
      ensures entries == old(entries)[..k] + old(entries)[k + 1..]
    {
      ghost var ns, es := nodes, entries;
      RemoveAt(es, k);
      if prev == null {
        head := curr.next;
      } else {
        prev.next := curr.next;
      }
      nodes := ns[..k] + ns[k + 1..];
      entries := es[..k] + es[k + 1..];
      assert forall i :: 0 <= i < |nodes| ==> nodes[i] == ns[if i < k then i else i + 1];
      assert forall i :: 0 <= i < |entries| ==> entries[i] == es[if i < k then i else i + 1];
      assert forall i :: 0 <= i < |ns| && ns[i] == prev ==> es[i].ifindex == es[k - 1].ifindex;
    }

    /** Unlinks the node at position k if it is of that index, and goes on to the next one. */
    method DealWith(ghost k: nat, prev: WirelessIface?, curr: WirelessIface, ifindex: int)
      returns (prev': WirelessIface?, next: WirelessIface?, ghost k': nat)
      requires Valid() && k < |nodes| && curr == nodes[k] && prev == (if k == 0 then null else nodes[k - 1])
      modifies this, prev
      ensures Valid() && Repr == old(Repr)
      ensures if old(entries)[k].ifindex == ifindex then k' == k && entries == old(entries)[..k] + old(entries)[k + 1..]
              else k' == k + 1 && entries == old(entries)
      ensures k' <= |nodes| && next == NodeAt(k') && prev' == (if k' == 0 then null else nodes[k' - 1])
    {
      next, prev', k' := curr.next, prev, k;
      if curr.ifindex == ifindex {
        Unlink(k, prev, curr);
      } else {
        prev', k' := curr, k + 1;
      }
    }

    /** Takes an interface out of the list. */
    method DelInterfaceData(ifindex: int)
      requires Valid()
      modifies this, Repr
      ensures Valid() && Repr == old(Repr)
      ensures entries == Without(old(entries), ifindex)
    {
      ghost var was := entries;
      var prev: WirelessIface?, curr := null, head;
      ghost var i, k: nat := 0, 0;
      while curr != null
        invariant Valid() && Repr == old(Repr) && Dealt(was, i, entries, k, ifindex)
        invariant curr == NodeAt(k) && prev == (if k == 0 then null else nodes[k - 1])
        decreases |was| - i
      {
        DealtOneMore(was, i, entries, k, ifindex);
        prev, curr, k := DealWith(k, prev, curr, ifindex);
        i := i + 1;
      }
      assert was[..i] == was && entries[..k] == entries;
    }

    /** Any run of lookups and removals leaves the map that the abstract steps produce. */
    method Run(cs: seq<Command>)
      requires Valid()
      modifies this, Repr
      ensures Valid() && AsMap(entries) == MapRun(old(AsMap(entries)), cs)
    {
      ghost var start := AsMap(entries);
      for i := 0 to |cs|
        invariant Valid() && fresh(Repr - old(Repr)) && AsMap(entries) == MapRun(start, cs[..i])
      {
        assert cs[..i + 1][..i] == cs[..i];
        ghost var es := entries;
        match cs[i] {
          case Lookup(ifindex, sys) =>
            var r := GetInterfaceData(ifindex, sys);
            AsMapKnows(es, ifindex);
            if !Known(es, ifindex) && sys.Succeeds() {
              AsMapFront(entries[0], es);
            }
          case Remove(ifindex) =>
            DelInterfaceData(ifindex);
            AsMapWithout(es, ifindex);
        }
      }
      assert cs[..|cs|] == cs;
    }
  }

  datatype Command = Lookup(ifindex: int, sys: System) | Remove(ifindex: int)

  /** A successful lookup finds or inserts, a failed one changes nothing, a removal removes. */
  function MapStep(m: map<int, Entry>, c: Command): (r: map<int, Entry>) {
    match c
    case Lookup(ifindex, sys) =>
      if ifindex in m || !sys.Succeeds() then m else m[ifindex := Entry(ifindex, sys.name.value, sys.hasRange)]
    case Remove(ifindex) => m - {ifindex}
  }

  function MapRun(m: map<int, Entry>, cs: seq<Command>): (r: map<int, Entry>) {
    if cs == [] then m else MapStep(MapRun(m, cs[..|cs| - 1]), cs[|cs| - 1])
  }
}
