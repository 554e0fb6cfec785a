/**
 The device table of iostat.  Each slot has a header and two sets of statistics, one of the
 current and one of the previous refresh; slots are found by device name and handed to new
 devices when their old device has gone.
 */
module Iostat {

  type Count = nat

  datatype IoStats = IoStats(rdIos: Count, rdMerges: Count, rdSectors: Count, rdTicks: Count,
                             wrIos: Count, wrMerges: Count, wrSectors: Count, wrTicks: Count,
                             iosPgr: Count, totTicks: Count, rqTicks: Count,
                             dkDrive: Count, dkDriveRblk: Count, dkDriveWblk: Count)

  const ZERO: IoStats := IoStats(0, 0, 0, 0, 0, 0, 0, 0, 0, 0, 0, 0, 0, 0)

  datatype Header = Header(active: bool, used: bool, name: string)

  /** One line of the kernel's statistics. */
  datatype Reading = Reading(name: string, stats: IoStats)

  predicate Named(snap: seq<Reading>, name: string) {
    exists k :: 0 <= k < |snap| && snap[k].name == name
  }

  /** The last reading of a device. */
  function Latest(snap: seq<Reading>, name: string): (s: IoStats)
    requires Named(snap, name)
  {
    var n := |snap| - 1;
    if snap[n].name == name then snap[n].stats
    else
      assert forall k :: 0 <= k < n ==> snap[..n][k] == snap[k];
      Latest(snap[..n], name)
  }

  lemma OneMoreReading(snap: seq<Reading>, r: Reading, name: string)
    ensures Named(snap + [r], name) <==> Named(snap, name) || r.name == name
    ensures Named(snap + [r], name) ==>
              Latest(snap + [r], name) == if r.name == name then r.stats else Latest(snap, name)
  {
    var more := snap + [r];
    assert more[|snap|] == r && more[..|snap|] == snap;
    if Named(snap, name) {
      var k :| 0 <= k < |snap| && snap[k].name == name;
      assert more[k].name == name;
    }
  }

  // ---------- The headers, as values ----------

  function FirstNamed(hs: seq<Header>, name: string): (i: nat)
    ensures i <= |hs| && (i < |hs| ==> hs[i].name == name)
    ensures forall k :: 0 <= k < i ==> hs[k].name != name
  {
    if hs == [] || hs[0].name == name then 0
    else
      var i := FirstNamed(hs[1..], name);
      assert forall k :: 1 <= k < i + 1 ==> hs[k] == hs[1..][k - 1];
      i + 1
  }

  function FirstUnused(hs: seq<Header>): (i: nat)
    ensures i <= |hs| && (i < |hs| ==> !hs[i].used)
    ensures forall k :: 0 <= k < i ==> hs[k].used
  {
    if hs == [] || !hs[0].used then 0
    else
      var i := FirstUnused(hs[1..]);
      assert forall k :: 1 <= k < i + 1 ==> hs[k] == hs[1..][k - 1];
      i + 1
  }

  /** The headers after one device has been saved. */
  function Saved(hs: seq<Header>, name: string): (r: seq<Header>)
    ensures |r| == |hs|
  {
    var i, j := FirstNamed(hs, name), FirstUnused(hs);
    if i < |hs| then hs[i := hs[i].(active := true)]
    else if j < |hs| then hs[j := Header(true, true, name)]
    else hs
  }

  function Inactive(hs: seq<Header>): (r: seq<Header>)
    ensures |r| == |hs| && forall i :: 0 <= i < |hs| ==> r[i] == hs[i].(active := false)
  {
    seq(|hs|, i requires 0 <= i < |hs| => hs[i].(active := false))
  }

  function Freed(hs: seq<Header>): (r: seq<Header>)
    ensures |r| == |hs| && forall i :: 0 <= i < |hs| ==> r[i] == hs[i].(used := hs[i].used && hs[i].active)
  {
    seq(|hs|, i requires 0 <= i < |hs| => hs[i].(used := hs[i].used && hs[i].active))
  }

  predicate DistinctNames(hs: seq<Header>) {
    forall i, k :: 0 <= i < k < |hs| && hs[i].name != "" ==> hs[i].name != hs[k].name
  }

  predicate InUse(hs: seq<Header>, name: string) {
    exists i :: 0 <= i < |hs| && hs[i].used && hs[i].name == name
  }

  /** No slot carries the name, and one is unused: the device would get a slot. */
  predicate Opens(hs: seq<Header>, name: string) {
    FirstNamed(hs, name) == |hs| && FirstUnused(hs) < |hs|
  }

  /**
   When a saved device ends up in use: it was in use, or no slot carried its name and one was
   unused.  A device that left its name in an unused slot is not put in use again.
   */
  lemma InUseAfterSave(hs: seq<Header>, name: string)
    requires forall i, k :: 0 <= i < k < |hs| && hs[i].name == name ==> hs[k].name != name
    ensures InUse(Saved(hs, name), name)
            <==> InUse(hs, name) || Opens(hs, name)
  {
    var r, i, j := Saved(hs, name), FirstNamed(hs, name), FirstUnused(hs);
    if i < |hs| {
      assert forall k :: 0 <= k < |hs| ==> r[k].used == hs[k].used && r[k].name == hs[k].name;
    } else if j < |hs| {
      assert r[j].used && r[j].name == name;
    }
  }

  // ---------- The table, as a value ----------

  /** Headers, statistics of this refresh, statistics of the previous one. */
  datatype Table = Table(hs: seq<Header>, now: seq<IoStats>, before: seq<IoStats>) {
    predicate Ok() {
      |now| == |hs| && |before| == |hs| && DistinctNames(hs)
    }
  }

  /** The table after one reading has been saved. */
  function Save(t: Table, r: Reading): (t': Table)
    requires |t.now| == |t.hs| && |t.before| == |t.hs|
    ensures |t'.now| == |t'.hs| == |t.hs| && |t'.before| == |t'.hs|
  {
    var i, j := FirstNamed(t.hs, r.name), FirstUnused(t.hs);
    if i < |t.hs| then Table(Saved(t.hs, r.name), t.now[i := r.stats], t.before)
    else if j < |t.hs| then Table(Saved(t.hs, r.name), t.now[j := r.stats], t.before[j := ZERO])
    else t
  }

  function SaveAll(t: Table, snap: seq<Reading>): (t': Table)
    requires |t.now| == |t.hs| && |t.before| == |t.hs|
    ensures |t'.now| == |t'.hs| == |t.hs| && |t'.before| == |t'.hs|
  {
    if snap == [] then t else Save(SaveAll(t, snap[..|snap| - 1]), snap[|snap| - 1])
  }

  function Refreshed(t: Table, snap: seq<Reading>): (t': Table)
    requires |t.now| == |t.hs| && |t.before| == |t.hs|
    ensures |t'.now| == |t'.hs| == |t.hs| && |t'.before| == |t'.hs|
  {
    var all := SaveAll(t.(hs := Inactive(t.hs)), snap);
    all.(hs := Freed(all.hs))
  }

  predicate AllNamed(snap: seq<Reading>) {
    forall k :: 0 <= k < |snap| ==> snap[k].name != ""
  }

  /** Slot i is active exactly for a reading seen so far, and holds its latest statistics. */
  predicate UpToDate(t: Table, snap: seq<Reading>, i: nat)
    requires t.Ok() && i < |t.hs|
  {
    t.hs[i].active ==>
      t.hs[i].name != "" && Named(snap, t.hs[i].name) && t.now[i] == Latest(snap, t.hs[i].name)
  }

  /**
   What saving readings does to slot i of t: a used slot is not touched by other devices, a new one starts from
   zero.
   */
  predicate Kept(t: Table, t': Table, snap: seq<Reading>, i: nat)
    requires t.Ok() && t'.Ok() && |t'.hs| == |t.hs| && i < |t.hs|
  {
    if t.hs[i].used then
      && t'.hs[i].used && t'.hs[i].name == t.hs[i].name && t'.before[i] == t.before[i]
      && (t.hs[i].name != "" && Named(snap, t.hs[i].name) ==> t'.hs[i].active)
    else t'.hs[i].used ==> t'.hs[i].active && t'.before[i] == ZERO
  }

  lemma {:induction false} SaveAllKeeps(t: Table, snap: seq<Reading>)
    requires t.Ok() && AllNamed(snap) && forall i :: 0 <= i < |t.hs| ==> !t.hs[i].active
    ensures SaveAll(t, snap).Ok()
    ensures forall i :: 0 <= i < |t.hs| ==>
              UpToDate(SaveAll(t, snap), snap, i) && Kept(t, SaveAll(t, snap), snap, i)
  {
    if snap != [] {
      var n := |snap| - 1;
      var init, r := snap[..n], snap[n];
      assert snap == init + [r];
      SaveAllKeeps(t, init);
      var a, b := SaveAll(t, init), SaveAll(t, snap);
      SaveDistinct(a, r);
      forall i | 0 <= i < |t.hs|
        ensures UpToDate(b, snap, i) && Kept(t, b, snap, i)
      {
        OneMoreReading(init, r, b.hs[i].name);
        OneMoreReading(init, r, t.hs[i].name);
        assert UpToDate(a, init, i) && Kept(t, a, init, i);
        SaveSlot(a, r, i);
      }
    }
  }

  lemma SaveDistinct(t: Table, r: Reading)
    requires t.Ok() && r.name != ""
    ensures Save(t, r).Ok()
  {
  }

  /** One save, seen from one slot: only a slot with the name of the reading afterwards has changed. */
  lemma SaveSlot(t: Table, r: Reading, i: nat)
    requires t.Ok() && r.name != "" && i < |t.hs|
    ensures var t' := Save(t, r);
            if t'.hs[i].name != r.name then t'.hs[i] == t.hs[i] && t'.now[i] == t.now[i] && t'.before[i] == t.before[i]
            else if t.hs[i].name == r.name then
              t'.hs[i] == t.hs[i].(active := true) && t'.now[i] == r.stats && t'.before[i] == t.before[i]
            else !t.hs[i].used && t'.hs[i] == Header(true, true, r.name) && t'.now[i] == r.stats && t'.before[i] == ZERO
  {
  }

  /**
   After a refresh every used slot names a device of the snapshot and has its latest statistics;
   a slot in use before is in use still exactly when its device is there, with its old statistics;
   a slot newly in use has none from before.
   */
  lemma RefreshedTable(t: Table, snap: seq<Reading>)
    requires t.Ok() && AllNamed(snap)
    ensures var t' := Refreshed(t, snap);
            && t'.Ok()
            && (forall i :: 0 <= i < |t.hs| && t'.hs[i].used ==>
                  t'.hs[i].name != "" && Named(snap, t'.hs[i].name) && t'.now[i] == Latest(snap, t'.hs[i].name))
            && (forall i :: 0 <= i < |t.hs| && t.hs[i].used && t.hs[i].name != "" ==>
                  && t'.hs[i].name == t.hs[i].name && t'.before[i] == t.before[i]
                  && (t'.hs[i].used <==> Named(snap, t.hs[i].name)))
            && (forall i :: 0 <= i < |t.hs| && !t.hs[i].used && t'.hs[i].used ==> t'.before[i] == ZERO)
  {
    var start := t.(hs := Inactive(t.hs));
    SaveAllKeeps(start, snap);
    var all, t' := SaveAll(start, snap), Refreshed(t, snap);
    forall i | 0 <= i < |t.hs|
      ensures t'.hs[i] == all.hs[i].(used := all.hs[i].used && all.hs[i].active)
      ensures start.hs[i] == t.hs[i].(active := false)
      ensures UpToDate(all, snap, i) && Kept(start, all, snap, i)
    {
    }
  }

  /** Saving a device does not put another one in use, and takes none out of use. */
  lemma OthersInUse(hs: seq<Header>, name: string, other: string)
    requires other != name
    ensures InUse(Saved(hs, name), other) <==> InUse(hs, other)
  {
    var r := Saved(hs, name);
    if InUse(hs, other) {
      var i :| 0 <= i < |hs| && hs[i].used && hs[i].name == other;
      assert r[i].used && r[i].name == other;
    }
  }

  /** The headers as the k-th reading of a refresh finds them. */
  function Met(t: Table, snap: seq<Reading>, k: nat): (hs: seq<Header>)
    requires |t.now| == |t.hs| && |t.before| == |t.hs| && k <= |snap|
  {
    SaveAll(t, snap[..k]).hs
  }

  predicate Opening(t: Table, snap: seq<Reading>, name: string, k: nat)
    requires |t.now| == |t.hs| && |t.before| == |t.hs| && k < |snap|
  {
    snap[k].name == name && Opens(Met(t, snap, k), name)
  }

  lemma {:induction false} InUseAfterSaving(t: Table, snap: seq<Reading>, name: string)
    requires t.Ok() && AllNamed(snap) && name != ""
    ensures SaveAll(t, snap).Ok()
    ensures InUse(SaveAll(t, snap).hs, name)
            <==> InUse(t.hs, name) || exists k :: 0 <= k < |snap| && Opening(t, snap, name, k)
  {
    if snap != [] {
      var n := |snap| - 1;
      var init, r := snap[..n], snap[n];
      InUseAfterSaving(t, init, name);
      SaveDistinct(SaveAll(t, init), r);
      forall k | 0 <= k < n
        ensures Opening(t, snap, name, k) <==> Opening(t, init, name, k)
      {
        assert snap[..k] == init[..k];
      }
      if r.name == name {
        InUseAfterSave(SaveAll(t, init).hs, name);
        assert Opening(t, snap, name, n) <==> Opens(SaveAll(t, init).hs, name);
      } else {
        OthersInUse(SaveAll(t, init).hs, r.name, name);
      }
    }
  }

  /**
   The devices shown after a refresh are those of the snapshot that were in use before, or of which
   some reading found no slot with their name and one unused.
   */
  lemma InUseAfterRefresh(t: Table, snap: seq<Reading>, name: string)
    requires t.Ok() && AllNamed(snap) && name != ""
    ensures var start := t.(hs := Inactive(t.hs));
            InUse(Refreshed(t, snap).hs, name)
            <==> Named(snap, name)
                 && (InUse(t.hs, name) || exists k :: 0 <= k < |snap| && Opening(start, snap, name, k))
  {
    var start := t.(hs := Inactive(t.hs));
    SaveAllKeeps(start, snap);
    InUseAfterSaving(start, snap, name);
    SameInUse(t.hs, Inactive(t.hs), name);
    var all, hs := SaveAll(start, snap), Refreshed(t, snap).hs;
    if InUse(hs, name) {
      var i :| 0 <= i < |hs| && hs[i].used && hs[i].name == name;
      assert hs[i] == all.hs[i].(used := all.hs[i].used && all.hs[i].active) && UpToDate(all, snap, i);
    }
    if Named(snap, name) && InUse(all.hs, name) {
      var i :| 0 <= i < |all.hs| && all.hs[i].used && all.hs[i].name == name;
      assert hs[i] == all.hs[i].(used := all.hs[i].used && all.hs[i].active);
      assert Kept(start, all, snap, i) && start.hs[i] == t.hs[i].(active := false);
      assert hs[i].used;
    }
  }

  lemma SameInUse(hs: seq<Header>, rs: seq<Header>, name: string)
    requires |rs| == |hs| && forall i :: 0 <= i < |hs| ==> rs[i].used == hs[i].used && rs[i].name == hs[i].name
    ensures InUse(rs, name) <==> InUse(hs, name)
  {
    if InUse(hs, name) {
      var i :| 0 <= i < |hs| && hs[i].used && hs[i].name == name;
      assert rs[i].used && rs[i].name == name;
    }
  }

  /** With one reading for each device: what decides is the table as this reading finds it. */
  lemma InUseAfterDistinct(t: Table, snap: seq<Reading>, k: nat)
    requires t.Ok() && AllNamed(snap) && k < |snap|
    requires forall i, j :: 0 <= i < j < |snap| ==> snap[i].name != snap[j].name
    ensures InUse(Refreshed(t, snap).hs, snap[k].name)
            <==> InUse(t.hs, snap[k].name) || Opens(Met(t.(hs := Inactive(t.hs)), snap, k), snap[k].name)
  {
    InUseAfterRefresh(t, snap, snap[k].name);
    assert Opening(t.(hs := Inactive(t.hs)), snap, snap[k].name, k)
           <==> Opens(Met(t.(hs := Inactive(t.hs)), snap, k), snap[k].name);
  }

  /**
   A second reading of the same device can make a difference: between the two a new device has taken
   the unused slot that kept the first one hidden.
   */
  lemma SecondReadingShows(s: IoStats, name: string, other: string)
    requires name != "" && other != "" && name != other
    ensures var t := Table([Header(false, false, name), Header(false, false, "")], [ZERO, ZERO], [ZERO, ZERO]);
            var twice := [Reading(name, s), Reading(other, s), Reading(name, s)];
            !InUse(Refreshed(t, twice[..2]).hs, name) && InUse(Refreshed(t, twice).hs, name)
  {
    var t := Table([Header(false, false, name), Header(false, false, "")], [ZERO, ZERO], [ZERO, ZERO]);
    var twice := [Reading(name, s), Reading(other, s), Reading(name, s)];
    assert Inactive(t.hs) == t.hs;
    assert Met(t, twice, 0) == t.hs && twice[..0] == [];
    assert SaveAll(t, twice[..1]) == Save(t, twice[0]) by {
      assert twice[..1][..0] == [];
    }
    assert Met(t, twice, 1) == [Header(true, false, name), Header(false, false, "")];
    assert SaveAll(t, twice[..2]) == Save(SaveAll(t, twice[..1]), twice[1]) by {
      assert twice[..2][..1] == twice[..1];
    }
    assert Met(t, twice, 2) == [Header(true, true, other), Header(false, false, "")];
    assert Opening(t, twice, name, 2) && Named(twice, name) by {
      assert twice[2].name == name;
    }
    InUseAfterRefresh(t, twice, name);
    assert Refreshed(t, twice[..2]).hs == Freed(Met(t, twice, 2));
  }

  /** A device in use after two refreshes in a row is in the same slot both times. */
  lemma KeepsSlot(t: Table, snap: seq<Reading>, i: nat)
    requires t.Ok() && AllNamed(snap) && i < |t.hs| && t.hs[i].used && t.hs[i].name != ""
    ensures var t' := Refreshed(t, snap);
            forall k :: 0 <= k < |t.hs| && t'.hs[k].used && t'.hs[k].name == t.hs[i].name ==> k == i
  {
    RefreshedTable(t, snap);
  }

  // ---------- Whole runs ----------

  /** The two sets of statistics change roles after a round that was displayed. */
  function Turned(t: Table, displayed: bool): (t': Table) {
    if displayed then Table(t.hs, t.before, t.now) else t
  }

  /** The table after n rounds; a round is a refresh and perhaps a display. */
  function Played(t: Table, snaps: seq<seq<Reading>>, displayed: seq<bool>, n: nat): (t': Table)
    requires |t.now| == |t.hs| && |t.before| == |t.hs| && n <= |snaps| == |displayed|
    ensures |t'.now| == |t'.hs| == |t.hs| && |t'.before| == |t'.hs|
  {
    if n == 0 then t
    else Refreshed(Turned(Played(t, snaps, displayed, n - 1), n > 1 && displayed[n - 2]), snaps[n - 1])
  }

  lemma {:induction false} PlayedOk(t: Table, snaps: seq<seq<Reading>>, displayed: seq<bool>, n: nat)
    requires t.Ok() && n <= |snaps| == |displayed| && forall k :: 0 <= k < n ==> AllNamed(snaps[k])
    ensures Played(t, snaps, displayed, n).Ok()
  {
    if n > 0 {
      PlayedOk(t, snaps, displayed, n - 1);
      RefreshedTable(Turned(Played(t, snaps, displayed, n - 1), n > 1 && displayed[n - 2]), snaps[n - 1]);
    }
  }

  /**
   Both sets of statistics of a used slot belong to the device it names: the latest reading, and
   the reading of the round before if that was displayed, otherwise what the round before was
   compared with; a slot newly in use is compared with zero.
   */
  lemma OwnStatistics(t: Table, snaps: seq<seq<Reading>>, displayed: seq<bool>, n: nat, i: nat)
    requires t.Ok() && 2 <= n <= |snaps| == |displayed| && forall k :: 0 <= k < n ==> AllNamed(snaps[k])
    requires i < |t.hs| && Played(t, snaps, displayed, n).hs[i].used
    ensures var t2, t1 := Played(t, snaps, displayed, n), Played(t, snaps, displayed, n - 1);
            var name := t2.hs[i].name;
            && Named(snaps[n - 1], name) && t2.now[i] == Latest(snaps[n - 1], name)
            && if !t1.hs[i].used then t2.before[i] == ZERO
               else
                 && t1.hs[i].name == name && Named(snaps[n - 2], name)
                 && t2.before[i] == if displayed[n - 2] then Latest(snaps[n - 2], name) else t1.before[i]
  {
    var t1, t0 := Played(t, snaps, displayed, n - 1), Played(t, snaps, displayed, n - 2);
    PlayedOk(t, snaps, displayed, n - 1);
    PlayedOk(t, snaps, displayed, n - 2);
    RefreshedTable(Turned(t0, n > 2 && displayed[n - 3]), snaps[n - 2]);
    RefreshedTable(Turned(t1, displayed[n - 2]), snaps[n - 1]);
  }

  /** A device that was away for one refresh and then returns to its old slot is not shown. */
  lemma ReturningDeviceHidden(s: IoStats, name: string)
    requires name != ""
    ensures var empty := Table([Header(false, false, "")], [ZERO], [ZERO]);
            var once := Refreshed(empty, [Reading(name, s)]);
            var gone := Refreshed(once, []);
            var back := Refreshed(gone, [Reading(name, s)]);
            InUse(once.hs, name) && !InUse(gone.hs, name) && !InUse(back.hs, name)
  {
    var empty := Table([Header(false, false, "")], [ZERO], [ZERO]);
    var there := [Reading(name, s)];
    assert there[..0] == [];
    var once := Save(empty, there[0]);
    assert once.hs == [Header(true, true, name)];
    assert SaveAll(empty, there) == Save(SaveAll(empty, there[..0]), there[0]);
    assert Inactive(empty.hs) == empty.hs && Freed(once.hs) == once.hs;
    var gone := Refreshed(once, []);
    assert gone.hs == [Header(false, false, name)];
    assert Inactive(gone.hs) == gone.hs;
    var back := Save(gone, there[0]);
    assert back.hs == [Header(true, false, name)];
    assert SaveAll(gone, there) == Save(SaveAll(gone, there[..0]), there[0]);
    assert Freed(back.hs) == back.hs;
  }

  // ---------- The implementation ----------

  class DeviceTable {
    const hdr: array<Header>
    const st0: array<IoStats>
    const st1: array<IoStats>

    function St(b: nat): (a: array<IoStats>) {
      if b == 0 then st0 else st1
    }

    ghost predicate Valid()
      reads this, hdr
    {
      st0.Length == st1.Length == hdr.Length && st0 != st1 && DistinctNames(hdr[..])
    }

    ghost function View(curr: nat): (t: Table)
      requires curr < 2
      reads hdr, st0, st1
    {
      Table(hdr[..], St(curr)[..], St(1 - curr)[..])
    }

    constructor (n: nat)
      ensures Valid() && fresh(hdr) && fresh(st0) && fresh(st1) && hdr.Length == n
      ensures forall i :: 0 <= i < n ==> hdr[i] == Header(false, false, "") && st0[i] == ZERO && st1[i] == ZERO
    {
      hdr := new Header[n](_ => Header(false, false, ""));
      st0 := new IoStats[n](_ => ZERO);
      st1 := new IoStats[n](_ => ZERO);
    }

    method SetEntriesInactive()
      modifies hdr
      ensures hdr[..] == Inactive(old(hdr[..]))
    {
      for i := 0 to hdr.Length
        invariant forall k :: 0 <= k < hdr.Length ==>
                    hdr[k] == if k < i then old(hdr[k]).(active := false) else old(hdr[k])
      {
        hdr[i] := hdr[i].(active := false);
      }
    }

    method FreeInactiveEntries()
      modifies hdr
      ensures hdr[..] == Freed(old(hdr[..]))
    {
      for i := 0 to hdr.Length
        invariant forall k :: 0 <= k < hdr.Length ==>
                    hdr[k] == if k < i then old(hdr[k]).(used := old(hdr[k].used) && old(hdr[k].active))
                              else old(hdr[k])
      {
        if !hdr[i].active {
          hdr[i] := hdr[i].(used := false);
        }
      }
    }

    /**
     Saves one reading: in the slot that carries the name, whether used or not, else in the first
     unused slot, else nowhere.
     */
    method SaveDevStats(name: string, curr: nat, sdev: IoStats)
      requires Valid() && curr < 2 && name != ""
      modifies hdr, st0, st1
      ensures Valid() && View(curr) == Save(old(View(curr)), Reading(name, sdev))
    {
      ghost var before := hdr[..];
      SaveDistinct(View(curr), Reading(name, sdev));
      var i := 0;
      while i < hdr.Length && hdr[i].name != name
        invariant i <= hdr.Length && forall k :: 0 <= k < i ==> before[k].name != name
      {
        i := i + 1;
      }
      assert i == FirstNamed(before, name);
      if i == hdr.Length {
        i := 0;
        while i < hdr.Length && hdr[i].used
          invariant i <= hdr.Length && forall k :: 0 <= k < i ==> before[k].used
        {
          i := i + 1;
        }
        assert i == FirstUnused(before);
        if i < hdr.Length {
          hdr[i] := hdr[i].(used := true, name := name);
          St(1 - curr)[i] := ZERO;
        }
      }
      if i < hdr.Length {
        hdr[i] := hdr[i].(active := true);
        St(curr)[i] := sdev;
      }
      assert hdr[..] == Saved(before, name);
    }

    /** Refreshes the table with a snapshot of the kernel's statistics. */
    method Refresh(curr: nat, snap: seq<Reading>)
      requires Valid() && curr < 2 && AllNamed(snap)
      modifies hdr, st0, st1
      ensures Valid() && View(curr) == Refreshed(old(View(curr)), snap)
    {
      RefreshedTable(View(curr), snap);
      SetEntriesInactive();
      ghost var start := View(curr);
      for n := 0 to |snap|
        invariant Valid() && View(curr) == SaveAll(start, snap[..n])
      {
        assert snap[..n + 1][..n] == snap[..n];
        SaveDevStats(snap[n].name, curr, snap[n].stats);
      }
      assert snap[..|snap|] == snap;
      FreeInactiveEntries();
    }

    /** The main loop: refresh, display, and change the roles of the buffers when something was displayed. */
    method Loop(snaps: seq<seq<Reading>>, displayed: seq<bool>) returns (curr: nat)
      requires Valid() && |displayed| == |snaps| && forall n :: 0 <= n < |snaps| ==> AllNamed(snaps[n])
      modifies hdr, st0, st1
      ensures Valid() && curr < 2
      ensures View(curr) == Played(old(View(1)), snaps, displayed, |snaps|)
    {
      curr := 1;
      ghost var t := View(1);
      for n := 0 to |snaps|
        invariant Valid() && curr < 2
        invariant View(curr) == Played(t, snaps, displayed, n)
      {
        if n > 0 && displayed[n - 1] {
          curr := 1 - curr;
        }
        Refresh(curr, snaps[n]);
      }
    }
  }
}
