/**
 The interfaces and disks of a record, from the bytes of its sections, and what displaying an activity
 does to those of the record that is compared with.
 */
module SaDevices {
  import opened Common
  import opened Bits
  import opened SaFile
  import SaRegister

  type NetDev = SaRegister.NetDev
  type DiskStats = SaRegister.DiskStats

  const IFACE_LEN := 16

  // ---------- Structures as bytes ----------

  /** An unsigned number of the structure that begins at `at`. */
  function NumberAt(b: seq<U8>, at: nat, size: nat): (v: nat) {
    if at + size <= |b| then Value(b[at..at + size]) else 0
  }

  function WordAt(b: seq<U8>, at: nat): (v: U32) {
    NumberAt(b, at, 4) % TWO32
  }

  /** A C string of at most n characters. */
  function StringAt(b: seq<U8>, at: nat, n: nat): (s: string)
    decreases n
  {
    if n == 0 || at >= |b| || b[at] == 0 then "" else [b[at] as char] + StringAt(b, at + 1, n - 1)
  }

  function NetDevAt(b: seq<U8>, at: nat): (d: NetDev) {
    SaRegister.NetDev(StringAt(b, at + 128, IFACE_LEN),
                      WordAt(b, at), WordAt(b, at + 8), WordAt(b, at + 16), WordAt(b, at + 24),
                      WordAt(b, at + 32), WordAt(b, at + 40), WordAt(b, at + 48), WordAt(b, at + 56),
                      WordAt(b, at + 64), WordAt(b, at + 72), WordAt(b, at + 80), WordAt(b, at + 88),
                      WordAt(b, at + 96), WordAt(b, at + 104), WordAt(b, at + 112), WordAt(b, at + 120))
  }

  function DiskAt(b: seq<U8>, at: nat): (d: DiskStats) {
    SaRegister.DiskStats(WordAt(b, at + 72), WordAt(b, at + 76), NumberAt(b, at, 8), NumberAt(b, at + 16, 8),
                         WordAt(b, at + 64),
                         WordAt(b, at + 32), WordAt(b, at + 40), WordAt(b, at + 48), WordAt(b, at + 56))
  }

  /** The devices of a record; the header says how many there are. */
  datatype Devices = Devices(ifaces: seq<NetDev>, disks: seq<DiskStats>) {
    predicate Fits(h: Header) {
      |ifaces| == h.iface && |disks| == h.nrDisk
    }
  }

  function DevicesOf(h: Header, r: Record): (d: Devices)
    ensures d.Fits(h)
  {
    Devices(seq(h.iface, i requires 0 <= i < h.iface => NetDevAt(r.more.iface, STATS_NET_DEV_SIZE * i)),
            seq(h.nrDisk, i requires 0 <= i < h.nrDisk => DiskAt(r.more.disk, DISK_STATS_SIZE * i)))
  }

  // ---------- Displaying an activity ----------

  /** The devices that a line compares, and the records they are compared with. */
  datatype Rows = Rows(ifaces: seq<(NetDev, NetDev)>, disks: seq<(DiskStats, DiskStats)>)

  predicate OfIfaces(act: nat) {
    act == NET_DEV || act == NET_EDEV
  }

  function Same(ref: Devices, cur: Devices): (b: bool) {
    |ref.ifaces| == |cur.ifaces| && |ref.disks| == |cur.disks|
  }

  /** The rows of a line of an activity. */
  function RowsOf(act: nat, ref: Devices, cur: Devices): (rows: Rows)
    requires Same(ref, cur)
  {
    if OfIfaces(act) then Rows(SaRegister.Rows(SaRegister.IFACE, ref.ifaces, cur.ifaces, |cur.ifaces|), [])
    else if act == DISK then Rows([], SaRegister.Rows(SaRegister.DISK, ref.disks, cur.disks, |cur.disks|))
    else Rows([], [])
  }

  /** The devices compared with, after the line. */
  function After(act: nat, ref: Devices, cur: Devices): (d: Devices)
    requires Same(ref, cur)
    ensures Same(d, cur)
  {
    if OfIfaces(act) then ref.(ifaces := SaRegister.MatchAll(SaRegister.IFACE, ref.ifaces, cur.ifaces, |cur.ifaces|))
    else if act == DISK then ref.(disks := SaRegister.MatchAll(SaRegister.DISK, ref.disks, cur.disks, |cur.disks|))
    else ref
  }

  /** All devices an activity shows have a record to be compared with that is up to date. */
  predicate AllFound(act: nat, ref: Devices, cur: Devices) {
    if OfIfaces(act) then
      forall i :: 0 <= i < |cur.ifaces| && cur.ifaces[i].iface != "?" ==>
        SaRegister.Found(SaRegister.IFACE, ref.ifaces, cur.ifaces[i])
    else if act == DISK then
      forall i :: 0 <= i < |cur.disks| && !SaRegister.FreeDisk(cur.disks[i]) ==>
        SaRegister.Found(SaRegister.DISK, ref.disks, cur.disks[i])
    else true
  }

  /** A line leaves the devices it compares with as they are, if and only if it finds all that it shows. */
  lemma AfterSameIff(act: nat, ref: Devices, cur: Devices)
    requires Same(ref, cur)
    ensures After(act, ref, cur) == ref <==> AllFound(act, ref, cur)
  {
    SaRegister.IfaceLaws();
    SaRegister.DiskLaws();
    SaRegister.UnchangedIff(SaRegister.IFACE, ref.ifaces, cur.ifaces, |cur.ifaces|);
    SaRegister.UnchangedIff(SaRegister.DISK, ref.disks, cur.disks, |cur.disks|);
  }

  /** No device is in two slots. */
  ghost predicate AllDistinct(d: Devices) {
    SaRegister.Distinct(SaRegister.IFACE, d.ifaces) && SaRegister.Distinct(SaRegister.DISK, d.disks)
  }

  /**
   Each row compares a device with a record of the same device, none of whose counters is above the
   current one, unless an interface was judged to have met an overflow.
   */
  ghost predicate Alike(rows: Rows) {
    && (forall row :: row in rows.ifaces ==>
          && row.0.iface == row.1.iface
          && (SaRegister.Overflowed(row.1, row.0) || !SaRegister.SomeDecreased(row.1, row.0)))
    && (forall row :: row in rows.disks ==>
          row.0.major == row.1.major && row.0.minor == row.1.minor && !SaRegister.DiskDecreased(row.1, row.0))
  }

  /** If no device is in two slots, like is compared with like, and it stays so. */
  lemma RowsCompareAlike(act: nat, ref: Devices, cur: Devices)
    requires Same(ref, cur) && AllDistinct(ref)
    ensures AllDistinct(After(act, ref, cur)) && Alike(RowsOf(act, ref, cur))
  {
    SaRegister.IfaceLaws();
    SaRegister.DiskLaws();
    SaRegister.AllMatched(SaRegister.IFACE, ref.ifaces, cur.ifaces, |cur.ifaces|);
    SaRegister.AllMatched(SaRegister.DISK, ref.disks, cur.disks, |cur.disks|);
  }

  /** Displays the devices of an activity, in place in the structures compared with. */
  method Compare(act: nat, ref: Devices, cur: Devices) returns (rows: Rows, d: Devices)
    requires Same(ref, cur)
    ensures rows == RowsOf(act, ref, cur) && d == After(act, ref, cur)
  {
    rows, d := Rows([], []), ref;
    if OfIfaces(act) {
      var refs := new NetDev[|ref.ifaces|](i requires 0 <= i < |ref.ifaces| => ref.ifaces[i]);
      assert refs[..] == ref.ifaces;
      var ifaces := SaRegister.CompareIfaces(cur.ifaces, refs);
      rows, d := Rows(ifaces, []), ref.(ifaces := refs[..]);
    } else if act == DISK {
      var refs := new DiskStats[|ref.disks|](i requires 0 <= i < |ref.disks| => ref.disks[i]);
      assert refs[..] == ref.disks;
      var disks := SaRegister.CompareDisks(cur.disks, refs);
      rows, d := Rows([], disks), ref.(disks := refs[..]);
    }
  }
}
