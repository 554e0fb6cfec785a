/**
 Which entries of an activity file are shown when the user asks for a coarser interval: an entry is
 shown when a multiple of the interval falls into the window around it.  The floating-point
 division of the source is done in exact rationals.
 */
module NextSlice {
  import opened Common

  const HZ: nat := 100

  /** Conversion of an integer to a 32-bit int. */
  function Int32(x: int): (r: int)
    ensures -TWO31 <= x < TWO31 ==> r == x
    ensures -TWO31 <= r < TWO31
  {
    (x + TWO31) % TWO32 - TWO31
  }

  /** Uptimes are subtracted as unsigned numbers and cut to 32 bits. */
  function Ticks(from: nat, to: nat): (t: nat)
    ensures t < TWO32
  {
    (to - from) % TWO32
  }

  /** n / d rounded to the nearest integer, halves up. */
  function Rounded(n: nat, d: nat): (r: nat)
    requires d > 0
  {
    (2 * n + d) / (2 * d)
  }

  /** The source's way to round: the integer part, plus one when the first decimal is 5 or more. */
  function RoundedReal(f: real): (r: int) {
    if f * 10.0 - (f.Floor * 10) as real >= 5.0 then f.Floor + 1 else f.Floor
  }

  lemma RoundedQuotient(n: nat, d: nat, q: nat, r: nat)
    requires d > 0 && n == q * d + r && r < d
    ensures Rounded(n, d) == if 2 * r >= d then q + 1 else q
  {
    if 2 * r >= d {
      assert 2 * n + d == (2 * d) * (q + 1) + (2 * r - d);
      Divided(2 * n + d, 2 * d, q + 1, 2 * r - d);
    } else {
      assert 2 * n + d == (2 * d) * q + (2 * r + d);
      Divided(2 * n + d, 2 * d, q, 2 * r + d);
    }
  }

  lemma Divided(a: nat, d: nat, q: nat, r: nat)
    requires d > 0 && a == d * q + r && r < d
    ensures a / d == q
  {
    var q' := a / d;
    assert d * q' + a % d == a;
    assert d * (q - q') == a % d - r;
    SmallMultiple(d, q - q', a % d - r);
  }

  /** Seconds between two uptimes of a machine with `cpus` processors. */
  function Seconds(from: nat, to: nat, cpus: nat): (s: nat)
    requires cpus > 0
  {
    Rounded(Ticks(from, to), cpus * HZ)
  }

  lemma SecondsAreReal(t: nat, cpus: nat)
    requires cpus > 0
    ensures RoundedReal(t as real / cpus as real / HZ as real) == Rounded(t, cpus * HZ)
  {
    var d := cpus * HZ;
    var f := t as real / cpus as real / HZ as real;
    var q, r := t / d, t % d;
    Quotient(t, cpus, f);
    assert t == q * d + r;
    assert f * d as real == t as real;
    FloorIs(f, d, q, r);
    RoundedQuotient(t, d, q, r);
  }

  lemma Quotient(t: nat, cpus: nat, f: real)
    requires cpus > 0 && f == t as real / cpus as real / HZ as real
    ensures f * (cpus * HZ) as real == t as real
  {
    var g := t as real / cpus as real;
    assert g * cpus as real == t as real;
    assert f * 100.0 == g;
    assert (cpus * HZ) as real == cpus as real * 100.0;
  }

  lemma AtLeast(e: real, c: real, d: real, r: real)
    requires d > 0.0 && e * d == r
    ensures e >= c <==> r >= c * d
  {
    assert (e - c) * d == r - c * d;
    Sign(e - c, d);
  }

  lemma Sign(x: real, d: real)
    requires d > 0.0
    ensures x * d >= 0.0 <==> x >= 0.0
  {
  }

  lemma FloorIs(f: real, d: nat, q: nat, r: nat)
    requires d > 0 && r < d && f * d as real == (q * d + r) as real
    ensures f.Floor == q && (f * 10.0 - (q * 10) as real >= 5.0 <==> 2 * r >= d)
  {
    var e, dr, rr := f - q as real, d as real, r as real;
    assert (q * d + r) as real == q as real * dr + rr;
    assert e * dr == rr;
    AtLeast(e, 0.0, dr, rr);
    AtLeast(e, 1.0, dr, rr);
    AtLeast(e, 0.5, dr, rr);
  }

  // ---------- Windows ----------

  function Multiple(k: int, interval: nat): (m: int) {
    k * interval
  }

  /** Some multiple of the interval lies between lo and hi. */
  ghost predicate MultipleIn(lo: int, hi: int, interval: nat) {
    exists k :: lo <= Multiple(k, interval) < hi
  }

  /** The window around an entry: half the distance to the previous one on either side. */
  function WindowStart(entry: int, spacing: nat): (lo: int) {
    entry - spacing / 2
  }

  function WindowEnd(entry: int, spacing: nat): (hi: int) {
    entry + spacing / 2 + spacing % 2
  }

  /** Only the multiples next to the entry need to be looked at. */
  lemma NeighboursDecide(entry: nat, spacing: nat, interval: nat)
    requires interval > 0
    ensures var lo, hi := WindowStart(entry, spacing), WindowEnd(entry, spacing);
            var before := entry / interval * interval;
            (lo <= before < hi || lo <= before + interval < hi) <==> MultipleIn(lo, hi, interval)
  {
    var q := entry / interval;
    Around(entry, interval);
    forall k
      ensures k <= q ==> Multiple(k, interval) <= Multiple(q, interval)
      ensures k > q ==> Multiple(k, interval) >= Multiple(q + 1, interval)
    {
      NoMultipleBetween(q, k, interval);
    }
    var lo, hi := WindowStart(entry, spacing), WindowEnd(entry, spacing);
    var mult := k => Multiple(k, interval);
    Decide(mult, q, entry, lo, hi);
    assert MultipleIn(lo, hi, interval) <==> exists k :: lo <= mult(k) < hi by {
      if k :| lo <= mult(k) < hi {
        assert lo <= Multiple(k, interval) < hi;
      }
      if k :| lo <= Multiple(k, interval) < hi {
        assert lo <= mult(k) < hi;
      }
    }
  }

  lemma Around(entry: nat, interval: nat)
    requires interval > 0
    ensures var q := entry / interval;
            && Multiple(q, interval) == q * interval && Multiple(q + 1, interval) == q * interval + interval
            && q * interval <= entry < q * interval + interval
  {
    assert entry == interval * (entry / interval) + entry % interval;
  }

  lemma Decide(mult: int -> int, q: int, entry: int, lo: int, hi: int)
    requires forall k :: (k <= q ==> mult(k) <= mult(q)) && (k > q ==> mult(k) >= mult(q + 1))
    requires mult(q) <= entry < mult(q + 1) && lo <= entry && (entry < hi || lo == hi)
    ensures (lo <= mult(q) < hi || lo <= mult(q + 1) < hi) <==> exists k :: lo <= mult(k) < hi
  {
  }

  /** Any multiple is at most q * interval or at least (q + 1) * interval. */
  lemma NoMultipleBetween(q: int, k: int, interval: nat)
    requires interval > 0
    ensures k <= q ==> Multiple(k, interval) <= Multiple(q, interval)
    ensures k > q ==> Multiple(k, interval) >= Multiple(q + 1, interval)
  {
    assert Multiple(q, interval) - Multiple(k, interval) == (q - k) * interval;
    assert Multiple(k, interval) - Multiple(q + 1, interval) == (k - q - 1) * interval;
    NonNegative(q - k, interval);
    NonNegative(k - q - 1, interval);
  }

  lemma NonNegative(a: int, b: nat)
    ensures a >= 0 ==> a * b >= 0
  {
  }

  /** The source's test, with the window and the neighbouring multiples stored in ints. */
  predicate Shown(entry: nat, spacing: nat, interval: nat)
    requires interval > 0
  {
    var min, max := Int32(WindowStart(entry, spacing)), Int32(WindowEnd(entry, spacing));
    var pt1, pt2 := Int32(entry / interval * interval), Int32((entry / interval + 1) * interval);
    (pt1 >= min && pt1 < max) || (pt2 >= min && pt2 < max)
  }

  /** The test finds exactly the multiples in the window, even when the next one does not fit an int. */
  lemma ShownIffMultiple(entry: nat, spacing: nat, interval: nat)
    requires 0 < interval < TWO31 && entry <= 42949673 && spacing <= 42949673
    ensures Shown(entry, spacing, interval)
            <==> MultipleIn(WindowStart(entry, spacing), WindowEnd(entry, spacing), interval)
  {
    NeighboursDecide(entry, spacing, interval);
    BeforeEntry(entry, interval);
    var before := entry / interval * interval;
    assert (entry / interval + 1) * interval == before + interval;
    ConvertedMultiple(before + interval, WindowStart(entry, spacing), WindowEnd(entry, spacing));
  }

  lemma ConvertedMultiple(pt: nat, lo: int, hi: int)
    requires pt < TWO32 - 100000000 && -100000000 <= lo && hi < 100000000
    ensures lo <= Int32(pt) < hi <==> lo <= pt < hi
  {
    if pt >= TWO31 {
      assert Int32(pt) == pt - TWO32;
    }
  }

  // ---------- The routine ----------

  class Slicer {
    /** Uptime of the entry seen last; kept from call to call. */
    var lastUptime: nat

    constructor ()
      ensures lastUptime == 0
    {
      lastUptime := 0;
    }

    /** Whether the entry taken at `uptime` is shown, on a machine with `cpus` processors. */
    method NextSlice(uptimeRef: nat, uptime: nat, cpus: nat, reset: bool, interval: nat) returns (show: bool)
      requires cpus > 0 && 0 < interval < TWO31
      modifies this
      ensures lastUptime == uptime
      ensures var from := if old(lastUptime) == 0 || reset then uptimeRef else old(lastUptime);
              var spacing, entry := Seconds(from, uptime, cpus), Seconds(uptimeRef, uptime, cpus);
              show <==> MultipleIn(WindowStart(entry, spacing), WindowEnd(entry, spacing), interval)
    {
      if lastUptime == 0 || reset {
        lastUptime := uptimeRef;
      }
      var spacing := ToSeconds(lastUptime, uptime, cpus);
      lastUptime := uptime;
      var entry := ToSeconds(uptimeRef, uptime, cpus);
      show := Shown(entry, spacing, interval);
      ShownIffMultiple(entry, spacing, interval);
    }
  }

  /** The division and rounding, as the source does it. */
  method ToSeconds(from: nat, to: nat, cpus: nat) returns (s: nat)
    requires cpus > 0
    ensures s == Seconds(from, to, cpus) && s <= 42949673
  {
    var t := Ticks(from, to);
    SecondsAreReal(t, cpus);
    SecondsSmall(from, to, cpus);
    s := RoundedReal(t as real / cpus as real / HZ as real);
  }

  lemma SecondsSmall(from: nat, to: nat, cpus: nat)
    requires cpus > 0
    ensures Seconds(from, to, cpus) <= 42949673
  {
    var t, d := Ticks(from, to), cpus * HZ;
    var q, r := t / d, t % d;
    assert t == q * d + r;
    RoundedQuotient(t, d, q, r);
    assert q * d >= q * 100 by {
      NonNegative(d - 100, q);
    }
  }

  lemma BeforeEntry(entry: nat, interval: nat)
    requires interval > 0
    ensures 0 <= entry / interval * interval <= entry
  {
    assert entry == interval * (entry / interval) + entry % interval;
  }

  // ---------- Evenly spaced samples ----------

  /** Uptime of sample j of a run that starts at `start` with samples every `s` seconds. */
  function UptimeAt(start: nat, j: nat, s: nat, cpus: nat): (u: nat) {
    start + j * s * (cpus * HZ)
  }

  /** Sample j is j * s seconds after the start and s seconds after its predecessor. */
  lemma EvenSeconds(start: nat, i: nat, j: nat, s: nat, cpus: nat)
    requires cpus > 0 && i <= j && j * s * (cpus * HZ) < TWO32
    ensures Seconds(UptimeAt(start, i, s, cpus), UptimeAt(start, j, s, cpus), cpus) == (j - i) * s
  {
    var d, k := cpus * HZ, j - i;
    assert UptimeAt(start, j, s, cpus) - UptimeAt(start, i, s, cpus) == k * s * d by {
      Distribute(i, j, s, d);
    }
    assert 0 <= k * s * d <= j * s * d by {
      NonNegative(k * s, d);
      Distribute(i, j, s, d);
      NonNegative(i * s, d);
    }
    RoundedQuotient(k * s * d, d, k * s, 0);
  }

  lemma Distribute(i: nat, j: nat, s: nat, d: nat)
    ensures j * s * d - i * s * d == (j - i) * s * d
  {
    assert (j - i) * s == j * s - i * s;
  }

  /** The window of sample j. */
  ghost predicate InWindow(m: int, j: int, s: nat) {
    j * s - s / 2 <= m < (j + 1) * s - s / 2
  }

  lemma EvenWindow(j: nat, s: nat, m: int)
    ensures WindowStart(j * s, s) <= m < WindowEnd(j * s, s) <==> InWindow(m, j, s)
  {
    assert (j + 1) * s == j * s + s;
  }

  /** The windows of samples 1 to n tile the time line: every second in range is in exactly one. */
  lemma WindowsTile(m: int, n: nat, s: nat)
    requires s > 0 && s - s / 2 <= m < (n + 1) * s - s / 2
    ensures exists j :: 1 <= j <= n && InWindow(m, j, s) && forall i :: InWindow(m, i, s) ==> i == j
  {
    var a := m + s / 2;
    var j := a / s;
    assert a == s * j + a % s;
    assert j * s <= a < (j + 1) * s by {
      assert (j + 1) * s == s * j + s;
    }
    forall i | InWindow(m, i, s)
      ensures i == j
    {
      OnlyWindow(a, i, j, s);
    }
    assert InWindow(m, j, s);
    BetweenMultiples(a, j, n, s);
  }

  lemma OnlyWindow(a: int, i: int, j: int, s: nat)
    requires s > 0 && i * s <= a < (i + 1) * s && j * s <= a < (j + 1) * s
    ensures i == j
  {
    assert (i + 1) * s == i * s + s && (j + 1) * s == j * s + s;
    assert s * (i - j) == i * s - j * s;
    SmallMultiple(s, i - j, i * s - j * s);
  }

  lemma BetweenMultiples(a: int, j: int, n: nat, s: nat)
    requires s > 0 && s <= a < (n + 1) * s && j * s <= a < (j + 1) * s
    ensures 1 <= j <= n
  {
    NonNegative(-j, s);
    NonNegative(j - n - 1, s);
    assert (j + 1) * s == s - (-j) * s;
    assert j * s == (n + 1) * s + (j - n - 1) * s;
  }

  /** Runs the routine over samples 1 to n of an even run. */
  method ShowEvenRun(sl: Slicer, start: nat, n: nat, s: nat, cpus: nat, interval: nat) returns (shown: seq<bool>)
    requires cpus > 0 && 0 < interval < TWO31 && s > 0 && n * s * (cpus * HZ) < TWO32
    modifies sl
    ensures |shown| == n
    ensures forall j :: 1 <= j <= n ==> (shown[j - 1] <==> Chosen(j, s, interval))
  {
    shown := [];
    for j := 1 to n + 1
      invariant |shown| == j - 1
      invariant j > 1 ==> sl.lastUptime == UptimeAt(start, j - 1, s, cpus)
      invariant forall i :: 1 <= i < j ==> (shown[i - 1] <==> Chosen(i, s, interval))
    {
      SampleInRange(j, n, s, cpus);
      EvenSeconds(start, 0, j, s, cpus);
      EvenSeconds(start, j - 1, j, s, cpus);
      LaterSample(start, j - 1, s, cpus);
      var show := sl.NextSlice(start, UptimeAt(start, j, s, cpus), cpus, j == 1, interval);
      ChosenIff(j, s, interval);
      shown := shown + [show];
    }
  }

  lemma SampleInRange(j: nat, n: nat, s: nat, cpus: nat)
    requires j <= n && n * s * (cpus * HZ) < TWO32
    ensures j * s * (cpus * HZ) < TWO32
  {
    Distribute(j, n, s, cpus * HZ);
    NonNegative((n - j) * s, cpus * HZ);
  }

  lemma LaterSample(start: nat, j: nat, s: nat, cpus: nat)
    requires s > 0 && cpus > 0
    ensures UptimeAt(start, 0, s, cpus) == start
    ensures j > 0 ==> UptimeAt(start, j, s, cpus) > 0
  {
    if j > 0 {
      assert j * s > 0;
      assert j * s * (cpus * HZ) > 0;
    }
  }

  /** Sample j is the one whose window holds some multiple of the interval. */
  ghost predicate Chosen(j: int, s: nat, interval: nat) {
    exists k :: InWindow(Multiple(k, interval), j, s)
  }

  lemma ChosenIff(j: nat, s: nat, interval: nat)
    ensures MultipleIn(WindowStart(j * s, s), WindowEnd(j * s, s), interval) <==> Chosen(j, s, interval)
  {
    forall k
      ensures WindowStart(j * s, s) <= Multiple(k, interval) < WindowEnd(j * s, s)
              <==> InWindow(Multiple(k, interval), j, s)
    {
      EvenWindow(j, s, Multiple(k, interval));
    }
  }

  // ---------- Counting ----------

  /** How many of the samples 1 to n are shown. */
  ghost function ShownCount(n: nat, s: nat, interval: nat): (c: nat) {
    if n == 0 then 0 else ShownCount(n - 1, s, interval) + if Chosen(n, s, interval) then 1 else 0
  }

  /** How many of the numbers from lo on, len of them, are multiples of the interval. */
  function MultipleCount(lo: int, len: nat, interval: nat): (c: nat)
    requires interval > 0
  {
    if len == 0 then 0
    else MultipleCount(lo, len - 1, interval) + if (lo + len - 1) % interval == 0 then 1 else 0
  }

  /** The multiples in the time that the windows of samples 1 to n cover. */
  function MultiplesCovered(n: nat, s: nat, interval: nat): (c: nat)
    requires interval > 0
  {
    MultipleCount(s - s / 2, n * s, interval)
  }

  lemma {:induction false} CountSplits(lo: int, a: nat, b: nat, interval: nat)
    requires interval > 0
    ensures MultipleCount(lo, a + b, interval)
            == MultipleCount(lo, a, interval) + MultipleCount(lo + a, b, interval)
  {
    if b > 0 {
      CountSplits(lo, a, b - 1, interval);
    }
  }

  lemma IsMultiple(m: int, interval: nat)
    requires interval > 0
    ensures m % interval == 0 <==> exists k :: Multiple(k, interval) == m
  {
    if m % interval == 0 {
      assert m == interval * (m / interval);
      assert Multiple(m / interval, interval) == m;
    }
    if exists k :: Multiple(k, interval) == m {
      var k :| Multiple(k, interval) == m;
      var q := m / interval;
      assert m == interval * q + m % interval;
      assert interval * (k - q) == m % interval;
      SmallMultiple(interval, k - q, m % interval);
    }
  }

  /** A window no longer than the interval holds at most one multiple. */
  lemma {:induction false} AtMostOne(lo: int, len: nat, interval: nat)
    requires 0 < interval && len <= interval
    ensures MultipleCount(lo, len, interval) == if MultipleIn(lo, lo + len, interval) then 1 else 0
  {
    if len > 0 {
      var m := lo + len - 1;
      AtMostOne(lo, len - 1, interval);
      IsMultiple(m, interval);
      if MultipleIn(lo, lo + len - 1, interval) {
        var i :| lo <= Multiple(i, interval) < lo + len - 1;
        assert MultipleIn(lo, lo + len, interval);
        if m % interval == 0 {
          var k :| Multiple(k, interval) == m;
          TwoMultiples(i, k, interval);
          assert false;
        }
      } else if m % interval == 0 {
        var k :| Multiple(k, interval) == m;
        assert MultipleIn(lo, lo + len, interval);
      } else {
        assert forall i :: Multiple(i, interval) != m;
      }
    } else {
      assert !MultipleIn(lo, lo + 0, interval);
    }
  }

  lemma TwoMultiples(i: int, k: int, interval: nat)
    requires interval > 0 && Multiple(i, interval) < Multiple(k, interval)
    ensures Multiple(k, interval) - Multiple(i, interval) >= interval
  {
    assert interval * (k - i) == Multiple(k, interval) - Multiple(i, interval);
    NonNegative(i - k, interval);
    NonNegative(k - i - 1, interval);
    assert interval * (k - i) == -((i - k) * interval);
    assert interval * (k - i) == interval + (k - i - 1) * interval;
  }

  /** When the interval is at least the spacing, as many samples are shown as there are multiples in range. */
  lemma {:induction false} ShownAreMultiples(n: nat, s: nat, interval: nat)
    requires 0 < s <= interval
    ensures ShownCount(n, s, interval) == MultiplesCovered(n, s, interval)
  {
    if n > 0 {
      ShownAreMultiples(n - 1, s, interval);
      assert n * s == (n - 1) * s + s && (n - 1) * s >= 0;
      CountSplits(s - s / 2, (n - 1) * s, s, interval);
      AtMostOne(n * s - s / 2, s, interval);
      ChosenIff(n, s, interval);
      assert WindowStart(n * s, s) == n * s - s / 2 && WindowEnd(n * s, s) == n * s - s / 2 + s;
    }
  }
}
