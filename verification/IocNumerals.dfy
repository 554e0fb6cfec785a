/**
 The two number notations of the ioconf code: decimal, and the letters a, b, ..., z, aa, ab, ...
 of disk names.  `Conv` is the shared routine that fills its static buffer from the right.
 */
module IocNumerals {
  import opened Common

  // ---------- Specification ----------

  function Digit(d: nat): (c: char)
    requires d < 10
  {
    (48 + d) as char
  }

  function Letter(d: nat): (c: char)
    requires d < 26
  {
    (97 + d) as char
  }

  function Decimal(n: nat): (s: string) {
    (if n < 10 then [] else Decimal(n / 10)) + [Digit(n % 10)]
  }

  /** Base 26 without a zero: a..z, then aa..az, ba.. and so on. */
  function Letters(n: nat): (s: string) {
    (if n < 26 then [] else Letters(n / 26 - 1)) + [Letter(n % 26)]
  }

  predicate AllDigits(s: string) {
    forall i :: 0 <= i < |s| ==> '0' <= s[i] <= '9'
  }

  predicate AllLetters(s: string) {
    forall i :: 0 <= i < |s| ==> 'a' <= s[i] <= 'z'
  }

  predicate CanonicalDecimal(s: string) {
    |s| > 0 && AllDigits(s) && (s[0] == '0' ==> |s| == 1)
  }

  // ---------- Decoding ----------

  function ReadDecimal(s: string): (n: nat)
    requires AllDigits(s)
  {
    if s == [] then 0 else 10 * ReadDecimal(s[..|s| - 1]) + (s[|s| - 1] as int - 48)
  }

  /** Counts the empty string as 0, so "a" is 1. */
  function ReadLetters(s: string): (n: nat)
    requires AllLetters(s)
  {
    if s == [] then 0 else 26 * ReadLetters(s[..|s| - 1]) + (s[|s| - 1] as int - 97) + 1
  }

  lemma {:induction false} DecimalRoundTrip(n: nat)
    ensures CanonicalDecimal(Decimal(n)) && ReadDecimal(Decimal(n)) == n
    ensures Decimal(n)[0] == '0' ==> n == 0
  {
    var s := Decimal(n);
    if n >= 10 {
      DecimalRoundTrip(n / 10);
      assert s[..|s| - 1] == Decimal(n / 10);
    } else {
      assert s[..|s| - 1] == [];
    }
  }

  lemma {:induction false} ReadDecimalRoundTrip(s: string)
    requires CanonicalDecimal(s)
    ensures Decimal(ReadDecimal(s)) == s
    ensures s[0] != '0' ==> ReadDecimal(s) > 0
  {
    var init, d := s[..|s| - 1], (s[|s| - 1] as int - 48);
    assert init + [s[|s| - 1]] == s && Digit(d) == s[|s| - 1];
    if |s| > 1 {
      ReadDecimalRoundTrip(init);
      DecimalSnoc(ReadDecimal(init), d);
    }
  }

  lemma DecimalSnoc(n: nat, d: nat)
    requires n > 0 && d < 10
    ensures Decimal(10 * n + d) == Decimal(n) + [Digit(d)]
  {
    assert (10 * n + d) / 10 == n && (10 * n + d) % 10 == d;
  }

  lemma LettersSnoc(n: nat, d: nat)
    requires n > 0 && d < 26
    ensures Letters(26 * n + d) == Letters(n - 1) + [Letter(d)]
  {
    assert (26 * n + d) / 26 == n && (26 * n + d) % 26 == d;
  }

  lemma {:induction false} LettersRoundTrip(n: nat)
    ensures AllLetters(Letters(n)) && |Letters(n)| > 0 && ReadLetters(Letters(n)) == n + 1
  {
    var s := Letters(n);
    if n >= 26 {
      LettersRoundTrip(n / 26 - 1);
      assert s[..|s| - 1] == Letters(n / 26 - 1);
    } else {
      assert s[..|s| - 1] == [];
    }
  }

  lemma {:induction false} ReadLettersRoundTrip(s: string)
    requires AllLetters(s) && |s| > 0
    ensures ReadLetters(s) > 0 && Letters(ReadLetters(s) - 1) == s
  {
    var init, d := s[..|s| - 1], (s[|s| - 1] as int - 97);
    assert init + [s[|s| - 1]] == s && Letter(d) == s[|s| - 1];
    assert ReadLetters(s) - 1 == 26 * ReadLetters(init) + d;
    if |s| > 1 {
      ReadLettersRoundTrip(init);
      LettersSnoc(ReadLetters(init), d);
    } else {
      assert init == [] && Letters(d) == [Letter(d)];
    }
  }

  // ---------- Order ----------

  ghost predicate LexLess(a: string, b: string)
    requires |a| == |b|
  {
    exists k :: 0 <= k < |a| && a[..k] == b[..k] && a[k] < b[k]
  }

  /** Shorter names first, equal lengths in dictionary order. */
  ghost predicate ShortlexLess(a: string, b: string) {
    |a| < |b| || (|a| == |b| && LexLess(a, b))
  }

  lemma ShortlexSnoc(a: string, b: string, x: char, y: char)
    requires ShortlexLess(a, b) || (a == b && x < y)
    ensures ShortlexLess(a + [x], b + [y])
  {
    if a == b {
      assert (a + [x])[..|a|] == (b + [y])[..|a|];
    } else if |a| == |b| {
      var k :| 0 <= k < |a| && a[..k] == b[..k] && a[k] < b[k];
      assert (a + [x])[..k] == (b + [y])[..k];
    }
  }

  lemma {:induction false} LettersIncrease(m: nat, n: nat)
    requires m < n
    ensures ShortlexLess(Letters(m), Letters(n))
  {
    if n < 26 {
      ShortlexSnoc([], [], Letter(m), Letter(n));
    } else {
      var p := Letters(n / 26 - 1);
      if m < 26 {
        assert |p| > 0;
      } else {
        if m / 26 < n / 26 {
          LettersIncrease(m / 26 - 1, n / 26 - 1);
        }
        ShortlexSnoc(Letters(m / 26 - 1), p, Letter(m % 26), Letter(n % 26));
      }
    }
  }

  // ---------- Different numbers have different names ----------

  lemma {:induction false} DecimalIsDigits(n: nat)
    ensures |Decimal(n)| > 0 && AllDigits(Decimal(n))
  {
    if n >= 10 {
      DecimalIsDigits(n / 10);
    }
  }

  lemma {:induction false} LettersAreLetters(n: nat)
    ensures |Letters(n)| > 0 && AllLetters(Letters(n))
  {
    if n >= 26 {
      LettersAreLetters(n / 26 - 1);
    }
  }

  lemma {:induction false} DecimalApart(m: nat, n: nat)
    requires Decimal(m) == Decimal(n)
    ensures m == n
  {
    var a, b := if m < 10 then [] else Decimal(m / 10), if n < 10 then [] else Decimal(n / 10);
    SnocApart(a, Digit(m % 10), b, Digit(n % 10));
    if m >= 10 && n >= 10 {
      DecimalApart(m / 10, n / 10);
    } else {
      DecimalIsDigits(m / 10);
      DecimalIsDigits(n / 10);
    }
  }

  lemma SnocApart(a: string, x: char, b: string, y: char)
    requires a + [x] == b + [y]
    ensures a == b && x == y
  {
    assert (a + [x])[..|a|] == a && (b + [y])[..|b|] == b;
    assert (a + [x])[|a|] == x && (b + [y])[|b|] == y;
  }

  lemma LettersApart(m: nat, n: nat)
    requires Letters(m) == Letters(n)
    ensures m == n
  {
    if m < n {
      LettersIncrease(m, n);
    } else if n < m {
      LettersIncrease(n, m);
    }
  }

  // ---------- Length ----------

  /** The first number with more than k decimal digits. */
  function Pow10(k: nat): (r: nat)
    ensures r > 0
  {
    if k == 0 then 1 else 10 * Pow10(k - 1)
  }

  lemma {:induction false} DecimalLength(n: nat, k: nat)
    requires k > 0
    ensures |Decimal(n)| <= k <==> n < Pow10(k)
  {
    if n >= 10 {
      assert |Decimal(n / 10)| > 0;
      if k > 1 {
        DecimalLength(n / 10, k - 1);
      }
    }
  }

  /** The first number whose name has more than k letters. */
  function FirstLonger(k: nat): (r: nat) {
    if k == 0 then 0 else 26 * (FirstLonger(k - 1) + 1)
  }

  lemma {:induction false} LettersLength(n: nat, k: nat)
    ensures |Letters(n)| <= k <==> n < FirstLonger(k)
  {
    if k > 0 && n >= 26 {
      LettersLength(n / 26 - 1, k - 1);
    }
  }

  /** Every unsigned value fits the 16-byte buffer in both notations. */
  lemma NumeralsFit(n: nat)
    requires n < TWO32
    ensures |Decimal(n)| <= 10 && |Letters(n)| <= 7
  {
    DecimalLength(n, 10);
    LettersLength(n, 7);
  }

  // ---------- The routine ----------

  /** The two ways Conv is called: with the ten digits, or with the letters starting from the last. */
  predicate Notation(radix: nat, nozero: bool, syms: string) {
    && |syms| == radix == (if nozero then 26 else 10)
    && forall j :: 0 <= j < |syms| ==>
         syms[j] == if !nozero then Digit(j) else if j == 0 then 'z' else Letter(j - 1)
  }

  /** What Conv leaves for the value v still to be converted. */
  function Rest(radix: nat, nozero: bool, v: nat): (s: string)
    requires radix == if nozero then 26 else 10
  {
    if v == 0 then [] else if nozero then Letters(v - 1) else Decimal(v)
  }

  /** The length of the static buffer; the terminator is stored behind its last character. */
  const ROOM := 16

  /**
   Fills `out` from the right and returns the start of the string; `out` is the static buffer and the
   character behind it.  The increment for the notation without zero wraps around like any unsigned
   addition.
   */
  method Conv(out: array<char>, radix: nat, nozero: bool, syms: string, val: U32) returns (p: nat)
    requires out.Length == ROOM + 1
    requires Notation(radix, nozero, syms)
    modifies out
    ensures p <= ROOM && out[ROOM] == '\0'
    ensures out[p..ROOM] == if !nozero then Decimal(val)
                        else if val == TWO32 - 1 then "" else Letters(val)
  {
    p := ROOM;
    out[p] := '\0';
    var v := val + if nozero then 1 else 0;
    v := if v == TWO32 then 0 else v;
    if v == 0 {
      if !nozero {
        p := p - 1;
        out[p] := '0';
        assert out[p..ROOM] == Decimal(0);
      }
      return;
    }
    NumeralsFit(val);
    p := ConvSymbols(out, radix, nozero, syms, v);
  }

  method ConvSymbols(out: array<char>, radix: nat, nozero: bool, syms: string, val: nat) returns (p: nat)
    requires out.Length == ROOM + 1
    requires Notation(radix, nozero, syms)
    requires |Rest(radix, nozero, val)| <= ROOM
    modifies out
    ensures p <= ROOM && out[ROOM] == old(out[ROOM]) && out[p..ROOM] == Rest(radix, nozero, val)
  {
    p := ROOM;
    var v: nat := val;
    while v > 0
      invariant p <= ROOM && out[ROOM] == old(out[ROOM])
      invariant Rest(radix, nozero, v) + out[p..ROOM] == Rest(radix, nozero, val)
    {
      ghost var suffix, before := out[p..ROOM], Rest(radix, nozero, v);
      var q, j := v / radix, v % radix;
      StepDigit(radix, nozero, syms, v, q, j);
      v := q - if nozero && j == 0 then 1 else 0;
      ghost var left := Rest(radix, nozero, v);
      assert before == left + [syms[j]];
      p := p - 1;
      out[p] := syms[j];
      assert out[p..ROOM] == [syms[j]] + suffix;
      assert before + suffix == left + ([syms[j]] + suffix);
    }
  }

  /** The last symbol of v, and what is left of v once it has been taken. */
  lemma StepDigit(radix: nat, nozero: bool, syms: string, v: nat, q: nat, j: nat)
    requires Notation(radix, nozero, syms)
    requires v > 0 && q == v / radix && j == v % radix
    ensures j < |syms| && 0 <= q - (if nozero && j == 0 then 1 else 0) < v
    ensures Rest(radix, nozero, v)
            == Rest(radix, nozero, q - if nozero && j == 0 then 1 else 0) + [syms[j]]
  {
    if nozero {
      StepLetter(v, q, j);
    }
  }

  lemma StepLetter(v: nat, q: nat, j: nat)
    requires v > 0 && q == v / 26 && j == v % 26
    ensures 0 <= q - (if j == 0 then 1 else 0) < v
    ensures Letters(v - 1) == Rest(26, true, q - if j == 0 then 1 else 0) + [if j == 0 then 'z' else Letter(j - 1)]
  {
    var n := v - 1;
    if j == 0 {
      assert n / 26 == q - 1 && n % 26 == 25;
    } else {
      assert n / 26 == q && n % 26 == j - 1;
    }
  }

  method Ito10(out: array<char>, n: U32) returns (p: nat)
    requires out.Length == ROOM + 1
    modifies out
    ensures p <= ROOM && out[ROOM] == '\0' && out[p..ROOM] == Decimal(n)
  {
    p := Conv(out, 10, false, "0123456789", n);
  }

  /** The name of unit n; only for the largest unsigned value is it not the n-th letter string. */
  method Ito26(out: array<char>, n: U32) returns (p: nat)
    requires out.Length == ROOM + 1
    modifies out
    ensures p <= ROOM && out[ROOM] == '\0'
    ensures out[p..ROOM] == Letters(n) <==> n != TWO32 - 1
    ensures n == TWO32 - 1 ==> out[p..ROOM] == ""
  {
    p := Conv(out, 26, true, "zabcdefghijklmnopqrstuvwxy", n);
    LettersRoundTrip(n);
  }
}
