/** Natural numbers seen as strings of bits, the least significant bit first. */
module Bits {

  /** An unsigned char used as a number. */
  type U8 = n: int | 0 <= n < 256

  function Pow2(n: nat): (p: nat)
    ensures p > 0
  {
    if n == 0 then 1 else 2 * Pow2(n - 1)
  }

  /** Bit k of x. */
  function Bit(x: nat, k: nat): (b: bool) {
    if k == 0 then x % 2 == 1 else Bit(x / 2, k - 1)
  }

  function Or(a: nat, b: nat): (r: nat) {
    if a == 0 then b else if b == 0 then a
    else 2 * Or(a / 2, b / 2) + (if a % 2 == 1 || b % 2 == 1 then 1 else 0)
  }

  function Xor(a: nat, b: nat): (r: nat)
    decreases a + b
  {
    if a == 0 && b == 0 then 0
    else 2 * Xor(a / 2, b / 2) + (if a % 2 != b % 2 then 1 else 0)
  }

  lemma {:induction false} XorBound(a: nat, b: nat, n: nat)
    requires a < Pow2(n) && b < Pow2(n)
    ensures Xor(a, b) < Pow2(n)
    decreases n
  {
    if n > 0 {
      XorBound(a / 2, b / 2, n - 1);
    }
  }

  /** Applying the same mask twice gives the number back. */
  lemma {:induction false} XorTwice(a: nat, k: nat)
    ensures Xor(Xor(a, k), k) == a
    decreases a + k
  {
    if a != 0 || k != 0 {
      XorTwice(a / 2, k / 2);
      var x := Xor(a / 2, k / 2);
      var bit := if a % 2 != k % 2 then 1 else 0;
      assert (2 * x + bit) / 2 == x && (2 * x + bit) % 2 == bit;
    }
  }

  // ---------- Shifts and truncation ----------

  function Shl(x: nat, s: nat): (r: nat) {
    if s == 0 then x else 2 * Shl(x, s - 1)
  }

  function Shr(x: nat, s: nat): (r: nat) {
    if s == 0 then x else Shr(x / 2, s - 1)
  }

  /** The low m bits of x: what is left when x is stored in an m-bit object. */
  function Low(x: nat, m: nat): (r: nat)
    ensures r < Pow2(m)
  {
    if m == 0 then 0 else 2 * Low(x / 2, m - 1) + x % 2
  }

  lemma {:induction false} LowOfSmall(x: nat, m: nat)
    requires x < Pow2(m)
    ensures Low(x, m) == x
  {
    if m > 0 {
      LowOfSmall(x / 2, m - 1);
    }
  }

  // ---------- What each operation does to a bit ----------

  lemma {:induction false} ZeroBits(k: nat)
    ensures !Bit(0, k)
  {
    if k > 0 {
      ZeroBits(k - 1);
    }
  }

  lemma {:induction false} BitOfOr(a: nat, b: nat, k: nat)
    ensures Bit(Or(a, b), k) <==> Bit(a, k) || Bit(b, k)
    decreases k
  {
    ZeroBits(k);
    if a != 0 && b != 0 {
      var h, bit := Or(a / 2, b / 2), if a % 2 == 1 || b % 2 == 1 then 1 else 0;
      assert (2 * h + bit) / 2 == h && (2 * h + bit) % 2 == bit;
      if k > 0 {
        BitOfOr(a / 2, b / 2, k - 1);
      }
    }
  }

  lemma {:induction false} BitOfShl(x: nat, s: nat, k: nat)
    ensures Bit(Shl(x, s), k) <==> k >= s && Bit(x, k - s)
  {
    if s > 0 {
      var h := Shl(x, s - 1);
      assert (2 * h) / 2 == h && (2 * h) % 2 == 0;
      if k > 0 {
        BitOfShl(x, s - 1, k - 1);
      }
    }
  }

  lemma {:induction false} BitOfShr(x: nat, s: nat, k: nat)
    ensures Bit(Shr(x, s), k) <==> Bit(x, k + s)
  {
    if s > 0 {
      BitOfShr(x / 2, s - 1, k);
    }
  }

  lemma {:induction false} BitOfLow(x: nat, m: nat, k: nat)
    ensures Bit(Low(x, m), k) <==> k < m && Bit(x, k)
  {
    if m == 0 {
      ZeroBits(k);
    } else {
      var h, bit := Low(x / 2, m - 1), x % 2;
      assert (2 * h + bit) / 2 == h && (2 * h + bit) % 2 == bit;
      if k > 0 {
        BitOfLow(x / 2, m - 1, k - 1);
      }
    }
  }

  /** Two m-bit numbers with the same bits are the same number. */
  lemma {:induction false} SameBits(a: nat, b: nat, m: nat)
    requires a < Pow2(m) && b < Pow2(m)
    requires forall k :: 0 <= k < m ==> Bit(a, k) == Bit(b, k)
    ensures a == b
  {
    if m > 0 {
      assert Bit(a, 0) == Bit(b, 0);
      forall k | 0 <= k < m - 1
        ensures Bit(a / 2, k) == Bit(b / 2, k)
      {
        assert Bit(a, k + 1) == Bit(b, k + 1);
      }
      SameBits(a / 2, b / 2, m - 1);
    }
  }

  lemma {:induction false} OrBound(a: nat, b: nat, m: nat)
    requires a < Pow2(m) && b < Pow2(m)
    ensures Or(a, b) < Pow2(m)
    decreases m
  {
    if m > 0 {
      OrBound(a / 2, b / 2, m - 1);
    }
  }

  /** A number without bits from m upwards is its own truncation. */
  lemma {:induction false} NoHighBits(x: nat, m: nat)
    requires forall k: nat :: k >= m ==> !Bit(x, k)
    ensures Low(x, m) == x
    decreases x + m
  {
    if x > 0 {
      if m == 0 {
        assert !Bit(x, 0);
      }
      forall k: nat | k >= (if m == 0 then 0 else m - 1)
        ensures !Bit(x / 2, k)
      {
        assert !Bit(x, k + 1);
      }
      NoHighBits(x / 2, if m == 0 then 0 else m - 1);
    } else {
      LowOfSmall(0, m);
    }
  }

  // ---------- Single bits ----------

  function SetBit(x: nat, k: nat): (r: nat) {
    if k == 0 then x - x % 2 + 1 else 2 * SetBit(x / 2, k - 1) + x % 2
  }

  function ClearBit(x: nat, k: nat): (r: nat) {
    if k == 0 then x - x % 2 else 2 * ClearBit(x / 2, k - 1) + x % 2
  }

  lemma {:induction false} BitOfClearBit(x: nat, k: nat, j: nat)
    ensures Bit(ClearBit(x, k), j) <==> j != k && Bit(x, j)
  {
    if k > 0 {
      var h := ClearBit(x / 2, k - 1);
      assert (2 * h + x % 2) / 2 == h && (2 * h + x % 2) % 2 == x % 2;
      if j > 0 {
        BitOfClearBit(x / 2, k - 1, j - 1);
      }
    } else {
      assert (x - x % 2) / 2 == x / 2;
    }
  }

  lemma {:induction false} SingleBitBounds(x: nat, k: nat, m: nat)
    requires x < Pow2(m) && k < m
    ensures SetBit(x, k) < Pow2(m) && ClearBit(x, k) < Pow2(m)
  {
    if k > 0 {
      SingleBitBounds(x / 2, k - 1, m - 1);
    }
  }
}
