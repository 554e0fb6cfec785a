/**
 The ARC4 stream cipher of the kernel crypto API.

 `Context` is the C context, updated in place.  `State` is its value; `Schedule` and
 `Crypt` are the specification functions the methods are proved against.  The cipher is
 then related to the textbook generator, to its own inverse and to the states it excludes.
 */
module Arc4 {
  import opened Bits
  import opened StreamCipher

  /** Unsigned char addition: it wraps around. */
  function Add(a: U8, b: U8): (r: U8) {
    if a + b < 256 then a + b else a + b - 256
  }

  type Box = s: seq<U8> | |s| == 256 witness seq(256, _ => 0)

  /** The C context: the substitution box and the two indexes. */
  datatype State = State(S: Box, x: U8, y: U8)

  ghost predicate IsPermutation(S: Box) {
    forall i, j :: 0 <= i < j < 256 ==> S[i] != S[j]
  }

  function Swap(S: Box, i: U8, j: U8): (r: Box) {
    S[i := S[j]][j := S[i]]
  }

  lemma SwapKeepsPermutation(S: Box, i: U8, j: U8)
    requires IsPermutation(S)
    ensures IsPermutation(Swap(S, i, j))
  {
  }

  lemma SwapTwice(S: Box, i: U8, j: U8)
    ensures Swap(Swap(S, i, j), i, j) == S
  {
  }

  // ---------- Key schedule ----------

  function Identity(): (r: Box) {
    seq(256, i => if 0 <= i < 256 then i else 0)
  }

  /** The key byte used in round i, as an index that goes back to zero at the end of the key. */
  function KeyIndex(i: nat, n: nat): (k: nat)
    requires n > 0
    ensures k < n
  {
    if i == 0 || KeyIndex(i - 1, n) + 1 >= n then 0 else KeyIndex(i - 1, n) + 1
  }

  /** The key is used cyclically. */
  lemma {:induction false} KeyIndexIsModulo(i: nat, n: nat)
    requires n > 0
    ensures KeyIndex(i, n) == i % n
  {
    if i > 0 {
      KeyIndexIsModulo(i - 1, n);
      NextIndex(i - 1, n);
    }
  }

  lemma Wraps(a: int)
    requires 0 <= a < 512
    ensures a % 256 == if a < 256 then a else a - 256
  {
  }

  lemma WrapsTwice(a: U8, b: U8, c: U8)
    ensures (a + b + c) % 256 == Add(Add(a, b), c)
  {
  }

  /** The box and the running index after the first n swaps of the key schedule. */
  function Schedule(key: seq<U8>, n: nat): (r: (Box, U8))
    requires |key| > 0 && n <= 256
  {
    if n == 0 then (Identity(), 0)
    else
      var (S, j) := Schedule(key, n - 1);
      var j' := Add(Add(j, key[KeyIndex(n - 1, |key|)]), S[n - 1]);
      (Swap(S, n - 1, j'), j')
  }

  function Keyed(key: seq<U8>): (r: State)
    requires |key| > 0
  {
    State(Schedule(key, |Identity()|).0, 1, 0)
  }

  // ---------- One byte ----------

  /** The context after one byte has been encrypted. */
  function Next(st: State): (r: State) {
    var y := Add(st.y, st.S[st.x]);
    State(Swap(st.S, st.x, y), Add(st.x, 1), y)
  }

  /** The keystream byte that step uses. */
  function KeyByte(st: State): (k: U8) {
    var y := Add(st.y, st.S[st.x]);
    Swap(st.S, st.x, y)[Add(st.S[st.x], st.S[y])]
  }

  const CIPHER: Generator<State> := Generator(Next, KeyByte)

  // ---------- The implementation ----------

  class Context {
    const S: array<U8>
    var x: U8
    var y: U8

    ghost predicate Valid()
      reads this, S
    {
      S.Length == 256
    }

    ghost function Value(): State
      reads this, S
      requires Valid()
    {
      State(S[..], x, y)
    }

    constructor ()
      ensures Valid() && fresh(S)
    {
      S := new U8[256];
      x, y := 0, 0;
    }

    method SetKey(key: seq<U8>)
      requires Valid() && 1 <= |key| <= 256
      modifies this, S
      ensures Valid() && Value() == Keyed(key)
    {
      x, y := 1, 0;
      FillBox();
      var j: U8, k: nat := 0, 0;
      for i := 0 to 256
        invariant x == 1 && y == 0
        invariant k == KeyIndex(i, |key|)
        invariant (S[..], j) == Schedule(key, i)
      {
        WrapsTwice(j, key[k], S[i]);
        j := (j + key[k] + S[i]) % 256;
        Exchange(i, j);
        k := k + 1;
        if k >= |key| {
          k := 0;
        }
      }
    }

    method FillBox()
      requires Valid()
      modifies S
      ensures S[..] == Identity()
    {
      for i := 0 to 256
        invariant forall k :: 0 <= k < i ==> S[k] == k
      {
        S[i] := i;
      }
    }

    method Exchange(i: U8, j: U8)
      requires Valid()
      modifies S
      ensures S[..] == Swap(old(S[..]), i, j)
    {
      var a := S[i];
      S[i] := S[j];
      assert S[..] == old(S[..])[i := old(S[j])];
      S[j] := a;
    }

    method CryptByte(b: U8) returns (out: U8)
      requires Valid()
      modifies this, S
      ensures Valid()
      ensures Value() == CIPHER.next(old(Value())) && out == Mask(b, CIPHER.out(old(Value())))
    {
      ghost var before := S[..];
      var a: int := S[x];
      Wraps(y + a);
      y := (y + a) % 256;
      var c: int := S[y];
      S[x] := c;
      assert S[..] == before[x := before[y]];
      S[y] := a;
      assert S[..] == Swap(before, x, y);
      Wraps(x + 1);
      Wraps(a + c);
      x := (x + 1) % 256;
      out := Mask(b, S[(a + c) % 256]);
    }

    /** The crypto API calls the cipher once for every byte of the message (block size 1). */
    method CryptMessage(msg: seq<U8>) returns (out: seq<U8>)
      requires Valid()
      modifies this, S
      ensures Valid()
      ensures out == Crypt(CIPHER, old(Value()), msg) && Value() == Advance(CIPHER, old(Value()), |msg|)
    {
      out := [];
      for i := 0 to |msg|
        invariant Valid()
        invariant out == Crypt(CIPHER, old(Value()), msg[..i])
        invariant Value() == Advance(CIPHER, old(Value()), i)
      {
        var b := CryptByte(msg[i]);
        CryptByteByByte(CIPHER, old(Value()), msg, i);
        out := out + [b];
      }
      assert msg[..|msg|] == msg;
    }
  }

  /** The key index that is reset when it reaches the key length is i modulo that length. */
  lemma NextIndex(i: nat, n: nat)
    requires n > 0
    ensures (i + 1) % n == if i % n + 1 >= n then 0 else i % n + 1
  {
    var q, q' := i / n, (i + 1) / n;
    assert n * q + i % n + 1 == n * q' + (i + 1) % n;
    ZeroOrOne(n, q' - q, i % n + 1 - (i + 1) % n);
  }

  lemma ZeroOrOne(n: int, d: int, e: int)
    requires n > 0 && n * d == e && -n < e <= n
    ensures d == 0 || d == 1
  {
  }

  // ---------- Whole runs ----------

  lemma {:induction false} SchedulePermutes(key: seq<U8>, n: nat)
    requires |key| > 0 && n <= 256
    ensures IsPermutation(Schedule(key, n).0)
  {
    if n > 0 {
      SchedulePermutes(key, n - 1);
      var (S, j) := Schedule(key, n - 1);
      SwapKeepsPermutation(S, n - 1, Add(Add(j, key[KeyIndex(n - 1, |key|)]), S[n - 1]));
    }
  }

  /** The box stays a permutation of 0..255 for every key and any number of bytes. */
  lemma {:induction false} RunKeepsPermutation(key: seq<U8>, n: nat)
    requires 1 <= |key| <= 256
    ensures IsPermutation(Advance(CIPHER, Keyed(key), n).S)
  {
    SchedulePermutes(key, |Identity()|);
    if n > 0 {
      RunKeepsPermutation(key, n - 1);
      var st := Advance(CIPHER, Keyed(key), n - 1);
      SwapKeepsPermutation(st.S, st.x, Add(st.y, st.S[st.x]));
    }
  }

  // ---------- The textbook generator ----------

  /** One round of the textbook generator: i is advanced first, then j. */
  function TextbookNext(st: State): (r: State) {
    var i := Add(st.x, 1);
    var j := Add(st.y, st.S[i]);
    State(Swap(st.S, i, j), i, j)
  }

  function TextbookByte(st: State): (k: U8) {
    var r := TextbookNext(st);
    r.S[Add(r.S[r.x], r.S[r.y])]
  }

  const TEXTBOOK: Generator<State> := Generator(TextbookNext, TextbookByte)

  /** The implementation's context against the textbook state: x is one ahead. */
  predicate OneAhead(st: State, tb: State) {
    st.S == tb.S && st.y == tb.y && st.x == Add(tb.x, 1)
  }

  lemma OneRound(st: State, tb: State)
    requires OneAhead(st, tb)
    ensures OneAhead(Next(st), TextbookNext(tb))
    ensures KeyByte(st) == TextbookByte(tb)
  {
    var y := Add(st.y, st.S[st.x]);
    var S := Swap(st.S, st.x, y);
    assert S[st.x] == st.S[y] && S[y] == st.S[st.x];
  }

  /** The keystream of any key is the textbook generator's, run from the scheduled box. */
  lemma KeyStreamIsTextbook(key: seq<U8>, n: nat)
    requires 1 <= |key| <= 256
    ensures KeyStream(CIPHER, Keyed(key), n)
            == KeyStream(TEXTBOOK, State(Schedule(key, |Identity()|).0, 0, 0), n)
  {
    forall st, tb | OneAhead(st, tb)
      ensures OneAhead(CIPHER.next(st), TEXTBOOK.next(tb)) && CIPHER.out(st) == TEXTBOOK.out(tb)
    {
      OneRound(st, tb);
    }
    Simulation(CIPHER, Keyed(key), TEXTBOOK, State(Schedule(key, |Identity()|).0, 0, 0), OneAhead, n);
  }

  // ---------- Running backwards ----------

  function Sub(a: U8, b: U8): (r: U8) {
    if a >= b then a - b else a - b + 256
  }

  function Previous(st: State): (r: State) {
    var x := Sub(st.x, 1);
    var S := Swap(st.S, x, st.y);
    State(S, x, Sub(st.y, S[x]))
  }

  /** Every step can be undone, and every state has a predecessor. */
  lemma PreviousInvertsNext(st: State)
    ensures Previous(Next(st)) == st && Next(Previous(st)) == st
  {
    SwapTwice(st.S, st.x, Add(st.y, st.S[st.x]));
    SwapTwice(st.S, Sub(st.x, 1), st.y);
  }

  // ---------- Excluded states ----------

  predicate Degenerate(st: State) {
    st.x == st.y && st.S[st.x] == 1
  }

  lemma DegenerateIsClosed(st: State)
    ensures Degenerate(Next(st)) <==> Degenerate(st)
    ensures Degenerate(Previous(st)) <==> Degenerate(st)
  {
    if Degenerate(st) {
      assert Degenerate(Next(st));
      assert Degenerate(Previous(st));
    }
    PreviousInvertsNext(st);
    if Degenerate(Next(st)) {
      var n := Next(st);
      assert Degenerate(Previous(n));
    }
    if Degenerate(Previous(st)) {
      var p := Previous(st);
      assert Degenerate(Next(p));
    }
  }

  /** No run from any key reaches a degenerate state. */
  lemma {:induction false} RunAvoidsDegenerate(key: seq<U8>, n: nat)
    requires 1 <= |key| <= 256
    ensures !Degenerate(Advance(CIPHER, Keyed(key), n))
  {
    if n > 0 {
      RunAvoidsDegenerate(key, n - 1);
      DegenerateIsClosed(Advance(CIPHER, Keyed(key), n - 1));
    }
  }
}
