/**
 Stream ciphers in general: a generator steps from state to state and gives one keystream
 byte at each; a message is enciphered by masking it with the keystream.
 */
module StreamCipher {
  import opened Bits

  function Mask(b: U8, k: U8): (r: U8)
    ensures r == Xor(b, k)
  {
    XorBound(b, k, 8);
    Xor(b, k)
  }

  function MaskAll(msg: seq<U8>, ks: seq<U8>): (out: seq<U8>)
    requires |msg| == |ks|
    ensures |out| == |msg|
  {
    seq(|msg|, i requires 0 <= i < |msg| => Mask(msg[i], ks[i]))
  }

  datatype Generator<!S> = Generator(next: S -> S, out: S -> U8)

  /** The state after n bytes. */
  function Advance<S>(g: Generator<S>, st: S, n: nat): (r: S) {
    if n == 0 then st else g.next(Advance(g, st, n - 1))
  }

  /** The first n keystream bytes produced from `st`. */
  function KeyStream<S>(g: Generator<S>, st: S, n: nat): (ks: seq<U8>)
    ensures |ks| == n
  {
    if n == 0 then [] else KeyStream(g, st, n - 1) + [g.out(Advance(g, st, n - 1))]
  }

  /** The message enciphered (or deciphered) from `st`. */
  function Crypt<S>(g: Generator<S>, st: S, msg: seq<U8>): (out: seq<U8>)
    ensures |out| == |msg|
  {
    MaskAll(msg, KeyStream(g, st, |msg|))
  }

  lemma MaskTwice(msg: seq<U8>, ks: seq<U8>)
    requires |msg| == |ks|
    ensures MaskAll(MaskAll(msg, ks), ks) == msg
  {
    forall i | 0 <= i < |msg|
      ensures Mask(Mask(msg[i], ks[i]), ks[i]) == msg[i]
    {
      XorTwice(msg[i], ks[i]);
    }
  }

  /** Deciphering from an equal state gives the message back. */
  lemma DecryptUndoesEncrypt<S>(g: Generator<S>, st: S, msg: seq<U8>)
    ensures Crypt(g, st, Crypt(g, st, msg)) == msg
  {
    MaskTwice(msg, KeyStream(g, st, |msg|));
  }

  lemma {:induction false} AdvanceSum<S>(g: Generator<S>, st: S, m: nat, n: nat)
    ensures Advance(g, Advance(g, st, m), n) == Advance(g, st, m + n)
  {
    if n > 0 {
      AdvanceSum(g, st, m, n - 1);
    }
  }

  lemma {:induction false} KeyStreamSplits<S>(g: Generator<S>, st: S, m: nat, n: nat)
    ensures KeyStream(g, st, m + n) == KeyStream(g, st, m) + KeyStream(g, Advance(g, st, m), n)
  {
    if n > 0 {
      KeyStreamSplits(g, st, m, n - 1);
      AdvanceSum(g, st, m, n - 1);
    }
  }

  lemma MaskAllSplits(a: seq<U8>, b: seq<U8>, ka: seq<U8>, kb: seq<U8>)
    requires |a| == |ka| && |b| == |kb|
    ensures MaskAll(a + b, ka + kb) == MaskAll(a, ka) + MaskAll(b, kb)
  {
  }

  /** Splitting a message over several calls does not change the ciphertext. */
  lemma CryptSplits<S>(g: Generator<S>, st: S, a: seq<U8>, b: seq<U8>)
    ensures Crypt(g, st, a + b) == Crypt(g, st, a) + Crypt(g, Advance(g, st, |a|), b)
  {
    KeyStreamSplits(g, st, |a|, |b|);
    MaskAllSplits(a, b, KeyStream(g, st, |a|), KeyStream(g, Advance(g, st, |a|), |b|));
  }

  /** One more byte of the message. */
  lemma CryptByteByByte<S>(g: Generator<S>, st: S, msg: seq<U8>, i: nat)
    requires i < |msg|
    ensures Crypt(g, st, msg[..i + 1])
            == Crypt(g, st, msg[..i]) + [Mask(msg[i], g.out(Advance(g, st, i)))]
  {
    assert msg[..i + 1] == msg[..i] + [msg[i]];
    MaskAllSplits(msg[..i], [msg[i]], KeyStream(g, st, i), [g.out(Advance(g, st, i))]);
  }

  /** Generators that match step by step produce the same keystream. */
  lemma {:induction false} Simulation<S(!new), T(!new)>(
      g: Generator<S>, st: S, h: Generator<T>, t: T, rel: (S, T) -> bool, n: nat)
    requires rel(st, t)
    requires forall a, b :: rel(a, b) ==> rel(g.next(a), h.next(b)) && g.out(a) == h.out(b)
    ensures rel(Advance(g, st, n), Advance(h, t, n))
    ensures KeyStream(g, st, n) == KeyStream(h, t, n)
  {
    if n > 0 {
      Simulation(g, st, h, t, rel, n - 1);
    }
  }
}
