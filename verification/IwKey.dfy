/**
 Printing and parsing of wireless encryption keys.  A key is printed as hexadecimal digits with a
 dash after every second byte; the parser takes hexadecimal tokens between separators, plain
 text after "s:", and refuses passphrases.
 */
module IwKey {
  import opened Bits

  const IW_ENCODING_TOKEN_MAX: nat := 32

  datatype KeyResult = Key(bytes: seq<U8>) | Error

  // ---------- Hexadecimal digits ----------

  function HexDigit(d: nat): (c: char)
    requires d < 16
  {
    if d < 10 then (48 + d) as char else (55 + d) as char
  }

  predicate IsHex(c: char) {
    '0' <= c <= '9' || 'A' <= c <= 'F' || 'a' <= c <= 'f'
  }

  function HexOf(c: char): (d: nat)
    requires IsHex(c)
    ensures d < 16
  {
    if c <= '9' then c as int - 48 else if c <= 'F' then c as int - 55 else c as int - 87
  }

  function Hex2(b: U8): (s: string)
    ensures |s| == 2 && IsHex(s[0]) && IsHex(s[1])
    ensures ByteOf(s[0], s[1]) == b
    ensures !IsSeparator(s[0]) && !IsSeparator(s[1])
  {
    [HexDigit(b / 16), HexDigit(b % 16)]
  }

  function ByteOf(high: char, low: char): (b: U8)
    requires IsHex(high) && IsHex(low)
  {
    16 * HexOf(high) + HexOf(low)
  }

  predicate IsSeparator(c: char) {
    c in "-:;.,"
  }

  // ---------- Printing ----------

  /** What is printed for byte i: its digits, or stars when the key may not be read. */
  function Cell(key: seq<U8>, nokey: bool, i: nat): (s: string)
    requires nokey || i < |key|
    ensures |s| == if i > 0 && i % 2 == 0 then 3 else 2
  {
    (if i > 0 && i % 2 == 0 then "-" else "") + if nokey then "**" else Hex2(key[i])
  }

  /** What is printed from byte i on. */
  function PrintFrom(key: seq<U8>, size: nat, nokey: bool, i: nat): (s: string)
    requires nokey || size <= |key|
    decreases size - i
  {
    if i >= size then "" else Cell(key, nokey, i) + PrintFrom(key, size, nokey, i + 1)
  }

  lemma {:induction false} PrintLength(key: seq<U8>, size: nat, nokey: bool, i: nat)
    requires (nokey || size <= |key|) && i < size
    ensures |PrintFrom(key, size, nokey, i)| == 2 * (size - i) + (size - 1) / 2 - (if i == 0 then 0 else (i - 1) / 2)
    decreases size - i
  {
    if i + 1 < size {
      PrintLength(key, size, nokey, i + 1);
    }
  }

  /** What the buffer should hold; a key that may be read is printed from its first byte on even if it has no size. */
  function Printed(buflen: nat, key: seq<U8>, size: int, nokey: bool): (s: string)
    requires !nokey ==> |key| > 0 && size <= |key|
  {
    if size * 3 > buflen then
      if buflen == 0 then "" else if buflen <= 9 then "<too big>"[..buflen - 1] else "<too big>"
    else if nokey && size <= 0 then "on"
    else PrintFrom(key, if size <= 0 then 1 else size, nokey, 0)
  }

  /**
   The size check is enough for keys with a size; without one, three characters are written whatever the buffer's
   length.
   */
  lemma StaysInsideIff(buflen: nat, key: seq<U8>, size: int, nokey: bool)
    requires (!nokey ==> |key| > 0 && size <= |key|) && (buflen > 0 || size <= 0)
    ensures |Printed(buflen, key, size, nokey)| < buflen <==> size > 0 || buflen >= 3
  {
    if size > 0 && size * 3 <= buflen {
      PrintLength(key, size, nokey, 0);
    }
  }

  /** The buffer starts with the C string s. */
  predicate HoldsString(buf: seq<char>, s: string) {
    |s| < |buf| && buf[..|s|] == s && buf[|s|] == '\0'
  }

  /** Copies a C string into the buffer at `at`. */
  method PutString(buffer: array<char>, at: nat, s: string)
    requires at + |s| < buffer.Length
    modifies buffer
    ensures buffer[..at + |s|] == old(buffer[..at]) + s && buffer[at + |s|] == '\0'
    ensures forall k :: at + |s| < k < buffer.Length ==> buffer[k] == old(buffer[k])
  {
    for k := 0 to |s|
      invariant buffer[..at + k] == old(buffer[..at]) + s[..k]
      invariant forall j :: at + k <= j < buffer.Length ==> buffer[j] == old(buffer[j])
    {
      buffer[at + k] := s[k];
      assert buffer[..at + k + 1] == buffer[..at + k] + [s[k]];
      assert s[..k + 1] == s[..k] + [s[k]];
    }
    assert s[..|s|] == s;
    buffer[at + |s|] := '\0';
  }

  /**
   Prints a key into the first `buflen` characters of a piece of memory.  The text and its terminator
   are written, and nothing else; only with no room at all and too big a key nothing is written.
   */
  method PrintKey(buffer: array<char>, buflen: nat, key: seq<U8>, size: int, nokey: bool)
    requires buflen <= buffer.Length && 3 <= buffer.Length
    requires !nokey ==> |key| > 0 && size <= |key|
    modifies buffer
    ensures size > 0 && buflen == 0 ==> buffer[..] == old(buffer[..])
    ensures buflen > 0 || size <= 0 ==>
              var text := Printed(buflen, key, size, nokey);
              && HoldsString(buffer[..], text)
              && forall k :: |text| < k < buffer.Length ==> buffer[k] == old(buffer[k])
  {
    if size * 3 > buflen {
      if buflen > 0 {
        var room := if buflen <= 9 then buflen - 1 else 9;
        PutString(buffer, 0, "<too big>"[..room]);
      }
      return;
    }
    if nokey && size <= 0 {
      PutString(buffer, 0, "on");
      return;
    }
    PrintBytes(buffer, key, if size <= 0 then 1 else size, nokey);
  }

  /** Three characters for each byte are enough for the digits, the dashes and the final NUL. */
  method PrintBytes(buffer: array<char>, key: seq<U8>, size: nat, nokey: bool)
    requires (nokey || size <= |key|) && 0 < size && 3 * size <= buffer.Length
    modifies buffer
    ensures var text := PrintFrom(key, size, nokey, 0);
            && HoldsString(buffer[..], text)
            && forall k :: |text| < k < buffer.Length ==> buffer[k] == old(buffer[k])
  {
    PrintLength(key, size, nokey, 0);
    ghost var whole := PrintFrom(key, size, nokey, 0);
    assert whole == Cell(key, nokey, 0) + PrintFrom(key, size, nokey, 1);
    PutString(buffer, 0, Cell(key, nokey, 0));
    var at: nat := 2;
    for i := 1 to size
      invariant at < buffer.Length && buffer[at] == '\0'
      invariant buffer[..at] + PrintFrom(key, size, nokey, i) == whole
      invariant forall k :: at < k < buffer.Length ==> buffer[k] == old(buffer[k])
    {
      ghost var before, rest := buffer[..at], PrintFrom(key, size, nokey, i + 1);
      var piece := Cell(key, nokey, i);
      assert before + (piece + rest) == (before + piece) + rest;
      assert |before| == at && |before| + |piece| <= |whole|;
      PutString(buffer, at, piece);
      at := at + |piece|;
    }
    assert buffer[..at] == whole;
  }

  // ---------- Parsing ----------

  predicate IsSpace(c: char) {
    c == ' ' || '\t' <= c <= '\r'
  }

  function SkipSpaces(s: string): (r: string)
    ensures |r| <= |s|
  {
    if s != "" && IsSpace(s[0]) then SkipSpaces(s[1..]) else s
  }

  /** sscanf with two one-digit hexadecimal conversions; each skips white space first. */
  function Scan(p: string): (digits: seq<nat>)
    ensures |digits| <= 2 && forall i :: 0 <= i < |digits| ==> digits[i] < 16
  {
    var a := SkipSpaces(p);
    if a == "" || !IsHex(a[0]) then []
    else
      var b := SkipSpaces(a[1..]);
      if b == "" || !IsHex(b[0]) then [HexOf(a[0])] else [HexOf(a[0]), HexOf(b[0])]
  }

  /** Characters taken from a token at each step: one when an odd number is left. */
  function TakenFrom(p: string): (n: nat)
    requires |Scan(p)| > 0
    ensures 1 <= n <= 2 && n <= |p|
  {
    if |p| % 2 == 1 then 1 else |Scan(p)|
  }

  function ByteFrom(p: string): (b: U8)
    requires |Scan(p)| > 0
  {
    if TakenFrom(p) == 2 then 16 * Scan(p)[0] + Scan(p)[1] else Scan(p)[0]
  }

  function TokenLength(s: string): (n: nat)
    ensures n <= |s| && (n < |s| ==> IsSeparator(s[n]))
    ensures forall i :: 0 <= i < n ==> !IsSeparator(s[i])
  {
    if s == "" || IsSeparator(s[0]) then 0 else 1 + TokenLength(s[1..])
  }

  /** The tokens that strtok delivers one after the other. */
  function Tokens(s: string): (ts: seq<string>) {
    if s == "" then []
    else if IsSeparator(s[0]) then Tokens(s[1..])
    else
      var n := TokenLength(s);
      [s[..n]] + Tokens(s[n..])
  }

  function TotalLength(ts: seq<string>): (n: nat) {
    if ts == [] then 0 else |ts[0]| + 1 + TotalLength(ts[1..])
  }

  /** How one byte is taken from a token: whether it can be, how many characters go, and the byte. */
  datatype Scanner = Scanner(ready: string -> bool, taken: string -> nat, byte: string -> U8)

  const HEX: Scanner := Scanner(
    (p: string) => Scan(p) != [],
    (p: string) => if Scan(p) != [] then TakenFrom(p) else 0,
    (p: string) => if Scan(p) != [] then ByteFrom(p) else 0)

  /** The tokens left after one byte has been taken from the first of them. */
  function AfterStep(sc: Scanner, ts: seq<string>): (r: seq<string>)
    requires ts != []
    ensures TotalLength(r) < TotalLength(ts)
  {
    var n := sc.taken(ts[0]);
    if 0 < n < |ts[0]| then
      assert ([ts[0][n..]] + ts[1..])[1..] == ts[1..];
      [ts[0][n..]] + ts[1..]
    else ts[1..]
  }

  /** The parse of the remaining tokens after the bytes `out` have been found. */
  function Collect(sc: Scanner, ts: seq<string>, out: seq<U8>): (r: KeyResult)
    decreases TotalLength(ts)
  {
    if ts == [] || |out| >= IW_ENCODING_TOKEN_MAX then Key(out)
    else if !sc.ready(ts[0]) then Error
    else Collect(sc, AfterStep(sc, ts), out + [sc.byte(ts[0])])
  }

  function Concat(value: string -> seq<U8>, ts: seq<string>): (b: seq<U8>) {
    if ts == [] then [] else value(ts[0]) + Concat(value, ts[1..])
  }

  function Capped(b: seq<U8>): (r: seq<U8>) {
    if |b| <= IW_ENCODING_TOKEN_MAX then b else b[..IW_ENCODING_TOKEN_MAX]
  }

  /** `value` is what the scanner makes of the good token t, byte by byte. */
  ghost predicate Reads(sc: Scanner, good: string -> bool, value: string -> seq<U8>, t: string) {
    var n := sc.taken(t);
    && sc.ready(t)
    && (0 < n < |t| ==> good(t[n..]) && value(t) == [sc.byte(t)] + value(t[n..]))
    && (!(0 < n < |t|) ==> value(t) == [sc.byte(t)])
  }

  lemma AfterStepBytes(sc: Scanner, good: string -> bool, value: string -> seq<U8>, ts: seq<string>)
    requires ts != [] && (forall t :: t in ts ==> good(t)) && Reads(sc, good, value, ts[0])
    ensures forall t :: t in AfterStep(sc, ts) ==> good(t)
    ensures Concat(value, ts) == [sc.byte(ts[0])] + Concat(value, AfterStep(sc, ts))
  {
    var t, n := ts[0], sc.taken(ts[0]);
    if 0 < n < |t| {
      ConcatCons(value, t[n..], ts[1..]);
      assert [sc.byte(t)] + (value(t[n..]) + Concat(value, ts[1..])) == value(t) + Concat(value, ts[1..]);
    }
  }

  lemma ConcatCons(value: string -> seq<U8>, t: string, ts: seq<string>)
    ensures Concat(value, [t] + ts) == value(t) + Concat(value, ts)
  {
    assert ([t] + ts)[1..] == ts;
  }

  /** Good tokens never fail; their bytes follow each other up to the size of a key. */
  lemma {:induction false} CollectGood(sc: Scanner, good: string -> bool, value: string -> seq<U8>,
                                       ts: seq<string>, out: seq<U8>)
    requires forall t {:trigger Reads(sc, good, value, t)} :: good(t) ==> Reads(sc, good, value, t)
    requires (forall t :: t in ts ==> good(t)) && |out| <= IW_ENCODING_TOKEN_MAX
    ensures Collect(sc, ts, out) == Key(Capped(out + Concat(value, ts)))
    decreases TotalLength(ts)
  {
    if ts == [] {
      assert out + [] == out;
    } else if |out| < IW_ENCODING_TOKEN_MAX {
      assert good(ts[0]) && Reads(sc, good, value, ts[0]);
      AfterStepBytes(sc, good, value, ts);
      var b, rest := [sc.byte(ts[0])], Concat(value, AfterStep(sc, ts));
      assert out + (b + rest) == (out + b) + rest;
      CollectGood(sc, good, value, AfterStep(sc, ts), out + b);
    } else {
      assert Capped(out + Concat(value, ts)) == out;
    }
  }

  function TextBytes(s: string): (b: seq<U8>)
    ensures |b| == |s|
  {
    seq(|s|, i requires 0 <= i < |s| => s[i] as int % 256)
  }

  /** Converts what the user typed into a key. */
  method InKey(input: string) returns (r: KeyResult)
    ensures r == if "s:" <= input then
                   Key(TextBytes(input[2..if |input| - 2 > IW_ENCODING_TOKEN_MAX then IW_ENCODING_TOKEN_MAX + 2
                                       else |input|]))
                 else if "p:" <= input then Error
                 else Collect(HEX, Tokens(input), [])
  {
    if "s:" <= input {
      var keylen := |input| - 2;
      if keylen > IW_ENCODING_TOKEN_MAX {
        keylen := IW_ENCODING_TOKEN_MAX;
      }
      return Key(TextBytes(input[2..2 + keylen]));
    }
    if "p:" <= input {
      return Error;
    }
    var out: seq<U8> := [];
    var p, rest := NextToken(input);
    while p != "" && |out| < IW_ENCODING_TOKEN_MAX
      invariant p == "" ==> Tokens(rest) == []
      invariant Collect(HEX, (if p == "" then [] else [p]) + Tokens(rest), out) == Collect(HEX, Tokens(input), [])
      decreases |rest|, |p|
    {
      ghost var ts := [p] + Tokens(rest);
      assert ts[0] == p && ts[1..] == Tokens(rest);
      var digits := Scan(p);
      if |digits| < 1 {
        return Error;
      }
      var taken := |digits|;
      if |p| % 2 == 1 {
        taken := 1;
      }
      var low := if taken == 2 then 16 * digits[0] + digits[1] else digits[0];
      assert low == ByteFrom(p);
      out := out + [low];
      if |p| > taken {
        p := p[taken..];
      } else {
        p, rest := NextToken(rest);
      }
    }
    r := Key(out);
  }

  /** One call of strtok: the next token, empty when there is none, and what follows it. */
  method NextToken(s: string) returns (token: string, rest: string)
    ensures token == "" ==> Tokens(s) == [] && Tokens(rest) == []
    ensures token != "" ==> Tokens(s) == [token] + Tokens(rest) && |rest| < |s|
    ensures |rest| <= |s|
  {
    rest := s;
    while rest != "" && IsSeparator(rest[0])
      invariant Tokens(rest) == Tokens(s) && |rest| <= |s|
      decreases |rest|
    {
      rest := rest[1..];
    }
    var n := TokenLength(rest);
    token, rest := rest[..n], rest[n..];
  }

  // ---------- What the parser makes of hexadecimal tokens ----------

  predicate HexToken(t: string) {
    forall i :: 0 <= i < |t| ==> IsHex(t[i])
  }

  function EvenPairs(t: string): (b: seq<U8>)
    requires HexToken(t) && |t| % 2 == 0
    ensures |b| == |t| / 2
  {
    if t == "" then [] else [ByteOf(t[0], t[1])] + EvenPairs(t[2..])
  }

  /** Two digits to a byte, the odd one first. */
  function Pairs(t: string): (b: seq<U8>)
    requires HexToken(t)
    ensures |b| == (|t| + 1) / 2
  {
    if |t| % 2 == 1 then [HexOf(t[0])] + EvenPairs(t[1..]) else EvenPairs(t)
  }

  lemma ScanHex(t: string)
    requires HexToken(t) && t != ""
    ensures Scan(t) == if |t| == 1 then [HexOf(t[0])] else [HexOf(t[0]), HexOf(t[1])]
  {
    assert SkipSpaces(t) == t;
    if |t| > 1 {
      assert SkipSpaces(t[1..]) == t[1..];
    }
  }

  /** One step into a hexadecimal token takes the first of its bytes. */
  lemma StepHex(t: string)
    requires HexToken(t) && t != ""
    ensures Scan(t) != [] && TakenFrom(t) <= |t|
    ensures Pairs(t) == [ByteFrom(t)] + Pairs(t[TakenFrom(t)..])
  {
    ScanHex(t);
    if |t| % 2 == 1 {
      assert Pairs(t[1..]) == EvenPairs(t[1..]);
    } else {
      assert Pairs(t[2..]) == EvenPairs(t[2..]);
    }
  }

  /** The bytes of a token, nothing for text that is not hexadecimal. */
  function TokenBytes(t: string): (b: seq<U8>) {
    if HexToken(t) then Pairs(t) else []
  }

  predicate GoodToken(t: string) {
    HexToken(t) && t != ""
  }

  /** The parser's bytes of hexadecimal tokens: the bytes of each token, one token after the other. */
  lemma CollectHex(ts: seq<string>)
    requires forall t :: t in ts ==> GoodToken(t)
    ensures Collect(HEX, ts, []) == Key(Capped(Concat(TokenBytes, ts)))
  {
    forall t | GoodToken(t)
      ensures Reads(HEX, GoodToken, TokenBytes, t)
    {
      StepHex(t);
    }
    CollectGood(HEX, GoodToken, TokenBytes, ts, []);
    assert [] + Concat(TokenBytes, ts) == Concat(TokenBytes, ts);
  }

  // ---------- Numeric value of a token ----------

  function HexValue(t: string): (v: nat)
    requires HexToken(t)
  {
    if t == "" then 0 else 16 * HexValue(t[..|t| - 1]) + HexOf(t[|t| - 1])
  }

  /** The n low bytes of v, most significant first. */
  function BigEndian(v: nat, n: nat): (b: seq<U8>) {
    if n == 0 then [] else BigEndian(v / 256, n - 1) + [v % 256]
  }

  lemma {:induction false} EvenPairsSnoc(w: string, a: char, b: char)
    requires HexToken(w) && |w| % 2 == 0 && IsHex(a) && IsHex(b)
    ensures EvenPairs(w + [a, b]) == EvenPairs(w) + [ByteOf(a, b)]
  {
    var t := w + [a, b];
    if w == "" {
      assert t[2..] == "";
    } else {
      EvenPairsSnoc(w[2..], a, b);
      assert t[2..] == w[2..] + [a, b];
    }
  }

  lemma PairsSnoc(w: string, a: char, b: char)
    requires HexToken(w) && IsHex(a) && IsHex(b)
    ensures Pairs(w + [a, b]) == Pairs(w) + [ByteOf(a, b)]
  {
    if |w| % 2 == 1 {
      EvenPairsSnoc(w[1..], a, b);
      assert (w + [a, b])[1..] == w[1..] + [a, b];
    } else {
      EvenPairsSnoc(w, a, b);
    }
  }

  lemma HexValueSnoc(w: string, a: char, b: char)
    requires HexToken(w) && IsHex(a) && IsHex(b)
    ensures HexValue(w + [a, b]) == 256 * HexValue(w) + ByteOf(a, b)
  {
    var t := w + [a, b];
    assert t[..|t| - 1] == w + [a];
    assert (w + [a])[..|w|] == w;
  }

  /** A token of any length decodes to its numeric value, padded with a zero digit when odd. */
  lemma {:induction false} PairsAreValue(t: string)
    requires HexToken(t)
    ensures Pairs(t) == BigEndian(HexValue(t), (|t| + 1) / 2)
    decreases |t|
  {
    if |t| == 1 {
      assert t[..0] == "" && Pairs(t) == [HexOf(t[0])];
      BigEndianSnoc(0, HexOf(t[0]), 0);
    } else if |t| >= 2 {
      var w, a, b := t[..|t| - 2], t[|t| - 2], t[|t| - 1];
      assert t == w + [a, b] && (|t| + 1) / 2 == (|w| + 1) / 2 + 1;
      PairsAreValue(w);
      PairsSnoc(w, a, b);
      HexValueSnoc(w, a, b);
      BigEndianSnoc(HexValue(w), ByteOf(a, b), (|w| + 1) / 2);
    }
  }

  lemma BigEndianSnoc(v: nat, b: U8, n: nat)
    ensures BigEndian(256 * v + b, n + 1) == BigEndian(v, n) + [b]
  {
    assert (256 * v + b) / 256 == v && (256 * v + b) % 256 == b;
  }

  // ---------- Round trip ----------

  /** The tokens of a printed key, from byte i on. */
  function KeyTokens(key: seq<U8>, i: nat): (ts: seq<string>)
    ensures forall t :: t in ts ==> GoodToken(t)
    decreases |key| - i
  {
    if i >= |key| then []
    else if i + 1 == |key| then [Hex2(key[i])]
    else [Hex2(key[i]) + Hex2(key[i + 1])] + KeyTokens(key, i + 2)
  }

  lemma TokenThen(t: string, s: string)
    requires HexToken(t) && t != "" && (s == "" || IsSeparator(s[0]))
    ensures Tokens(t + s) == [t] + Tokens(s)
  {
    HexTokenLength(t, s);
    assert (t + s)[..|t|] == t && (t + s)[|t|..] == s;
  }

  lemma {:induction false} HexTokenLength(t: string, s: string)
    requires HexToken(t) && (s == "" || IsSeparator(s[0]))
    ensures TokenLength(t + s) == |t|
  {
    if t == "" {
      assert t + s == s;
    } else {
      assert (t + s)[1..] == t[1..] + s;
      HexTokenLength(t[1..], s);
    }
  }

  lemma AfterSeparator(s: string)
    ensures Tokens("-" + s) == Tokens(s)
  {
    assert ("-" + s)[1..] == s;
  }

  /** A printed token, with or without a dash before it. */
  lemma TokenAfterDash(dash: string, t: string, s: string)
    requires dash == "" || dash == "-"
    requires HexToken(t) && t != "" && (s == "" || IsSeparator(s[0]))
    ensures Tokens(dash + t + s) == [t] + Tokens(s)
  {
    TokenThen(t, s);
    var all := dash + t + s;
    if dash == "-" {
      assert all == "-" + (t + s);
      AfterSeparator(t + s);
    } else {
      assert all == t + s;
    }
  }

  /** What follows a pair of bytes is nothing, or begins with a dash. */
  lemma BeginsWithDash(key: seq<U8>, i: nat)
    requires i % 2 == 0 && i > 0
    ensures var s := PrintFrom(key, |key|, false, i);
            s == "" || IsSeparator(s[0])
  {
  }

  lemma {:induction false} TokensOfPrinted(key: seq<U8>, i: nat)
    requires i % 2 == 0
    ensures Tokens(PrintFrom(key, |key|, false, i)) == KeyTokens(key, i)
    decreases |key| - i
  {
    var dash := if i > 0 then "-" else "";
    if i + 1 < |key| {
      var t, rest := Hex2(key[i]) + Hex2(key[i + 1]), PrintFrom(key, |key|, false, i + 2);
      PrintTwo(key, i);
      BeginsWithDash(key, i + 2);
      TokensOfPrinted(key, i + 2);
      TokenAfterDash(dash, t, rest);
    } else if i < |key| {
      PrintOne(key, i);
      TokenAfterDash(dash, Hex2(key[i]), "");
    }
  }

  lemma PrintOne(key: seq<U8>, i: nat)
    requires i % 2 == 0 && i + 1 == |key|
    ensures PrintFrom(key, |key|, false, i) == (if i > 0 then "-" else "") + Hex2(key[i]) + ""
  {
  }

  lemma PrintTwo(key: seq<U8>, i: nat)
    requires i % 2 == 0 && i + 1 < |key|
    ensures PrintFrom(key, |key|, false, i)
            == (if i > 0 then "-" else "") + (Hex2(key[i]) + Hex2(key[i + 1])) + PrintFrom(key, |key|, false, i + 2)
  {
    assert PrintFrom(key, |key|, false, i + 1) == Hex2(key[i + 1]) + PrintFrom(key, |key|, false, i + 2);
  }

  lemma {:induction false} KeyTokensBytes(key: seq<U8>, i: nat)
    requires i <= |key|
    ensures Concat(TokenBytes, KeyTokens(key, i)) == key[i..]
    decreases |key| - i
  {
    if i + 1 == |key| {
      var t := Hex2(key[i]);
      assert Pairs(t) == [ByteOf(t[0], t[1])] + Pairs(t[2..]);
      assert KeyTokens(key, i)[1..] == [];
      assert Pairs(t) == [key[i]];
    } else if i < |key| {
      var a, b := Hex2(key[i]), Hex2(key[i + 1]);
      var t := a + b;
      KeyTokensBytes(key, i + 2);
      assert t[2..] == b && b[2..] == "";
      assert Pairs(t) == [key[i]] + Pairs(b) && Pairs(b) == [key[i + 1]];
      assert KeyTokens(key, i)[1..] == KeyTokens(key, i + 2);
    }
  }

  /** A printed key parses back to itself. */
  lemma PrintThenParse(key: seq<U8>)
    requires 1 <= |key| <= IW_ENCODING_TOKEN_MAX
    ensures var s := PrintFrom(key, |key|, false, 0);
            && !("s:" <= s) && !("p:" <= s) && Collect(HEX, Tokens(s), []) == Key(key)
  {
    TokensOfPrinted(key, 0);
    KeyTokensBytes(key, 0);
    CollectHex(KeyTokens(key, 0));
    assert key[0..] == key;
    var s := PrintFrom(key, |key|, false, 0);
    assert s[0] == Hex2(key[0])[0] && IsHex(s[0]);
  }
}
