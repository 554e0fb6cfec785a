/**
 The decoder of wireless event streams.  A stream is a run of events; an event is a header with
 its length and command and then, depending on the command, one or more values of a fixed size,
 a point with an optional payload, or a body nobody knows.  The decoder is called once for each value.
 Sizes are those of the 32-bit target; multi-byte fields are read in its big-endian order.
 */
module IwStream {
  import opened Common
  import opened Bits

  /** Length of the event header: the length and the command. */
  const LCP_LEN: nat := 4
  const SIOCIWFIRST: nat := 0x8B00
  const SIOCIWLAST: nat := 0x8BFF
  const IWEVFIRST: nat := 0x8C00

  datatype HeaderType = Null | Char | Uint | Freq | Addr | Point | Param | Qual

  /** Types of the standard requests, starting from the first request number. */
  const STANDARD_IOCTL_HDR: seq<HeaderType> :=
    [ Null, Char, Param, Param, Freq, Freq, Uint, Uint, Param, Param,
      Null, Point, Null, Point, Null, Point, Point, Point, Point, Point,
      Addr, Addr, Null, Point, Param, Point, Point, Point, Point, Point,
      Null, Null, Param, Param, Param, Param, Param, Param, Param, Param,
      Param, Param, Point, Point, Param, Param ]

  /** Types of the events that are not requests. */
  const STANDARD_EVENT_HDR: seq<HeaderType> := [Addr, Qual, Point, Addr, Addr]

  /** Bytes of one value of each type, without the header; nothing for the type nobody knows. */
  function ValueSize(t: HeaderType): (n: nat)
    ensures n == 0 || n == 4 || n == 8 || n == 16
    ensures n == 0 <==> t.Null?
  {
    match t
    case Null => 0
    case Char => 16
    case Uint => 4
    case Freq => 8
    case Addr => 16
    case Point => 8
    case Param => 8
    case Qual => 4
  }

  /** The command index is unsigned: a command below the table wraps around to a huge index. */
  function EventType(cmd: nat): (t: HeaderType) {
    if cmd <= SIOCIWLAST then
      var index := cmd - SIOCIWFIRST;
      if 0 <= index < |STANDARD_IOCTL_HDR| then STANDARD_IOCTL_HDR[index] else Null
    else
      var index := cmd - IWEVFIRST;
      if index < |STANDARD_EVENT_HDR| then STANDARD_EVENT_HDR[index] else Null
  }

  function U16(buf: seq<U8>, at: nat): (n: nat)
    requires at + 2 <= |buf|
    ensures n < 0x1_0000
  {
    var hi: nat, lo: nat := buf[at], buf[at + 1];
    256 * hi + lo
  }

  /** What a call fills in: the header, the fixed part of the value, and where a payload starts. */
  datatype Event =
    | Nothing
    | Header(len: nat, cmd: nat)
    | Value(len: nat, cmd: nat, fixed: seq<U8>, pointer: Option<nat>)

  /** The result of one call: return code, event, and the two cursors afterwards. */
  datatype Outcome = Outcome(ret: int, iwe: Event, current: nat, value: Option<nat>)

  // ---------- One call ----------

  function Extracted(buf: seq<U8>, current: nat, value: Option<nat>): (o: Outcome) {
    if current + LCP_LEN > |buf| then Outcome(0, Nothing, current, value)
    else
      var len, cmd := U16(buf, current), U16(buf, current + 2);
      var t := EventType(cmd);
      var n := ValueSize(t);
      var p := if value.Some? then value.value else current + LCP_LEN;
      if len <= LCP_LEN then Outcome(-1, Header(len, cmd), current, value)
      else if n == 0 then Outcome(2, Header(len, cmd), current + len, value)
      else if p + n > |buf| then Outcome(-2, Header(len, cmd), current + len, value)
      else if t == Point then
        Outcome(1, Value(len, cmd, buf[p..p + n], if len == LCP_LEN + n then None else Some(p + n)),
                current + len, value)
      else if p + n + n <= current + len then Outcome(1, Value(len, cmd, buf[p..p + n], None), current, Some(p + n))
      else Outcome(1, Value(len, cmd, buf[p..p + n], None), current + len, None)
  }

  /** The stream descriptor; the end of the stream is the end of the buffer. */
  class Stream {
    const buf: seq<U8>
    var current: nat
    var value: Option<nat>

    constructor (data: seq<U8>)
      ensures buf == data && current == 0 && value == None
    {
      buf := data;
      current, value := 0, None;
    }

    method Extract() returns (ret: int, iwe: Event)
      modifies this
      ensures Outcome(ret, iwe, current, value) == Extracted(buf, old(current), old(value))
    {
      if current + LCP_LEN > |buf| {
        return 0, Nothing;
      }
      var len, cmd := U16(buf, current), U16(buf, current + 2);
      iwe := Header(len, cmd);
      if len <= LCP_LEN {
        return -1, iwe;
      }
      var eventType := EventType(cmd);
      var eventLen := ValueSize(eventType);
      if eventLen == 0 {
        current := current + len;
        return 2, iwe;
      }
      var pointer: nat;
      if value != None {
        pointer := value.value;
      } else {
        pointer := current + LCP_LEN;
      }
      if pointer + eventLen > |buf| {
        current := current + len;
        return -2, iwe;
      }
      iwe := Value(len, cmd, buf[pointer..pointer + eventLen], None);
      pointer := pointer + eventLen;
      if eventType == Point {
        // unsigned arithmetic: only an event without payload gives zero
        if (len - (eventLen + LCP_LEN)) % 0x1_0000_0000 > 0 {
          iwe := iwe.(pointer := Some(pointer));
        }
        current := current + len;
      } else {
        if pointer + eventLen <= current + len {
          value := Some(pointer);
        } else {
          value := None;
          current := current + len;
        }
      }
      ret := 1;
    }

    /** The loop of the callers: extract until nothing is left or an event is invalid. */
    method ExtractAll() returns (outcomes: seq<Outcome>)
      requires Linked(buf, current, value)
      modifies this
      ensures outcomes == Results(buf, old(current), old(value))
    {
      outcomes := [];
      var ret := 1;
      while ret > 0
        invariant ret > 0 ==> Linked(buf, current, value)
                              && outcomes + Results(buf, current, value) == Results(buf, old(current), old(value))
        invariant ret <= 0 ==> outcomes == Results(buf, old(current), old(value))
        decreases ret > 0, |buf| + 0x1_0000 - current, if value.Some? then |buf| - value.value else |buf| + 1
      {
        var iwe;
        StepKeepsLink(buf, current, value);
        ghost var rest := Results(buf, current, value);
        ret, iwe := Extract();
        var o := Outcome(ret, iwe, current, value);
        assert rest == [o] + if ret > 0 then Results(buf, current, value) else [];
        assert outcomes + rest == outcomes + [o] + if ret > 0 then Results(buf, current, value) else [];
        outcomes := outcomes + [o];
      }
    }
  }

  // ---------- Arbitrary bytes ----------

  /** The second cursor, when set, stands on another whole value of the current event, inside the stream. */
  ghost predicate Linked(buf: seq<U8>, current: nat, value: Option<nat>) {
    && current < |buf| + 0x1_0000
    && (value.Some? ==>
          && current + LCP_LEN <= |buf|
          && var n := ValueSize(EventType(U16(buf, current + 2)));
             && n > 0 && EventType(U16(buf, current + 2)) != Point
             && current + LCP_LEN < value.value <= |buf|
             && Aligned(value.value - current - LCP_LEN, n)
             && value.value + n <= current + U16(buf, current))
  }

  /** d is a whole number of values of size n. */
  predicate Aligned(d: nat, n: nat) {
    d == 0 || (0 < n <= d && Aligned(d - n, n))
  }

  /** As long as no call fails the cursors stay linked and one of them advances. */
  lemma StepKeepsLink(buf: seq<U8>, current: nat, value: Option<nat>)
    requires Linked(buf, current, value)
    ensures var o := Extracted(buf, current, value);
            o.ret > 0 ==>
              && Linked(buf, o.current, o.value)
              && (o.current > current
                  || (o.current == current && o.value.Some? && (value.Some? ==> o.value.value > value.value)))
  {
  }

  // ---------- Truncated points ----------

  /** There are bytes between the pointer to the payload and the next event, and they are in the stream. */
  predicate PayloadInside(buf: seq<U8>, o: Outcome)
    requires o.iwe.Value? && o.iwe.pointer.Some?
  {
    o.iwe.pointer.value < o.current <= |buf|
  }

  /**
   The check for the end of the stream covers the fixed part of a point only, and any length but that
   of the fixed part counts as a payload.  A point delivered with a payload has it inside the stream
   exactly if the event is longer than its fixed part and ends in the stream.
   */
  lemma PayloadInsideIff(buf: seq<U8>, current: nat)
    requires Extracted(buf, current, None).iwe.Value? && Extracted(buf, current, None).iwe.pointer.Some?
    ensures var o := Extracted(buf, current, None);
            PayloadInside(buf, o) <==> o.iwe.len > LCP_LEN + ValueSize(Point) && current + o.iwe.len <= |buf|
  {
    assert EventType(U16(buf, current + 2)) == Point;
  }

  /** At the end of a stream, a point of any other length than 12 is delivered with a payload that is not there. */
  lemma TruncatedPoint(len: nat, data: seq<U8>)
    requires LCP_LEN < len < 0x1_0000 && len != LCP_LEN + ValueSize(Point) && |data| == ValueSize(Point)
    ensures var buf := PutU16(len) + PutU16(0x8C02) + data;
            && Extracted(buf, 0, None) == Outcome(1, Value(len, 0x8C02, data, Some(|buf|)), len, None)
            && !PayloadInside(buf, Extracted(buf, 0, None))
  {
    var buf := PutU16(len) + PutU16(0x8C02) + data;
    assert buf[4..12] == data;
    assert EventType(0x8C02) == Point;
  }

  /** All outcomes up to the first that is not positive. */
  function Results(buf: seq<U8>, current: nat, value: Option<nat>): (os: seq<Outcome>)
    requires Linked(buf, current, value)
    decreases |buf| + 0x1_0000 - current, if value.Some? then |buf| - value.value else |buf| + 1
  {
    var o := Extracted(buf, current, value);
    StepKeepsLink(buf, current, value);
    [o] + if o.ret > 0 then Results(buf, o.current, o.value) else []
  }

  // ---------- Well-formed streams ----------

  /** An event as the driver wrote it; up to one value's worth of unused bytes may follow fixed-size values. */
  datatype Written =
    | Fixed(fixedCmd: nat, values: seq<seq<U8>>, slack: seq<U8>)
    | Pointed(pointCmd: nat, data: seq<U8>, payload: seq<U8>)
    | Unknown(unknownCmd: nat, body: seq<U8>)
  {
    function Cmd(): (c: nat) {
      match this
      case Fixed(c, _, _) => c
      case Pointed(c, _, _) => c
      case Unknown(c, _) => c
    }

    function Body(): (b: seq<U8>) {
      match this
      case Fixed(_, values, slack) => Flatten(values) + slack
      case Pointed(_, data, payload) => data + payload
      case Unknown(_, body) => body
    }

    function Len(): (n: nat) {
      LCP_LEN + |Body()|
    }

    predicate WellFormed() {
      var n := ValueSize(EventType(Cmd()));
      && Cmd() < 0x1_0000 && Len() < 0x1_0000
      && match this {
           case Fixed(c, values, slack) =>
             && n > 0 && EventType(c) != Point && |values| > 0 && |slack| < n
             && forall i :: 0 <= i < |values| ==> |values[i]| == n
           case Pointed(c, data, _) => EventType(c) == Point && |data| == n
           case Unknown(_, body) => n == 0 && |body| > 0
         }
    }

    function Encode(): (bytes: seq<U8>)
      requires WellFormed()
    {
      PutU16(Len()) + PutU16(Cmd()) + Body()
    }
  }

  function PutU16(n: nat): (b: seq<U8>)
    requires n < 0x1_0000
    ensures |b| == 2 && U16(b, 0) == n
  {
    [n / 256, n % 256]
  }

  function Flatten(values: seq<seq<U8>>): (b: seq<U8>) {
    if values == [] then [] else values[0] + Flatten(values[1..])
  }

  function EncodeAll(es: seq<Written>): (b: seq<U8>)
    requires forall i :: 0 <= i < |es| ==> es[i].WellFormed()
  {
    if es == [] then [] else es[0].Encode() + EncodeAll(es[1..])
  }

  // ---------- What the calls should deliver ----------

  /** A call that succeeds, as its caller sees it. */
  datatype Delivery = Delivery(ret: int, iwe: Event)

  function Deliveries(os: seq<Outcome>): (ds: seq<Delivery>)
    ensures |ds| == |os|
  {
    if os == [] then [] else [Delivery(os[0].ret, os[0].iwe)] + Deliveries(os[1..])
  }

  function ExpectedValues(len: nat, cmd: nat, values: seq<seq<U8>>): (ds: seq<Delivery>) {
    if values == [] then []
    else [Delivery(1, Value(len, cmd, values[0], None))] + ExpectedValues(len, cmd, values[1..])
  }

  /** One delivery for each value; a point's payload is found right behind its fixed part. */
  function Expected(e: Written, at: nat): (ds: seq<Delivery>) {
    match e
    case Fixed(cmd, values, _) => ExpectedValues(e.Len(), cmd, values)
    case Pointed(cmd, data, payload) =>
      [Delivery(1, Value(e.Len(), cmd, data, if payload == [] then None else Some(at + LCP_LEN + |data|)))]
    case Unknown(cmd, _) => [Delivery(2, Header(e.Len(), cmd))]
  }

  /** A delivery for everything written, then a call that finds nothing. */
  function ExpectedAll(es: seq<Written>, at: nat): (ds: seq<Delivery>) {
    if es == [] then [Delivery(0, Nothing)]
    else Expected(es[0], at) + ExpectedAll(es[1..], at + es[0].Len())
  }

  // ---------- The decoder delivers them ----------

  predicate BytesAt(buf: seq<U8>, at: nat, bytes: seq<U8>) {
    at + |bytes| <= |buf| && buf[at..at + |bytes|] == bytes
  }

  lemma BytesAtParts(buf: seq<U8>, at: nat, a: seq<U8>, b: seq<U8>)
    requires BytesAt(buf, at, a + b)
    ensures BytesAt(buf, at, a) && BytesAt(buf, at + |a|, b)
  {
    assert buf[at..at + |a|] == (a + b)[..|a|];
    assert buf[at + |a|..at + |a| + |b|] == (a + b)[|a|..];
  }

  lemma U16At(buf: seq<U8>, at: nat, n: nat)
    requires n < 0x1_0000 && BytesAt(buf, at, PutU16(n))
    ensures U16(buf, at) == n
  {
    var two := buf[at..at + 2];
    assert two[0] == buf[at] && two[1] == buf[at + 1];
  }

  lemma HeaderAt(buf: seq<U8>, at: nat, e: Written)
    requires e.WellFormed() && BytesAt(buf, at, e.Encode())
    ensures at + LCP_LEN <= |buf| && U16(buf, at) == e.Len() && U16(buf, at + 2) == e.Cmd()
    ensures BytesAt(buf, at + LCP_LEN, e.Body())
  {
    BytesAtParts(buf, at, PutU16(e.Len()) + PutU16(e.Cmd()), e.Body());
    BytesAtParts(buf, at, PutU16(e.Len()), PutU16(e.Cmd()));
    U16At(buf, at, e.Len());
    U16At(buf, at + 2, e.Cmd());
  }

  /** From these cursors on, the calls deliver ds. */
  ghost predicate Delivers(buf: seq<U8>, at: nat, value: Option<nat>, ds: seq<Delivery>) {
    Linked(buf, at, value) && Deliveries(Results(buf, at, value)) == ds
  }

  /** Delivers, in a form that keeps its contents out of the proofs that only pass it on. */
  ghost predicate Yields(buf: seq<U8>, at: nat, value: Option<nat>, ds: seq<Delivery>) {
    forall p :: p == at ==> Delivers(buf, p, value, ds)
  }

  lemma OneCall(buf: seq<U8>, at: nat, value: Option<nat>, o: Outcome, ds: seq<Delivery>)
    requires Linked(buf, at, value) && o == Extracted(buf, at, value) && o.ret > 0
    requires Yields(buf, o.current, o.value, ds)
    ensures Yields(buf, at, value, [Delivery(o.ret, o.iwe)] + ds)
  {
    assert Delivers(buf, o.current, o.value, ds);
    var rest := Results(buf, o.current, o.value);
    assert ([o] + rest)[1..] == rest;
    assert Delivers(buf, at, value, [Delivery(o.ret, o.iwe)] + ds);
  }

  /** A call for a value of a fixed-size event, with more bytes of the event behind it. */
  lemma ValueExtracted(buf: seq<U8>, at: nat, e: Written, p: nat, v: seq<U8>, more: nat, value: Option<nat>)
    requires e.WellFormed() && e.Fixed? && BytesAt(buf, at, e.Encode())
    requires |v| == ValueSize(EventType(e.Cmd())) && BytesAt(buf, p, v) && p + |v| + more == at + e.Len()
    requires p == if value.Some? then value.value else at + LCP_LEN
    ensures at + LCP_LEN <= |buf| && at + e.Len() <= |buf|
    ensures var last := more < |v|;
            Extracted(buf, at, value)
            == Outcome(1, Value(e.Len(), e.Cmd(), v, None),
                       if last then at + e.Len() else at, if last then None else Some(p + |v|))
  {
    HeaderAt(buf, at, e);
  }

  /** One call, and whatever the calls after it deliver. */
  lemma OneValue(buf: seq<U8>, at: nat, e: Written, p: nat, v: seq<U8>, more: nat, value: Option<nat>,
                 ds: seq<Delivery>)
    requires e.WellFormed() && e.Fixed? && BytesAt(buf, at, e.Encode())
    requires |v| == ValueSize(EventType(e.Cmd())) && BytesAt(buf, p, v) && p + |v| + more == at + e.Len()
    requires p == if value.Some? then value.value else at + LCP_LEN
    requires Linked(buf, at, value)
    ensures more >= |v| ==> Linked(buf, at, Some(p + |v|))
    ensures Yields(buf, if more < |v| then at + e.Len() else at, if more < |v| then None else Some(p + |v|), ds)
            ==> Yields(buf, at, value, [Delivery(1, Value(e.Len(), e.Cmd(), v, None))] + ds)
  {
    ValueExtracted(buf, at, e, p, v, more, value);
    StepKeepsLink(buf, at, value);
    var o := Extracted(buf, at, value);
    if Yields(buf, o.current, o.value, ds) {
      OneCall(buf, at, value, o, ds);
    }
  }

  /** From value to value: the remaining values of an event, the first of them at p. */
  lemma {:induction false} ValuesDelivered(buf: seq<U8>, at: nat, e: Written, p: nat, vs: seq<seq<U8>>,
                                           value: Option<nat>, ds: seq<Delivery>)
    requires e.WellFormed() && e.Fixed? && BytesAt(buf, at, e.Encode())
    requires |vs| > 0 && forall i :: 0 <= i < |vs| ==> |vs[i]| == ValueSize(EventType(e.Cmd()))
    requires BytesAt(buf, p, Flatten(vs)) && p + |Flatten(vs)| + |e.slack| == at + e.Len()
    requires p == if value.Some? then value.value else at + LCP_LEN
    requires Linked(buf, at, value) && Yields(buf, at + e.Len(), None, ds)
    ensures Yields(buf, at, value, ExpectedValues(e.Len(), e.Cmd(), vs) + ds)
    decreases |vs|
  {
    var v, others := vs[0], vs[1..];
    var more, rest := |Flatten(others)| + |e.slack|, ExpectedValues(e.Len(), e.Cmd(), others);
    BytesAtParts(buf, p, v, Flatten(others));
    OneValue(buf, at, e, p, v, more, value, rest + ds);
    if others == [] {
      assert rest + ds == ds;
    } else {
      assert |Flatten(others)| >= |others[0]|;
      ValuesDelivered(buf, at, e, p + |v|, others, Some(p + |v|), ds);
    }
    assert ExpectedValues(e.Len(), e.Cmd(), vs) + ds
        == [Delivery(1, Value(e.Len(), e.Cmd(), v, None))] + (rest + ds);
  }

  lemma EventDelivered(buf: seq<U8>, at: nat, e: Written, ds: seq<Delivery>)
    requires e.WellFormed() && BytesAt(buf, at, e.Encode()) && Yields(buf, at + e.Len(), None, ds)
    ensures Yields(buf, at, None, Expected(e, at) + ds)
  {
    HeaderAt(buf, at, e);
    if e.Fixed? {
      BytesAtParts(buf, at + LCP_LEN, Flatten(e.values), e.slack);
      ValuesDelivered(buf, at, e, at + LCP_LEN, e.values, None, ds);
    } else {
      if e.Pointed? {
        BytesAtParts(buf, at + LCP_LEN, e.data, e.payload);
      }
      OneCall(buf, at, None, Extracted(buf, at, None), ds);
    }
  }

  lemma EndDelivered(buf: seq<U8>, at: nat)
    requires at <= |buf| < at + LCP_LEN
    ensures Yields(buf, at, None, [Delivery(0, Nothing)])
  {
    assert Delivers(buf, at, None, [Delivery(0, Nothing)]);
  }

  lemma {:induction false} EventsDelivered(buf: seq<U8>, at: nat, es: seq<Written>, tail: seq<U8>)
    requires forall i :: 0 <= i < |es| ==> es[i].WellFormed()
    requires at <= |buf| && buf[at..] == EncodeAll(es) + tail && |tail| < LCP_LEN
    ensures Yields(buf, at, None, ExpectedAll(es, at))
    decreases |es|
  {
    if es == [] {
      assert |buf[at..]| == |tail|;
      EndDelivered(buf, at);
    } else {
      var e, others := es[0], es[1..];
      var bytes, rest := e.Encode(), EncodeAll(others);
      assert (bytes + rest) + tail == bytes + (rest + tail);
      BytesAtFront(buf, at, bytes, rest + tail);
      EventsDelivered(buf, at + |bytes|, others, tail);
      EventDelivered(buf, at, e, ExpectedAll(others, at + e.Len()));
    }
  }

  lemma BytesAtFront(buf: seq<U8>, at: nat, a: seq<U8>, b: seq<U8>)
    requires at <= |buf| && buf[at..] == a + b
    ensures BytesAt(buf, at, a) && at + |a| <= |buf| && buf[at + |a|..] == b
  {
    assert buf[at..at + |a|] == buf[at..][..|a|];
    assert buf[at + |a|..] == buf[at..][|a|..];
  }

  /** Whatever well-formed events were written come out again, one call for each value, and then nothing. */
  lemma StreamDelivered(buf: seq<U8>, at: nat, es: seq<Written>, tail: seq<U8>)
    requires forall i :: 0 <= i < |es| ==> es[i].WellFormed()
    requires at <= |buf| && buf[at..] == EncodeAll(es) + tail && |tail| < LCP_LEN
    ensures Linked(buf, at, None)
    ensures Deliveries(Results(buf, at, None)) == ExpectedAll(es, at)
  {
    EventsDelivered(buf, at, es, tail);
    assert Delivers(buf, at, None, ExpectedAll(es, at));
  }
}
