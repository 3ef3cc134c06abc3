/** The ITCH 5.0 message dispatcher: a type-byte framer that hands each message to
    exactly one visitor callback. The visitor is modelled by the trace of callbacks
    it receives; the struct a callback sees is the byte slice the C++ code casts. */
module ItchParser {
  import opened Bytes

  /** The message type bytes and packed struct sizes of the wire format
      (the `msg_type::` constants and `sizeof` of the message structs). */
  datatype Layout = Layout(
    headerSize: nat,          // sizeof(MessageHeader)
    addOrderSize: nat,        // sizeof(AddOrder)
    orderExecutedSize: nat,   // sizeof(OrderExecuted)
    addOrderType: byte,       // msg_type::AddOrder
    orderExecutedType: byte,  // msg_type::OrderExecuted
    systemEventType: byte)    // msg_type::SystemEvent
  {
    /** What the switch statements and their callers rely on: distinct case labels,
        a header no longer than any message, and the 36-byte Add Order of
        section 4.3.1 of the ITCH 5.0 specification. */
    predicate Valid() {
      && 0 < headerSize <= addOrderSize
      && headerSize <= orderExecutedSize
      && addOrderSize == 36
      && addOrderType != orderExecutedType
      && addOrderType != systemEventType
      && orderExecutedType != systemEventType
    }

    predicate IsKnown(t: byte) {
      t == addOrderType || t == orderExecutedType || t == systemEventType
    }
  }

  /** `ParseResult`. */
  datatype ParseResult = Ok | BufferTooSmall | UnknownType | InvalidLength

  /** One visitor callback with the bytes it is handed. */
  datatype Event =
    | AddOrder(msg: seq<byte>)                   // on_add_order(*msg)
    | OrderExecuted(msg: seq<byte>)              // on_order_executed(*msg)
    | SystemEvent(msg: seq<byte>)                // on_system_event(*msg)
    | Unknown(msgType: byte, data: seq<byte>)    // on_unknown(type, data, |data|)

  /** What `parse` returns, with the callbacks it made. */
  datatype Dispatch = Dispatch(result: ParseResult, calls: seq<Event>)

  /** The type byte a known-message callback stands for. */
  function TypeOf(L: Layout, e: Event): byte
    requires !e.Unknown?
  {
    match e
    case AddOrder(_) => L.addOrderType
    case OrderExecuted(_) => L.orderExecutedType
    case SystemEvent(_) => L.systemEventType
  }

  /** `get_message_size`: the frame length of a message type, 0 when unknown. */
  function MessageSize(L: Layout, t: byte): (n: nat)
    requires L.Valid()
    ensures n == 0 <==> !L.IsKnown(t)
    ensures n != 0 ==> L.headerSize <= n
  {
    if t == L.addOrderType then L.addOrderSize
    else if t == L.orderExecutedType then L.orderExecutedSize
    else if t == L.systemEventType then L.headerSize
    else 0
  }

  /** The callback for a known type, handed the message bytes. */
  function KnownEvent(L: Layout, t: byte, msg: seq<byte>): (e: Event)
    requires L.IsKnown(t)
    ensures !e.Unknown? && TypeOf(L, e) == t && e.msg == msg
  {
    if t == L.addOrderType then AddOrder(msg)
    else if t == L.orderExecutedType then OrderExecuted(msg)
    else SystemEvent(msg)
  }

  /** `Parser::parse`: checks the length, then dispatches exactly one callback
      (or none, when the buffer is too small). */
  function Parse(L: Layout, buffer: seq<byte>): (d: Dispatch)
    requires L.Valid()
    ensures d.result != InvalidLength
    ensures d.result == BufferTooSmall <==>
              |buffer| < L.headerSize || |buffer| < MessageSize(L, buffer[0])
    ensures d.result == BufferTooSmall ==> d.calls == []
    ensures d.result == UnknownType <==>
              L.headerSize <= |buffer| && !L.IsKnown(buffer[0])
    ensures d.result == UnknownType ==> d.calls == [Unknown(buffer[0], buffer)]
    ensures d.result == Ok <==>
              L.headerSize <= |buffer| && L.IsKnown(buffer[0]) && MessageSize(L, buffer[0]) <= |buffer|
    ensures d.result == Ok ==>
              d.calls == [KnownEvent(L, buffer[0], buffer[..MessageSize(L, buffer[0])])]
  {
    if |buffer| < L.headerSize then Dispatch(BufferTooSmall, [])
    else
      var t := buffer[0];
      if t == L.addOrderType then
        if |buffer| < L.addOrderSize then Dispatch(BufferTooSmall, [])
        else Dispatch(Ok, [AddOrder(buffer[..L.addOrderSize])])
      else if t == L.orderExecutedType then
        if |buffer| < L.orderExecutedSize then Dispatch(BufferTooSmall, [])
        else Dispatch(Ok, [OrderExecuted(buffer[..L.orderExecutedSize])])
      else if t == L.systemEventType then
        if |buffer| < L.headerSize then Dispatch(BufferTooSmall, [])
        else Dispatch(Ok, [SystemEvent(buffer[..L.headerSize])])
      else
        Dispatch(UnknownType, [Unknown(t, buffer)])
  }

  /** `parse_message`: the free-function form of `Parser::parse`. */
  function ParseMessage(L: Layout, buffer: seq<byte>): (d: Dispatch)
    requires L.Valid()
    ensures d == Parse(L, buffer)
  {
    Parse(L, buffer)
  }

  /** A complete message of a known type always parses. This is why the loop in
      `parse_buffer` never takes its break on a failed parse. */
  lemma FullMessageParses(L: Layout, msg: seq<byte>)
    requires L.Valid() && |msg| > 0 && L.IsKnown(msg[0]) && |msg| == MessageSize(L, msg[0])
    ensures Parse(L, msg) == Dispatch(Ok, [KnownEvent(L, msg[0], msg)])
  {
    assert msg[..|msg|] == msg;
  }

  // -----------------------------------------------------------------------
  // Framing a buffer of back-to-back messages
  // -----------------------------------------------------------------------

  /** How many bytes `parse_buffer` consumes and which callbacks it makes. */
  datatype Framing = Framing(consumed: nat, calls: seq<Event>)

  /** The framing of a buffer: messages are taken back to back while the next
      type byte is known and its whole message is present; an unknown type byte
      is reported once, with everything that remains, and ends the walk. */
  function Frames(L: Layout, buf: seq<byte>): (f: Framing)
    requires L.Valid()
    ensures f.consumed <= |buf|
    decreases |buf|
  {
    if |buf| == 0 then Framing(0, [])
    else
      var size := MessageSize(L, buf[0]);
      if size == 0 then Framing(0, [Unknown(buf[0], buf)])
      else if |buf| < size then Framing(0, [])
      else
        var rest := Frames(L, buf[size..]);
        Framing(size + rest.consumed, [KnownEvent(L, buf[0], buf[..size])] + rest.calls)
  }

  /** `Parser::parse_buffer`, as the loop it is. */
  method ParseBuffer(L: Layout, buffer: seq<byte>) returns (consumed: nat, calls: seq<Event>)
    requires L.Valid()
    ensures consumed <= |buffer|
    ensures Framing(consumed, calls) == Frames(L, buffer)
  {
    consumed := 0;
    calls := [];
    while consumed < |buffer|
      invariant consumed <= |buffer|
      invariant Resumes(L, buffer, consumed, calls)
    {
      var current := buffer[consumed..];
      var remaining := |buffer| - consumed;
      if remaining < 1 {
        break;
      }
      var msgType := current[0];
      var msgSize := MessageSize(L, msgType);
      if msgSize == 0 {
        FramesUnknownHead(L, current);
        calls := calls + [Unknown(msgType, current)];
        break;
      }
      if remaining < msgSize {
        FramesShortHead(L, current);
        break;
      }
      var msg := current[..msgSize];
      assert msg[0] == msgType;
      FullMessageParses(L, msg);
      var d := Parse(L, msg);
      assert d.calls == [KnownEvent(L, msgType, msg)];
      FramesAdvance(L, buffer, consumed, calls, current, msgSize, d.calls);
      calls := calls + d.calls;
      if d.result != Ok && d.result != UnknownType {
        break;
      }
      consumed := consumed + msgSize;
    }
    if consumed == |buffer| {
      assert buffer[consumed..] == [];
    }
  }

  /** The framing of a buffer that starts with an unknown type byte. */
  lemma FramesUnknownHead(L: Layout, buf: seq<byte>)
    requires L.Valid() && |buf| > 0 && MessageSize(L, buf[0]) == 0
    ensures Frames(L, buf) == Framing(0, [Unknown(buf[0], buf)])
  {
  }

  /** The framing of a buffer that starts with an incomplete message. */
  lemma FramesShortHead(L: Layout, buf: seq<byte>)
    requires L.Valid() && |buf| > 0 && |buf| < MessageSize(L, buf[0])
    ensures Frames(L, buf) == Framing(0, [])
  {
  }

  /** The framing of a buffer that starts with a complete known message. */
  lemma FramesTakeHead(L: Layout, buf: seq<byte>)
    requires L.Valid() && |buf| > 0 && 0 < MessageSize(L, buf[0]) <= |buf|
    ensures var size := MessageSize(L, buf[0]);
      Frames(L, buf) == Framing(size + Frames(L, buf[size..]).consumed,
                                [KnownEvent(L, buf[0], buf[..size])] + Frames(L, buf[size..]).calls)
  {
  }

  /** What `parse_buffer` has done after `consumed` bytes and `calls`: framing the
      rest of the buffer from there completes the framing of the whole. */
  ghost predicate Resumes(L: Layout, buffer: seq<byte>, consumed: nat, calls: seq<Event>)
    requires L.Valid()
  {
    && consumed <= |buffer|
    && Frames(L, buffer).consumed == consumed + Frames(L, buffer[consumed..]).consumed
    && Frames(L, buffer).calls == calls + Frames(L, buffer[consumed..]).calls
  }

  /** The loop's invariant carries over a complete known message at `consumed`. */
  lemma FramesAdvance(L: Layout, buffer: seq<byte>, consumed: nat, calls: seq<Event>, current: seq<byte>,
                      size: nat, evs: seq<Event>)
    requires L.Valid() && Resumes(L, buffer, consumed, calls)
    requires consumed < |buffer| && current == buffer[consumed..]
    requires 0 < size <= |current| && size == MessageSize(L, current[0])
    requires evs == [KnownEvent(L, current[0], current[..size])]
    ensures Resumes(L, buffer, consumed + size, calls + evs)
  {
    FramesTakeHead(L, current);
    SuffixShift(buffer, consumed, size);
    SeqAssoc(calls, evs, Frames(L, current[size..]).calls);
  }

  /** Dropping a bytes and then b more is dropping a + b bytes. */
  lemma SuffixShift(buf: seq<byte>, a: nat, b: nat)
    requires a + b <= |buf|
    ensures buf[a..][b..] == buf[a + b..]
  {
  }

  // -----------------------------------------------------------------------
  // Properties of the framing
  // -----------------------------------------------------------------------

  /** The message bytes of the known-type callbacks, in order, concatenated. */
  function Delivered(calls: seq<Event>): seq<byte> {
    if |calls| == 0 then []
    else (if calls[0].Unknown? then [] else calls[0].msg) + Delivered(calls[1..])
  }

  /** The sum of the frame sizes of the known-type callbacks. */
  function SizeSum(L: Layout, calls: seq<Event>): nat
    requires L.Valid()
  {
    if |calls| == 0 then 0
    else (if calls[0].Unknown? then 0 else MessageSize(L, TypeOf(L, calls[0]))) + SizeSum(L, calls[1..])
  }

  /** The messages handed to the visitor tile exactly the consumed prefix of the
      buffer, in order; so `consumed` is the sum of their sizes. */
  lemma {:induction false} FramesTileConsumed(L: Layout, buf: seq<byte>)
    requires L.Valid()
    ensures Delivered(Frames(L, buf).calls) == buf[..Frames(L, buf).consumed]
    ensures SizeSum(L, Frames(L, buf).calls) == Frames(L, buf).consumed
    decreases |buf|
  {
    var f := Frames(L, buf);
    if |buf| == 0 {
      assert f == Framing(0, []);
    } else {
      var size := MessageSize(L, buf[0]);
      if size == 0 {
        FramesUnknownHead(L, buf);
        assert f.calls[1..] == [];
      } else if |buf| < size {
        FramesShortHead(L, buf);
      } else {
        var rest := Frames(L, buf[size..]);
        var ev := KnownEvent(L, buf[0], buf[..size]);
        FramesTakeHead(L, buf);
        FramesTileConsumed(L, buf[size..]);
        TraceCons(L, ev, rest.calls);
        PrefixSplit(buf, size, rest.consumed);
      }
    }
  }

  /** A prefix of a + b bytes is the first a bytes followed by b more. */
  lemma PrefixSplit(buf: seq<byte>, a: nat, b: nat)
    requires a + b <= |buf|
    ensures buf[..a + b] == buf[..a] + buf[a..][..b]
  {
  }

  /** Delivered bytes and size sums of a trace with one known callback in front. */
  lemma TraceCons(L: Layout, ev: Event, rest: seq<Event>)
    requires L.Valid() && !ev.Unknown?
    ensures Delivered([ev] + rest) == ev.msg + Delivered(rest)
    ensures SizeSum(L, [ev] + rest) == MessageSize(L, TypeOf(L, ev)) + SizeSum(L, rest)
  {
    assert ([ev] + rest)[1..] == rest;
  }

  /** Every known message handed to the visitor starts with its own type byte and
      is exactly as long as `get_message_size` says. */
  lemma {:induction false} FramesMessagesSized(L: Layout, buf: seq<byte>)
    requires L.Valid()
    ensures forall i :: 0 <= i < |Frames(L, buf).calls| && !Frames(L, buf).calls[i].Unknown? ==>
              var e := Frames(L, buf).calls[i];
              |e.msg| == MessageSize(L, TypeOf(L, e)) && e.msg[0] == TypeOf(L, e)
    decreases |buf|
  {
    if |buf| > 0 {
      var size := MessageSize(L, buf[0]);
      if 0 < size <= |buf| {
        var f, rest := Frames(L, buf), Frames(L, buf[size..]);
        FramesMessagesSized(L, buf[size..]);
        forall i | 1 <= i < |f.calls| && !f.calls[i].Unknown?
          ensures |f.calls[i].msg| == MessageSize(L, TypeOf(L, f.calls[i]))
          ensures f.calls[i].msg[0] == TypeOf(L, f.calls[i])
        {
          assert f.calls[i] == rest.calls[i - 1];
        }
      }
    }
  }

  /** No callback in the trace is `on_unknown`. */
  predicate AllKnown(calls: seq<Event>) {
    forall i :: 0 <= i < |calls| ==> !calls[i].Unknown?
  }

  /** The walk stopped because the buffer was used up. */
  predicate StoppedAtEnd(buf: seq<byte>, f: Framing) {
    f.consumed == |buf| && AllKnown(f.calls)
  }

  /** The walk stopped at an unknown type byte, reported by one final `on_unknown`
      carrying every remaining byte. */
  predicate StoppedAtUnknown(L: Layout, buf: seq<byte>, f: Framing) {
    && f.consumed < |buf| && !L.IsKnown(buf[f.consumed])
    && |f.calls| > 0 && f.calls[|f.calls| - 1] == Unknown(buf[f.consumed], buf[f.consumed..])
    && AllKnown(f.calls[..|f.calls| - 1])
  }

  /** The walk stopped at an incomplete message, for which no callback was made. */
  predicate StoppedShort(L: Layout, buf: seq<byte>, f: Framing)
    requires L.Valid()
  {
    && f.consumed < |buf| && L.IsKnown(buf[f.consumed])
    && |buf| - f.consumed < MessageSize(L, buf[f.consumed])
    && AllKnown(f.calls)
  }

  /** A stop reason of the walk over the tail carries over to the whole buffer
      when one known message was taken first. */
  lemma StopReasonStep(L: Layout, buf: seq<byte>, size: nat, ev: Event, rest: Framing)
    requires L.Valid() && 0 < size <= |buf| && !ev.Unknown? && rest.consumed <= |buf| - size
    requires var tail := buf[size..];
      StoppedAtEnd(tail, rest) || StoppedAtUnknown(L, tail, rest) || StoppedShort(L, tail, rest)
    ensures var f := Framing(size + rest.consumed, [ev] + rest.calls);
      StoppedAtEnd(buf, f) || StoppedAtUnknown(L, buf, f) || StoppedShort(L, buf, f)
  {
    var tail := buf[size..];
    var f := Framing(size + rest.consumed, [ev] + rest.calls);
    assert tail[rest.consumed..] == buf[f.consumed..];
    if StoppedAtEnd(tail, rest) {
      assert StoppedAtEnd(buf, f);
    } else if StoppedAtUnknown(L, tail, rest) {
      assert tail[rest.consumed] == buf[f.consumed];
      assert f.calls[..|f.calls| - 1] == [ev] + rest.calls[..|rest.calls| - 1];
      assert StoppedAtUnknown(L, buf, f);
    } else {
      assert tail[rest.consumed] == buf[f.consumed];
      assert StoppedShort(L, buf, f);
    }
  }

  /** The walk ends for one of three reasons: the buffer is used up; the next type
      byte is unknown, which is reported once, with all the remaining bytes, and
      those bytes are not counted as consumed; or the next message is incomplete. */
  lemma {:induction false} FramesStopReason(L: Layout, buf: seq<byte>)
    requires L.Valid()
    ensures var f := Frames(L, buf);
      StoppedAtEnd(buf, f) || StoppedAtUnknown(L, buf, f) || StoppedShort(L, buf, f)
    decreases |buf|
  {
    if |buf| == 0 || MessageSize(L, buf[0]) == 0 || |buf| < MessageSize(L, buf[0]) {
      StopReasonBase(L, buf);
    } else {
      var size := MessageSize(L, buf[0]);
      FramesTakeHead(L, buf);
      FramesStopReason(L, buf[size..]);
      StopReasonStep(L, buf, size, KnownEvent(L, buf[0], buf[..size]), Frames(L, buf[size..]));
    }
  }

  /** The stop reason when the walk takes no message at all. */
  lemma StopReasonBase(L: Layout, buf: seq<byte>)
    requires L.Valid()
    requires |buf| == 0 || MessageSize(L, buf[0]) == 0 || |buf| < MessageSize(L, buf[0])
    ensures var f := Frames(L, buf);
      StoppedAtEnd(buf, f) || StoppedAtUnknown(L, buf, f) || StoppedShort(L, buf, f)
  {
    var f := Frames(L, buf);
    if |buf| == 0 {
      assert StoppedAtEnd(buf, f);
    } else if MessageSize(L, buf[0]) == 0 {
      FramesUnknownHead(L, buf);
      assert buf[0..] == buf;
      assert StoppedAtUnknown(L, buf, f);
    } else {
      FramesShortHead(L, buf);
      assert StoppedShort(L, buf, f);
    }
  }
}
