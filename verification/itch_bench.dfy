/** The benchmark's synthetic Add Order message, the "naive" decoder it is compared
    against, and the fixture buffer the decoder walks in 36-byte strides.
    Integers are encoded most-significant byte first, as ITCH 5.0 writes them
    (Add Order layout of section 4.3.1 of the Nasdaq TotalView-ITCH 5.0
    specification). */
module ItchBench {
  import opened Bytes

  /** The wire length of an Add Order message. */
  const AddOrderLength: nat := 36

  /** `NaiveAddOrder`: the decoded fields, each held as an unsigned value. */
  datatype NaiveAddOrder = NaiveAddOrder(
    msgType: byte,
    stockLocate: nat,
    trackingNumber: nat,
    timestamp: nat,
    orderRef: nat,
    side: byte,
    shares: nat,
    stock: seq<byte>,
    price: nat)

  /** Each field fits its wire width: 2, 2, 6, 8, 4 bytes, 8 stock bytes, 4 bytes. */
  predicate Representable(o: NaiveAddOrder) {
    && o.stockLocate < Pow256(2) && o.trackingNumber < Pow256(2)
    && o.timestamp < Pow256(6) && o.orderRef < Pow256(8)
    && o.shares < Pow256(4) && |o.stock| == 8 && o.price < Pow256(4)
  }

  /** The 36 wire bytes of an Add Order: type, locate, tracking, timestamp, order
      reference, side, shares, stock, price, each integer most-significant byte first. */
  function EncodeAddOrder(o: NaiveAddOrder): (m: seq<byte>)
    requires |o.stock| == 8
    ensures |m| == AddOrderLength
    ensures m[0] == o.msgType && m[19] == o.side && m[24..32] == o.stock
  {
    [o.msgType] + BeBytes(2, o.stockLocate) + BeBytes(2, o.trackingNumber)
    + BeBytes(6, o.timestamp) + BeBytes(8, o.orderRef) + [o.side]
    + BeBytes(4, o.shares) + o.stock + BeBytes(4, o.price)
  }

  /** The timestamp as `parse_naive` rebuilds it: six bytes shifted by 40, 32, 24,
      16, 8 and 0 bits and or-ed together (the shifted bytes never overlap, so the
      or is a sum). */
  function Timestamp48(buffer: seq<byte>): (ts: nat)
    requires |buffer| >= 11
    ensures ts == BeValue(buffer[5..11])
  {
    ShiftOrIsBe(buffer[5..11]);
    (buffer[5] as int) * 0x100_0000_0000 + (buffer[6] as int) * 0x1_0000_0000
    + (buffer[7] as int) * 0x100_0000 + (buffer[8] as int) * 0x1_0000
    + (buffer[9] as int) * 0x100 + buffer[10] as int
  }

  /** Or-ing six shifted bytes is their big-endian value. */
  lemma ShiftOrIsBe(b: seq<byte>)
    requires |b| == 6
    ensures BeValue(b) == (b[0] as int) * 0x100_0000_0000 + (b[1] as int) * 0x1_0000_0000
      + (b[2] as int) * 0x100_0000 + (b[3] as int) * 0x1_0000 + (b[4] as int) * 0x100 + b[5] as int
  {
    assert b[..1][..0] == [];
    assert BeValue(b[..1]) == b[0] as int;
    assert b[..2][..1] == b[..1];
    assert BeValue(b[..2]) == BeValue(b[..1]) * 256 + b[1] as int;
    assert b[..3][..2] == b[..2];
    assert BeValue(b[..3]) == BeValue(b[..2]) * 256 + b[2] as int;
    assert b[..4][..3] == b[..3];
    assert BeValue(b[..4]) == BeValue(b[..3]) * 256 + b[3] as int;
    assert b[..5][..4] == b[..4];
    assert BeValue(b[..5]) == BeValue(b[..4]) * 256 + b[4] as int;
    assert b[..6][..5] == b[..5];
    assert b[..6] == b;
  }

  /** `parse_naive`: every field decoded from its fixed offset. */
  function ParseNaive(buffer: seq<byte>): (out: NaiveAddOrder)
    requires |buffer| >= AddOrderLength
    ensures Representable(out)
    ensures out.msgType == buffer[0] && out.side == buffer[19] && out.stock == buffer[24..32]
  {
    NaiveAddOrder(
      buffer[0],
      BeValue(buffer[1..3]),
      BeValue(buffer[3..5]),
      Timestamp48(buffer),
      BeValue(buffer[11..19]),
      buffer[19],
      BeValue(buffer[20..24]),
      buffer[24..32],
      BeValue(buffer[32..36]))
  }

  /** `parse_naive` looks at the first 36 bytes and nothing after them. */
  lemma ParseNaiveReadsPrefix(a: seq<byte>, b: seq<byte>)
    requires |a| >= AddOrderLength && |b| >= AddOrderLength
    requires a[..AddOrderLength] == b[..AddOrderLength]
    ensures ParseNaive(a) == ParseNaive(b)
  {
    var p := a[..AddOrderLength];
    assert a[1..3] == p[1..3] && a[3..5] == p[3..5] && a[5..11] == p[5..11] && a[11..19] == p[11..19];
    assert a[20..24] == p[20..24] && a[24..32] == p[24..32] && a[32..36] == p[32..36];
    assert b[1..3] == p[1..3] && b[3..5] == p[3..5] && b[5..11] == p[5..11] && b[11..19] == p[11..19];
    assert b[20..24] == p[20..24] && b[24..32] == p[24..32] && b[32..36] == p[32..36];
    assert a[0] == p[0] == b[0] && a[19] == p[19] == b[19];
  }

  /** A value below 256^w is its own w-byte round trip. */
  lemma BeFieldRoundTrip(w: nat, v: nat)
    requires v < Pow256(w)
    ensures BeValue(BeBytes(w, v)) == v
  {
    BeRoundTrip(w, v);
    DivModUnique(v, Pow256(w), 0, v);
  }

  /** Decoding an encoded order gives back every field. */
  lemma NaiveRoundTrip(o: NaiveAddOrder)
    requires Representable(o)
    ensures ParseNaive(EncodeAddOrder(o)) == o
  {
    var m := EncodeAddOrder(o);
    assert m[1..3] == BeBytes(2, o.stockLocate);
    assert m[3..5] == BeBytes(2, o.trackingNumber);
    assert m[5..11] == BeBytes(6, o.timestamp);
    assert m[11..19] == BeBytes(8, o.orderRef);
    assert m[20..24] == BeBytes(4, o.shares);
    assert m[32..36] == BeBytes(4, o.price);
    BeFieldRoundTrip(2, o.stockLocate);
    BeFieldRoundTrip(2, o.trackingNumber);
    BeFieldRoundTrip(6, o.timestamp);
    BeFieldRoundTrip(8, o.orderRef);
    BeFieldRoundTrip(4, o.shares);
    BeFieldRoundTrip(4, o.price);
  }

  /** Re-encoding what was decoded gives back the first 36 bytes: nothing in an Add
      Order's wire form is lost by the decoder. */
  lemma NaiveEncodeOfParse(b: seq<byte>)
    requires |b| >= AddOrderLength
    ensures EncodeAddOrder(ParseNaive(b)) == b[..AddOrderLength]
  {
    BeBytesOfValue(b[1..3]);
    BeBytesOfValue(b[3..5]);
    BeBytesOfValue(b[5..11]);
    BeBytesOfValue(b[11..19]);
    BeBytesOfValue(b[20..24]);
    BeBytesOfValue(b[32..36]);
    assert b[..AddOrderLength] == [b[0]] + b[1..3] + b[3..5] + b[5..11] + b[11..19] + [b[19]]
                                   + b[20..24] + b[24..32] + b[32..36];
  }

  // -----------------------------------------------------------------------
  // The synthetic message
  // -----------------------------------------------------------------------

  /** 12:34:56.789012345 as nanoseconds since midnight. */
  const GroundTimestamp: nat := 45296789012345
  const GroundOrderRef: nat := 0x123456789ABCDEF0

  /** The values the synthetic message carries. */
  const GroundTruth: NaiveAddOrder := NaiveAddOrder(
    Ascii('A'), 1234, 5678, GroundTimestamp, GroundOrderRef, Ascii('B'), 1000,
    AsciiBytes("AAPL    "), 1502500)

  /** `create_add_order_message`: locate 1234 and tracking 5678 written as literal
      bytes, the other integers by shift-and-mask, the symbol copied in. */
  function CreateAddOrderMessage(): (m: seq<byte>)
    ensures |m| == AddOrderLength && m[0] == Ascii('A') && m[19] == Ascii('B')
  {
    [Ascii('A'), 0x04, 0xD2, 0x16, 0x2E]
    + BeBytes(6, GroundTimestamp)
    + BeBytes(8, GroundOrderRef)
    + [Ascii('B')]
    + BeBytes(4, 1000)
    + AsciiBytes("AAPL    ")
    + BeBytes(4, 1502500)
  }

  /** The synthetic message is the Add Order encoding of its ground-truth values. */
  lemma CreatedMessageEncodesGroundTruth()
    ensures Representable(GroundTruth)
    ensures CreateAddOrderMessage() == EncodeAddOrder(GroundTruth)
  {
    assert Pow256(2) == 0x1_0000;
    assert Pow256(4) == 0x1_0000_0000;
    assert Pow256(6) == 0x1_0000_0000_0000;
    assert Pow256(8) == 0x1_0000_0000_0000_0000;
    assert BeBytes(2, 1234) == [0x04, 0xD2];
    assert BeBytes(2, 5678) == [0x16, 0x2E];
  }

  /** `parse_naive` recovers every value the synthetic message was built from. */
  lemma NaiveParseOfCreatedMessage()
    ensures ParseNaive(CreateAddOrderMessage()) == GroundTruth
    ensures ParseNaive(CreateAddOrderMessage()).shares == 1000
  {
    CreatedMessageEncodesGroundTruth();
    NaiveRoundTrip(GroundTruth);
  }

  // -----------------------------------------------------------------------
  // The fixture buffer and the stride loop
  // -----------------------------------------------------------------------

  const NumMessages: nat := 10000

  /** n back-to-back copies of m. */
  function Repeat(m: seq<byte>, n: nat): (r: seq<byte>)
    ensures |m| == AddOrderLength ==> |r| == AddOrderLength * n
  {
    if n == 0 then [] else m + Repeat(m, n - 1)
  }

  /** Appending one more copy at the end is the same as one more copy at the front. */
  lemma {:induction false} RepeatAppend(m: seq<byte>, n: nat)
    ensures Repeat(m, n) + m == Repeat(m, n + 1)
  {
    if n > 0 {
      RepeatAppend(m, n - 1);
      assert Repeat(m, n) + m == m + (Repeat(m, n - 1) + m);
    }
  }

  /** Copy k of a repeated 36-byte message sits at bytes 36k .. 36k+35. */
  lemma {:induction false} RepeatStride(m: seq<byte>, n: nat, k: nat)
    requires |m| == AddOrderLength && k < n
    ensures AddOrderLength * k + AddOrderLength <= |Repeat(m, n)|
    ensures Repeat(m, n)[AddOrderLength * k..AddOrderLength * k + AddOrderLength] == m
  {
    if k > 0 {
      RepeatStride(m, n - 1, k - 1);
      var r := Repeat(m, n);
      assert r == m + Repeat(m, n - 1);
      assert r[AddOrderLength * k..AddOrderLength * k + AddOrderLength]
          == Repeat(m, n - 1)[AddOrderLength * (k - 1)..AddOrderLength * (k - 1) + AddOrderLength];
    }
  }

  /** The largest 32-bit share count. */
  const MaxShares: nat := 0xFFFF_FFFF

  /** The Shares field (big-endian, bytes 20..23) of each message of a buffer cut
      into 36-byte strides, summed. */
  function SharesSum(b: seq<byte>): nat
    requires |b| % AddOrderLength == 0
    decreases |b|
  {
    if |b| == 0 then 0 else BeValue(b[20..24]) + SharesSum(b[AddOrderLength..])
  }

  /** Each message adds a 32-bit share count, so n messages add at most n times
      the largest one. */
  lemma {:induction false} SharesSumBound(b: seq<byte>)
    requires |b| % AddOrderLength == 0
    ensures SharesSum(b) <= |b| / AddOrderLength * MaxShares
    decreases |b|
  {
    if |b| > 0 {
      var n := |b| / AddOrderLength;
      assert |b[AddOrderLength..]| / AddOrderLength == n - 1;
      SharesSumBound(b[AddOrderLength..]);
      assert Pow256(4) == MaxShares + 1;
      assert BeValue(b[20..24]) <= MaxShares;
      MulAddRight(n - 1, 1, MaxShares);
    }
  }

  /** Walking n copies of one message adds that message's shares n times. */
  lemma {:induction false} SharesOfRepeat(m: seq<byte>, n: nat)
    requires |m| == AddOrderLength
    ensures SharesSum(Repeat(m, n)) == n * BeValue(m[20..24])
  {
    if n > 0 {
      var r, rest, s := Repeat(m, n), Repeat(m, n - 1), BeValue(m[20..24]);
      assert r == m + rest;
      assert r[20..24] == m[20..24] && r[AddOrderLength..] == rest;
      SharesOfRepeat(m, n - 1);
      assert SharesSum(r) == s + SharesSum(rest);
      MulAddRight(n - 1, 1, s);
    }
  }

  /** `ITCHParseFixture`: the buffer of back-to-back messages the benchmarks walk. */
  class ParseFixture {
    var buffer: seq<byte>
    var numMessages: nat

    constructor ()
      ensures buffer == [] && numMessages == 0
    {
      buffer, numMessages := [], 0;
    }

    /** `SetUp`: appends the synthetic message 10000 times. */
    method SetUp()
      modifies this
      ensures buffer == old(buffer) + Repeat(CreateAddOrderMessage(), NumMessages)
      ensures numMessages == NumMessages
    {
      var msg := CreateAddOrderMessage();
      var appended: seq<byte> := [];
      for i := 0 to NumMessages
        invariant appended == Repeat(msg, i)
        invariant buffer == old(buffer) + appended
      {
        buffer := buffer + msg;
        appended := appended + msg;
        RepeatAppend(msg, i);
      }
      numMessages := NumMessages;
    }

    /** `TearDown`. */
    method TearDown()
      modifies this
      ensures buffer == [] && numMessages == old(numMessages)
    {
      buffer := [];
    }

    /** The stride loop of the naive benchmark: decode 36 bytes, count, add the shares. */
    method NaiveParse() returns (count: nat, totalShares: nat)
      requires |buffer| % AddOrderLength == 0
      ensures AddOrderLength * count == |buffer|
      ensures totalShares == SharesSum(buffer)
    {
      var b := buffer;
      count, totalShares := 0, 0;
      var ptr := 0;
      while ptr < |b|
        invariant ptr == AddOrderLength * count && ptr <= |b|
        invariant (|b| - ptr) % AddOrderLength == 0
        invariant totalShares + SharesSum(b[ptr..]) == SharesSum(b)
      {
        SharesStride(b, ptr);
        var order := ParseNaive(b[ptr..]);
        count := count + 1;
        totalShares := totalShares + order.shares;
        ptr := ptr + AddOrderLength;
      }
    }
  }

  /** One stride of the walk: the message at ptr, then the rest. */
  lemma SharesStride(b: seq<byte>, ptr: nat)
    requires ptr < |b| && (|b| - ptr) % AddOrderLength == 0
    ensures ptr + AddOrderLength <= |b| && (|b| - (ptr + AddOrderLength)) % AddOrderLength == 0
    ensures SharesSum(b[ptr..]) == ParseNaive(b[ptr..]).shares + SharesSum(b[ptr + AddOrderLength..])
  {
    assert b[ptr..][AddOrderLength..] == b[ptr + AddOrderLength..];
  }

  /** The set-up buffer holds 360000 bytes; walking it visits 10000 messages of
      1000 shares each, 10,000,000 shares in all. */
  lemma FixtureTotals()
    ensures |Repeat(CreateAddOrderMessage(), NumMessages)| == 360000
    ensures SharesSum(Repeat(CreateAddOrderMessage(), NumMessages)) == 10000000
  {
    var m := CreateAddOrderMessage();
    NaiveParseOfCreatedMessage();
    assert BeValue(m[20..24]) == ParseNaive(m).shares == 1000;
    SharesOfRepeat(CreateAddOrderMessage(), NumMessages);
  }
}
