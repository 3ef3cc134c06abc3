/** The market-replay bridge: locating the ITCH payload inside a captured packet,
    handing it to the framer, and the visitor that turns Add Order and Order
    Executed messages into order-book requests while keeping replay metrics.
    The order book itself is not part of this model: the visitor is given what
    the book answers (best prices, order counts, whether an add or a cancel
    succeeded) and returns what it asked of the book. */
module ReplayDriver {
  import opened Bytes
  import opened ItchParser

  // -----------------------------------------------------------------------
  // Payload detection
  // -----------------------------------------------------------------------

  /** The ITCH 5.0 message type letters the heuristic accepts. */
  const ItchTypeLetters: set<char> :=
    {'A', 'F', 'E', 'C', 'X', 'D', 'U', 'P', 'Q', 'B', 'S', 'R', 'H', 'Y', 'L', 'I', 'N', 'V', 'W', 'K'}

  /** `is_valid_itch_type`, group by group as the source tests them. */
  predicate IsValidItchType(c: byte)
    ensures IsValidItchType(c) <==> (c as int) as char in ItchTypeLetters
  {
    // Order messages
    if c == Ascii('A') || c == Ascii('F') || c == Ascii('E') || c == Ascii('C')
       || c == Ascii('X') || c == Ascii('D') || c == Ascii('U') then true
    // Trade messages
    else if c == Ascii('P') || c == Ascii('Q') || c == Ascii('B') then true
    // System and stock messages
    else if c == Ascii('S') || c == Ascii('R') || c == Ascii('H') || c == Ascii('Y') || c == Ascii('L') then true
    // Net order imbalance
    else if c == Ascii('I') || c == Ascii('N') then true
    // Market-wide circuit breaker and IPO
    else if c == Ascii('V') || c == Ascii('W') || c == Ascii('K') then true
    else false
  }

  /** Header lengths tried in turn: Ethernet + IPv4 + UDP (42), with a VLAN tag (46),
      each followed by a MoldUDP64 header (62, 66) and its 2-byte length prefix (64, 68). */
  const HeaderOffsets: seq<nat> := [42, 46, 62, 64, 66, 68]
  const SearchLimit: nat := 100
  const FallbackOffset: nat := 42

  /** The big-endian 16-bit stock locate that follows a type byte at `o`. */
  function StockLocate(data: seq<byte>, o: nat): (locate: nat)
    requires o + 3 <= |data|
    ensures locate == BeValue(data[o + 1..o + 3])
  {
    var hi := data[o + 1];
    assert data[o + 1..o + 3][..1] == [hi];
    (hi as int) * 256 + data[o + 2] as int
  }

  /** A known header length that lands on an accepted type byte. */
  predicate CandidateHit(data: seq<byte>, k: nat)
    requires k < |HeaderOffsets|
  {
    HeaderOffsets[k] < |data| && IsValidItchType(data[HeaderOffsets[k]])
  }

  /** A position in the first 100 bytes holding an accepted type byte followed by a
      stock locate in 1..9999. */
  predicate ScanHit(data: seq<byte>, o: nat) {
    && o < |data| && o < SearchLimit && IsValidItchType(data[o])
    && o + 3 <= |data| && 0 < StockLocate(data, o) < 10000
  }

  /** The answer of `find_itch_offset`. The first known header length that lands on
      an accepted type byte wins, whatever its stock locate; failing that, the first
      position of the first 100 bytes that passes the stock-locate test; failing
      that, 42. */
  ghost predicate IsItchOffset(data: seq<byte>, offset: nat) {
    && ((exists k :: 0 <= k < |HeaderOffsets| && CandidateHit(data, k)) ==>
          exists k :: 0 <= k < |HeaderOffsets| && CandidateHit(data, k) && offset == HeaderOffsets[k]
            && forall j :: 0 <= j < k ==> !CandidateHit(data, j))
    && ((forall k :: 0 <= k < |HeaderOffsets| ==> !CandidateHit(data, k)) ==>
          if exists o: nat :: ScanHit(data, o)
          then ScanHit(data, offset) && forall o: nat :: o < offset ==> !ScanHit(data, o)
          else offset == FallbackOffset)
  }

  /** The answer is determined by the packet: two offsets that both meet the
      first-hit description are the same offset. */
  lemma ItchOffsetUnique(data: seq<byte>, a: nat, b: nat)
    requires IsItchOffset(data, a) && IsItchOffset(data, b)
    ensures a == b
  {
    if exists k :: 0 <= k < |HeaderOffsets| && CandidateHit(data, k) {
      var ka :| 0 <= ka < |HeaderOffsets| && CandidateHit(data, ka) && a == HeaderOffsets[ka]
                && forall j :: 0 <= j < ka ==> !CandidateHit(data, j);
      var kb :| 0 <= kb < |HeaderOffsets| && CandidateHit(data, kb) && b == HeaderOffsets[kb]
                && forall j :: 0 <= j < kb ==> !CandidateHit(data, j);
      assert !(ka < kb) && !(kb < ka);
    } else if exists o: nat :: ScanHit(data, o) {
      assert ScanHit(data, a) && ScanHit(data, b);
    }
  }

  /** `find_itch_offset`. */
  method FindItchOffset(data: seq<byte>) returns (offset: nat)
    ensures IsItchOffset(data, offset)
    ensures offset < |data| || offset == FallbackOffset
  {
    for k := 0 to |HeaderOffsets|
      invariant forall j :: 0 <= j < k ==> !CandidateHit(data, j)
    {
      var o := HeaderOffsets[k];
      if o < |data| {
        var msgType := data[o];
        if IsValidItchType(msgType) {
          assert CandidateHit(data, k);
          // The stock-locate test here cannot change the answer.
          if |data| >= o + 3 {
            var stockLocate := StockLocate(data, o);
            if stockLocate > 0 && stockLocate < 10000 {
              return o;
            }
          }
          return o;
        }
      }
    }
    var searchEnd := if |data| < SearchLimit then |data| else SearchLimit;
    for o := 0 to searchEnd
      invariant forall p: nat :: p < o ==> !ScanHit(data, p)
    {
      var msgType := data[o];
      if IsValidItchType(msgType) {
        if |data| >= o + 3 {
          var stockLocate := StockLocate(data, o);
          if stockLocate > 0 && stockLocate < 10000 {
            assert ScanHit(data, o);
            return o;
          }
        }
      }
    }
    return FallbackOffset;
  }

  /** The per-packet step of the replay: find the payload offset and frame the bytes
      from there on, but only when that offset lies inside the packet. */
  method HandlePacket(L: Layout, data: seq<byte>) returns (offset: nat, framed: Option<Framing>)
    requires L.Valid()
    ensures IsItchOffset(data, offset)
    ensures framed.Some? <==> offset < |data|
    ensures framed.Some? ==> framed.value == Frames(L, data[offset..])
    ensures framed.Some? ==> framed.value.consumed <= |data| - offset
  {
    offset := FindItchOffset(data);
    framed := None;
    if offset < |data| {
      var itchData := data[offset..];
      var consumed, calls := ParseBuffer(L, itchData);
      framed := Some(Framing(consumed, calls));
    }
  }

  // -----------------------------------------------------------------------
  // The replay visitor
  // -----------------------------------------------------------------------

  datatype Side = Buy | Sell

  function Opposite(s: Side): (o: Side)
    ensures o != s
  {
    if s == Buy then Sell else Buy
  }

  /** What the visitor asks `add_order` for. */
  datatype OrderRequest = OrderRequest(id: nat, price: nat, quantity: nat, side: Side)

  /** What the book answers during one `on_add_order`: its best prices, its order
      count before and after the add, and whether the add succeeded. Every order
      the replay rests has an unsigned price, so best prices are naturals. */
  datatype BookReplies = BookReplies(
    bestBid: Option<nat>, bestAsk: Option<nat>, countBefore: nat, added: bool, countAfter: nat)

  /** Every 100th order is made marketable. */
  const MatchTriggerInterval: nat := 100
  /** One cent, in ticks of 1/10000. */
  const PriceNudge: nat := 100

  /** The price of a flipped order: one cent through the opposite best price,
      clamped at zero on the sell side; unchanged when that side is empty. */
  function AggressivePrice(side: Side, price: nat, bestBid: Option<nat>, bestAsk: Option<nat>): (p: nat)
    ensures side == Buy && bestAsk.Some? ==> p == bestAsk.value + PriceNudge
    ensures side == Sell && bestBid.Some? ==>
              && (p == 0 <==> bestBid.value <= PriceNudge)
              && (bestBid.value > PriceNudge ==> p + PriceNudge == bestBid.value)
              && p <= bestBid.value && (bestBid.value > 0 ==> p < bestBid.value)
    ensures side == Buy && bestAsk.None? ==> p == price
    ensures side == Sell && bestBid.None? ==> p == price
  {
    match side
    case Buy => if bestAsk.Some? then bestAsk.value + PriceNudge else price
    case Sell =>
      if bestBid.Some? then (if bestBid.value > PriceNudge then bestBid.value - PriceNudge else 0)
      else price
  }

  /** The request for the order with sequence number `processed` (counted from 1)
      and simulated id `id`: the message's side, price and shares, except that every
      100th order takes the other side at a marketable price. */
  function PlanAddOrder(processed: nat, id: nat, price: nat, shares: nat, isBuy: bool, book: BookReplies)
    : (r: OrderRequest)
    ensures r.id == id && r.quantity == shares
    ensures var own := if isBuy then Buy else Sell;
      r.side == (if processed % MatchTriggerInterval == 0 then Opposite(own) else own)
    ensures processed % MatchTriggerInterval != 0 ==> r.price == price
    ensures processed % MatchTriggerInterval == 0 ==>
              r.price == AggressivePrice(r.side, price, book.bestBid, book.bestAsk)
    ensures processed % MatchTriggerInterval == 0 && r.side == Buy && book.bestAsk.Some? ==>
              r.price >= book.bestAsk.value
    ensures processed % MatchTriggerInterval == 0 && r.side == Sell && book.bestBid.Some? ==>
              r.price <= book.bestBid.value
  {
    var own := if isBuy then Buy else Sell;
    if processed % MatchTriggerInterval == 0 then
      var side := Opposite(own);
      OrderRequest(id, AggressivePrice(side, price, book.bestBid, book.bestAsk), shares, side)
    else
      OrderRequest(id, price, shares, own)
  }

  /** A match is inferred when an accepted add did not grow a non-empty book. */
  predicate MatchObserved(book: BookReplies) {
    book.added && book.countAfter <= book.countBefore && book.countBefore > 0
  }

  /** What the inference tells about an accepted add after which `removed` filled
      orders left the book and the new order `rested` or not, with `fills` matches
      in all: only filled orders leave, and an order that does not rest was filled.
      A reported match is a real one; an add that filled completely in a non-empty
      book is always reported; a fill that removed nothing from the book while the
      new order rested is not. */
  lemma MatchObservedMeaning(book: BookReplies, removed: nat, rested: bool, fills: nat)
    requires book.added
    requires book.countAfter + removed == book.countBefore + (if rested then 1 else 0)
    requires removed <= fills && (rested || fills > 0)
    ensures MatchObserved(book) ==> fills > 0
    ensures !rested && book.countBefore > 0 ==> MatchObserved(book)
    ensures rested && removed == 0 ==> !MatchObserved(book)
  {
  }

  /** `ReplayMetrics` (the timing total is not modelled). */
  class ReplayMetrics {
    var ordersProcessed: nat
    var ordersAdded: nat
    var ordersCancelled: nat
    var matchesExecuted: nat

    constructor ()
      ensures ordersProcessed == 0 && ordersAdded == 0 && ordersCancelled == 0 && matchesExecuted == 0
    {
      ordersProcessed, ordersAdded, ordersCancelled, matchesExecuted := 0, 0, 0, 0;
    }
  }

  /** `ReplayVisitor`: forwards Add Order and Order Executed messages to the book. */
  class ReplayVisitor {
    const metrics: ReplayMetrics
    var simulatedOrderId: nat

    /** The next id is one past the number of orders processed so far; true from
        construction with fresh metrics, and kept by every callback. */
    ghost predicate InStep()
      reads this, metrics
    {
      simulatedOrderId == metrics.ordersProcessed + 1
    }

    constructor (metrics: ReplayMetrics)
      ensures this.metrics == metrics && simulatedOrderId == 1
      ensures metrics.ordersProcessed == 0 ==> InStep()
    {
      this.metrics := metrics;
      simulatedOrderId := 1;
    }

    /** `on_add_order`, given the message's price, shares and side and the book's
        replies; returns the request sent to `add_order`. */
    method OnAddOrder(price: nat, shares: nat, isBuy: bool, book: BookReplies) returns (request: OrderRequest)
      modifies this, metrics
      ensures request == PlanAddOrder(metrics.ordersProcessed, old(simulatedOrderId), price, shares, isBuy, book)
      ensures simulatedOrderId == old(simulatedOrderId) + 1
      ensures metrics.ordersProcessed == old(metrics.ordersProcessed) + 1
      ensures metrics.ordersAdded == old(metrics.ordersAdded) + (if book.added then 1 else 0)
      ensures metrics.matchesExecuted == old(metrics.matchesExecuted) + (if MatchObserved(book) then 1 else 0)
      ensures metrics.ordersCancelled == old(metrics.ordersCancelled)
      ensures old(InStep()) ==> InStep() && request.id == metrics.ordersProcessed
    {
      metrics.ordersProcessed := metrics.ordersProcessed + 1;
      var id := simulatedOrderId;
      simulatedOrderId := simulatedOrderId + 1;
      var side := if isBuy then Buy else Sell;
      var orderPrice := price;
      if metrics.ordersProcessed % MatchTriggerInterval == 0 {
        side := if side == Buy then Sell else Buy;
        if side == Buy {
          if book.bestAsk.Some? {
            orderPrice := book.bestAsk.value + PriceNudge;
          }
        } else {
          if book.bestBid.Some? {
            orderPrice := if book.bestBid.value > PriceNudge then book.bestBid.value - PriceNudge else 0;
          }
        }
      }
      request := OrderRequest(id, orderPrice, shares, side);
      if book.added {
        metrics.ordersAdded := metrics.ordersAdded + 1;
        if book.countAfter <= book.countBefore && book.countBefore > 0 {
          metrics.matchesExecuted := metrics.matchesExecuted + 1;
        }
      }
    }

    /** `on_order_executed`: asks the book to cancel the referenced order (returned)
        and counts the cancellation when the book accepted it. */
    method OnOrderExecuted(orderRef: nat, cancelled: bool) returns (cancelId: nat)
      modifies metrics
      ensures cancelId == orderRef
      ensures metrics.ordersCancelled == old(metrics.ordersCancelled) + (if cancelled then 1 else 0)
      ensures metrics.ordersProcessed == old(metrics.ordersProcessed)
      ensures metrics.ordersAdded == old(metrics.ordersAdded)
      ensures metrics.matchesExecuted == old(metrics.matchesExecuted)
    {
      cancelId := orderRef;
      if cancelled {
        metrics.ordersCancelled := metrics.ordersCancelled + 1;
      }
    }
  }
}
