/**
 * The GDAX feed: websocket messages are routed by their "type" to a handler;
 * a match message becomes a trade whose size is negative for a sell; level-2
 * messages rebuild (snapshot) or change (l2update) a market's order book; and
 * candlestick requests are limited to 200 candles.
 */
module Gdax {

  import opened Wrappers
  import OrderBook

  /** The handlers a message can be routed to. */
  datatype Handler = Level2 | Heartbeat | Ticker | Match | Orders | Ignored

  /** `websocketCallback(message)`: the handler for the message type, checked in
    * the order of the source, whose orders branch also lists "match". */
  function Route(messageType: string): (h: Handler)
  {
    if messageType == "l2update" || messageType == "l2update_50" || messageType == "snapshot" then Level2
    else if messageType == "heartbeat" then Heartbeat
    else if messageType == "ticker" then Ticker
    else if messageType == "match" then Match
    else if messageType == "received" || messageType == "open" || messageType == "done"
            || messageType == "match" || messageType == "change" || messageType == "activate" then Orders
    else Ignored
  }

  /** The message types of the order channel that reach the orders handler. */
  const OrderTypes: set<string> := {"received", "open", "done", "change", "activate"}

  /** Each message type has one handler: the level-2 types, the three single
    * types and the order types; "match" never reaches the orders handler;
    * everything else is ignored. */
  lemma RouteTable(messageType: string)
    ensures Route(messageType) == Level2 <==> messageType in {"l2update", "l2update_50", "snapshot"}
    ensures Route(messageType) == Heartbeat <==> messageType == "heartbeat"
    ensures Route(messageType) == Ticker <==> messageType == "ticker"
    ensures Route(messageType) == Match <==> messageType == "match"
    ensures Route(messageType) == Orders <==> messageType in OrderTypes
    ensures Route("match") != Orders
  {
  }

  /** `processMatch`: the trade size, negated when the match's side is "sell". */
  function MatchSize(side: string, size: real): (s: real)
    ensures side == "sell" ==> s == -size
    ensures side != "sell" ==> s == size
  {
    size * (if side == "sell" then -1.0 else 1.0)
  }

  /** A match of positive size yields a negative size exactly for a sell, and
    * the size's magnitude is kept. */
  lemma MatchSizeSign(side: string, size: real)
    requires size > 0.0
    ensures MatchSize(side, size) < 0.0 <==> side == "sell"
    ensures MatchSize(side, size) == size || MatchSize(side, size) == -size
  {
  }

  /** `fillCandleSticks(.., start, end, granularity)`: refused (false) when
    * the truncated number of candles exceeds 200. */
  predicate TooManyCandles(start: int, end: int, granularity: int)
    requires granularity != 0
  {
    CDiv(end - start, granularity) > 200
  }

  /** For a forward range and a positive granularity the request is refused
    * iff the range spans at least 201 whole candles. */
  lemma TooManyCandlesMeaning(start: int, end: int, granularity: int)
    requires granularity > 0 && start <= end
    ensures TooManyCandles(start, end, granularity) <==> end - start >= 201 * granularity
  {
    var d := end - start;
    CDivNatural(d, granularity);
    assert d == granularity * (d / granularity) + d % granularity;
    if d / granularity > 200 {
      MulMonotone(d / granularity, 201, granularity);
    } else {
      MulMonotone(200, d / granularity, granularity);
    }
  }

  /** The two sides of a book: bids and asks. */
  type Sides = (map<real, real>, map<real, real>)

  /** Bid levels applied in order. */
  function ApplyBids(s: Sides, levels: seq<(real, real)>): Sides
    decreases |levels|
  {
    if levels == [] then s
    else
      var last := levels[|levels| - 1];
      var prev := ApplyBids(s, levels[..|levels| - 1]);
      OrderBook.BidLevel(prev.0, prev.1, last.0, last.1)
  }

  /** Ask levels applied in order. */
  function ApplyAsks(s: Sides, levels: seq<(real, real)>): Sides
    decreases |levels|
  {
    if levels == [] then s
    else
      var last := levels[|levels| - 1];
      var prev := ApplyAsks(s, levels[..|levels| - 1]);
      OrderBook.AskLevel(prev.0, prev.1, last.0, last.1)
  }

  /** One l2update change: "buy" sets a bid level, "sell" an ask level, any
    * other side nothing. */
  function ApplyChange(s: Sides, change: (string, real, real)): Sides
  {
    if change.0 == "buy" then OrderBook.BidLevel(s.0, s.1, change.1, change.2)
    else if change.0 == "sell" then OrderBook.AskLevel(s.0, s.1, change.1, change.2)
    else s
  }

  /** The changes of an l2update applied in order. */
  function ApplyChanges(s: Sides, changes: seq<(string, real, real)>): Sides
    decreases |changes|
  {
    if changes == [] then s
    else ApplyChange(ApplyChanges(s, changes[..|changes| - 1]), changes[|changes| - 1])
  }

  /** The book a snapshot leaves: its bid levels, then its ask levels, applied
    * to an empty book. */
  function Snapshot(bids: seq<(real, real)>, asks: seq<(real, real)>): Sides
  {
    ApplyAsks(ApplyBids((map[], map[]), bids), asks)
  }

  /** Applying two batches of changes is applying their concatenation. */
  lemma {:induction false} ApplyChangesAppend(s: Sides, c1: seq<(string, real, real)>, c2: seq<(string, real, real)>)
    ensures ApplyChanges(s, c1 + c2) == ApplyChanges(ApplyChanges(s, c1), c2)
    decreases |c2|
  {
    if c2 != [] {
      var n := |c2| - 1;
      assert (c1 + c2)[..|c1 + c2| - 1] == c1 + c2[..n];
      assert (c1 + c2)[|c1 + c2| - 1] == c2[n];
      ApplyChangesAppend(s, c1, c2[..n]);
    } else {
      assert c1 + c2 == c1;
    }
  }

  /** Changes on neither side leave the book as it is. */
  lemma {:induction false} OtherSidesIgnored(s: Sides, changes: seq<(string, real, real)>)
    requires forall i :: 0 <= i < |changes| ==> changes[i].0 != "buy" && changes[i].0 != "sell"
    ensures ApplyChanges(s, changes) == s
    decreases |changes|
  {
    if changes != [] {
      OtherSidesIgnored(s, changes[..|changes| - 1]);
    }
  }

  /** Buy changes of non-zero size only set bid levels: the asks stay, and a
    * price has a bid level iff it had one or some change names it. */
  lemma {:induction false} BuyChangesSetBids(s: Sides, changes: seq<(string, real, real)>, p: real)
    requires forall i :: 0 <= i < |changes| ==> changes[i].0 == "buy" && changes[i].2 != 0.0
    ensures ApplyChanges(s, changes).1 == s.1
    ensures p in ApplyChanges(s, changes).0 <==> p in s.0 || exists i :: 0 <= i < |changes| && changes[i].1 == p
    decreases |changes|
  {
    if changes != [] {
      var n := |changes| - 1;
      BuyChangesSetBids(s, changes[..n], p);
      if exists i :: 0 <= i < |changes| && changes[i].1 == p {
        var i :| 0 <= i < |changes| && changes[i].1 == p;
        if i < n {
          assert changes[..n][i].1 == p;
        }
      }
      if exists i :: 0 <= i < n && changes[..n][i].1 == p {
        var i :| 0 <= i < n && changes[..n][i].1 == p;
        assert changes[i].1 == p;
      }
    }
  }

  /** `processLevel2(message)` on the order book of the message's market: a
    * snapshot resets the book and adds its bid, then its ask levels; an
    * l2update applies its changes in order. */
  method ProcessLevel2(book: OrderBook.OrderBook, isSnapshot: bool, bids: seq<(real, real)>, asks: seq<(real, real)>,
                       changes: seq<(string, real, real)>)
    requires book.Valid()
    modifies book
    ensures isSnapshot ==> (book.bids, book.asks) == Snapshot(bids, asks)
    ensures !isSnapshot ==> (book.bids, book.asks) == ApplyChanges(old((book.bids, book.asks)), changes)
    ensures book.Valid()
  {
    if isSnapshot {
      book.Reset();
      AddBidLevels(book, bids);
      AddAskLevels(book, asks);
    } else {
      AddChanges(book, changes);
    }
  }

  /** The loop over the bid levels of a snapshot. */
  method AddBidLevels(book: OrderBook.OrderBook, levels: seq<(real, real)>)
    requires book.Valid()
    modifies book
    ensures (book.bids, book.asks) == ApplyBids(old((book.bids, book.asks)), levels)
    ensures book.Valid()
  {
    var i := 0;
    while i < |levels|
      invariant i <= |levels| && book.Valid()
      invariant (book.bids, book.asks) == ApplyBids(old((book.bids, book.asks)), levels[..i])
    {
      assert levels[..i + 1][..i] == levels[..i];
      book.AddBidPriceLevel(levels[i].0, levels[i].1);
      i := i + 1;
    }
    assert levels[..i] == levels;
  }

  /** The loop over the ask levels of a snapshot. */
  method AddAskLevels(book: OrderBook.OrderBook, levels: seq<(real, real)>)
    requires book.Valid()
    modifies book
    ensures (book.bids, book.asks) == ApplyAsks(old((book.bids, book.asks)), levels)
    ensures book.Valid()
  {
    var i := 0;
    while i < |levels|
      invariant i <= |levels| && book.Valid()
      invariant (book.bids, book.asks) == ApplyAsks(old((book.bids, book.asks)), levels[..i])
    {
      assert levels[..i + 1][..i] == levels[..i];
      book.AddAskPriceLevel(levels[i].0, levels[i].1);
      i := i + 1;
    }
    assert levels[..i] == levels;
  }

  /** The loop over the changes of an l2update. */
  method AddChanges(book: OrderBook.OrderBook, changes: seq<(string, real, real)>)
    requires book.Valid()
    modifies book
    ensures (book.bids, book.asks) == ApplyChanges(old((book.bids, book.asks)), changes)
    ensures book.Valid()
  {
    var i := 0;
    while i < |changes|
      invariant i <= |changes| && book.Valid()
      invariant (book.bids, book.asks) == ApplyChanges(old((book.bids, book.asks)), changes[..i])
    {
      assert changes[..i + 1][..i] == changes[..i];
      var c := changes[i];
      if c.0 == "buy" {
        book.AddBidPriceLevel(c.1, c.2);
      } else if c.0 == "sell" {
        book.AddAskPriceLevel(c.1, c.2);
      }
      i := i + 1;
    }
    assert changes[..i] == changes;
  }
}
