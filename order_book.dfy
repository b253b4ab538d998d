/**
 * The level-2 order book: a map from price to size for each side. A level
 * with size zero removes the price (from the bids first, otherwise from the
 * asks); any other size sets the level. The spread is the lowest ask minus
 * the highest bid, or zero while either side is empty, and is recomputed
 * after every change. A quote is the best level of each side.
 */
module OrderBook {

  /** A best bid and best ask with their sizes; all zero for an empty quote. */
  datatype Quote = Quote(bidPrice: real, bidSize: real, askPrice: real, askSize: real)

  const EmptyQuote: Quote := Quote(0.0, 0.0, 0.0, 0.0)

  /** `getTickerPrice()`: the midpoint of bid and ask. */
  function TickerPrice(q: Quote): real { (q.bidPrice + q.askPrice) / 2.0 }

  /** `isQuoteInvalid()`: a bid at or above the ask. */
  predicate IsQuoteInvalid(q: Quote) { q.bidPrice >= q.askPrice }

  /** `Quote == Quote` compares the two prices only, not the sizes. */
  predicate SamePrices(a: Quote, b: Quote) { a.bidPrice == b.bidPrice && a.askPrice == b.askPrice }

  /** Quotes equal by price may differ in size; a quote is invalid exactly when
    * its midpoint is not below its ask. */
  lemma QuoteFacts(q: Quote)
    ensures SamePrices(q, q.(bidSize := q.bidSize + 1.0)) && q != q.(bidSize := q.bidSize + 1.0)
    ensures IsQuoteInvalid(q) <==> TickerPrice(q) >= q.askPrice
    ensures !IsQuoteInvalid(q) ==> q.bidPrice < TickerPrice(q) < q.askPrice
  {
  }

  /** A non-empty finite set of prices has a greatest element. */
  lemma {:induction false} HighestExists(s: set<real>)
    requires s != {}
    ensures exists m :: m in s && forall x :: x in s ==> x <= m
    decreases |s|
  {
    if forall x :: x !in s {
      assert false;
    }
    var y :| y in s;
    if s != {y} {
      var rest := s - {y};
      HighestExists(rest);
      var m :| m in rest && forall x :: x in rest ==> x <= m;
      var top := if y > m then y else m;
      forall x | x in s
        ensures x <= top
      {
        if x != y {
          assert x in rest;
        }
      }
      assert top in s;
    } else {
      assert forall x :: x in s ==> x <= y;
    }
  }

  /** A non-empty finite set of prices has a least element. */
  lemma {:induction false} LowestExists(s: set<real>)
    requires s != {}
    ensures exists m :: m in s && forall x :: x in s ==> m <= x
    decreases |s|
  {
    if forall x :: x !in s {
      assert false;
    }
    var y :| y in s;
    if s != {y} {
      var rest := s - {y};
      LowestExists(rest);
      var m :| m in rest && forall x :: x in rest ==> m <= x;
      var bottom := if y < m then y else m;
      forall x | x in s
        ensures bottom <= x
      {
        if x != y {
          assert x in rest;
        }
      }
      assert bottom in s;
    } else {
      assert forall x :: x in s ==> y <= x;
    }
  }

  /** The last key of an ordered map (`rbegin()->first`). */
  function Highest(s: set<real>): (m: real)
    requires s != {}
    ensures m in s && forall x :: x in s ==> x <= m
  {
    HighestExists(s);
    var m :| m in s && forall x :: x in s ==> x <= m; m
  }

  /** The first key of an ordered map (`begin()->first`). */
  function Lowest(s: set<real>): (m: real)
    requires s != {}
    ensures m in s && forall x :: x in s ==> m <= x
  {
    LowestExists(s);
    var m :| m in s && forall x :: x in s ==> m <= x; m
  }

  /** The spread of two sides: lowest ask minus highest bid, zero if a side is empty. */
  function SpreadOf(bids: map<real, real>, asks: map<real, real>): real
  {
    if |bids| > 0 && |asks| > 0 then Lowest(asks.Keys) - Highest(bids.Keys) else 0.0
  }

  /** The spread is positive exactly when every bid is below every ask; it is
    * zero while a side is empty. */
  lemma SpreadSign(bids: map<real, real>, asks: map<real, real>)
    ensures |bids| == 0 || |asks| == 0 ==> SpreadOf(bids, asks) == 0.0
    ensures |bids| > 0 && |asks| > 0 ==>
              (SpreadOf(bids, asks) > 0.0 <==> forall b, a :: b in bids && a in asks ==> b < a)
  {
    if |bids| > 0 && |asks| > 0 {
      var hb := Highest(bids.Keys);
      var la := Lowest(asks.Keys);
      if !(SpreadOf(bids, asks) > 0.0) {
        assert hb in bids && la in asks && !(hb < la);
      }
    }
  }

  /** The two sides after `addBidPriceLevel(price, size)`. */
  function BidLevel(bids: map<real, real>, asks: map<real, real>, price: real, size: real): (sides: (map<real, real>, map<real, real>))
    ensures size != 0.0 ==> price in sides.0 && sides.0[price] == size && sides.1 == asks
    ensures size == 0.0 ==> price !in sides.0 && (price in bids ==> sides.1 == asks)
    ensures size == 0.0 && price !in bids ==> price !in sides.1 && sides.0 == bids
    ensures forall p :: p != price ==> (p in sides.0 <==> p in bids) && (p in sides.1 <==> p in asks)
    ensures forall p :: p != price && p in bids ==> sides.0[p] == bids[p]
    ensures forall p :: p != price && p in asks ==> sides.1[p] == asks[p]
  {
    if size == 0.0 then
      if price in bids then (bids - {price}, asks) else (bids, asks - {price})
    else (bids[price := size], asks)
  }

  /** The two sides after `addAskPriceLevel(price, size)`. */
  function AskLevel(bids: map<real, real>, asks: map<real, real>, price: real, size: real): (map<real, real>, map<real, real>)
  {
    if size == 0.0 then
      if price in asks then (bids, asks - {price}) else (bids - {price}, asks)
    else (bids, asks[price := size])
  }

  /** `addAskPriceLevel` is `addBidPriceLevel` with the sides swapped. */
  lemma AskMirrorsBid(bids: map<real, real>, asks: map<real, real>, price: real, size: real)
    ensures AskLevel(bids, asks, price, size).0 == BidLevel(asks, bids, price, size).1
    ensures AskLevel(bids, asks, price, size).1 == BidLevel(asks, bids, price, size).0
  {
  }

  /** Prices and sizes of a list of levels inserted one by one into `m`; an
    * insert never overwrites a price already present. */
  function Inserted(m: map<real, real>, levels: seq<(real, real)>): map<real, real>
    decreases |levels|
  {
    if levels == [] then m
    else Inserted(if levels[0].0 in m then m else m[levels[0].0 := levels[0].1], levels[1..])
  }

  /** Inserting a list of levels into an empty map keeps, for every listed
    * price, the size of its first occurrence, and nothing else. */
  lemma {:induction false} InsertedKeepsFirst(m: map<real, real>, levels: seq<(real, real)>)
    ensures forall p :: p in Inserted(m, levels) <==> p in m || exists i :: 0 <= i < |levels| && levels[i].0 == p
    ensures forall p :: p in m ==> Inserted(m, levels)[p] == m[p]
    ensures forall i :: 0 <= i < |levels| && levels[i].0 !in m && (forall j :: 0 <= j < i ==> levels[j].0 != levels[i].0) ==>
              Inserted(m, levels)[levels[i].0] == levels[i].1
    decreases |levels|
  {
    if levels != [] {
      var m' := if levels[0].0 in m then m else m[levels[0].0 := levels[0].1];
      var rest := levels[1..];
      InsertedKeepsFirst(m', rest);
      forall p
        ensures p in Inserted(m, levels) <==> p in m || exists i :: 0 <= i < |levels| && levels[i].0 == p
      {
        if exists i :: 0 <= i < |rest| && rest[i].0 == p {
          var i :| 0 <= i < |rest| && rest[i].0 == p;
          assert levels[i + 1].0 == p;
        }
        if exists i :: 0 <= i < |levels| && levels[i].0 == p {
          var i :| 0 <= i < |levels| && levels[i].0 == p;
          if i > 0 {
            assert rest[i - 1].0 == p;
          }
        }
      }
      forall i | 0 <= i < |levels| && levels[i].0 !in m && (forall j :: 0 <= j < i ==> levels[j].0 != levels[i].0)
        ensures Inserted(m, levels)[levels[i].0] == levels[i].1
      {
        if i > 0 {
          assert levels[i].0 != levels[0].0;
          assert rest[i - 1] == levels[i];
          forall j | 0 <= j < i - 1
            ensures rest[j].0 != rest[i - 1].0
          {
            assert rest[j] == levels[j + 1];
          }
        }
      }
    }
  }

  /**
   * The order book object: the bid and ask levels and the spread kept in
   * step with them (`Valid`).
   */
  class OrderBook {
    var bids: map<real, real>
    var asks: map<real, real>
    var spread: real

    predicate Valid()
      reads this
    {
      spread == SpreadOf(bids, asks)
    }

    /** `OrderBook()`: both sides empty, spread zero. */
    constructor ()
      ensures bids == map[] && asks == map[] && spread == 0.0 && Valid()
    {
      bids, asks, spread := map[], map[], 0.0;
    }

    /** `OrderBook(bid_map, ask_map)`: the sides are copied. */
    constructor FromMaps(bidMap: map<real, real>, askMap: map<real, real>)
      ensures bids == bidMap && asks == askMap && Valid()
    {
      bids, asks := bidMap, askMap;
      spread := SpreadOf(bidMap, askMap);
    }

    /** `OrderBook(bid_vector, ask_vector)`: the levels are inserted one by one,
      * so a repeated price keeps its first size. */
    constructor FromLevels(bidLevels: seq<(real, real)>, askLevels: seq<(real, real)>)
      ensures bids == Inserted(map[], bidLevels) && asks == Inserted(map[], askLevels) && Valid()
    {
      var b: map<real, real> := map[];
      var i := 0;
      while i < |bidLevels|
        invariant 0 <= i <= |bidLevels|
        invariant Inserted(b, bidLevels[i..]) == Inserted(map[], bidLevels)
      {
        assert bidLevels[i..][1..] == bidLevels[i + 1..];
        if bidLevels[i].0 !in b {
          b := b[bidLevels[i].0 := bidLevels[i].1];
        }
        i := i + 1;
      }
      var a: map<real, real> := map[];
      var j := 0;
      while j < |askLevels|
        invariant 0 <= j <= |askLevels|
        invariant Inserted(a, askLevels[j..]) == Inserted(map[], askLevels)
      {
        assert askLevels[j..][1..] == askLevels[j + 1..];
        if askLevels[j].0 !in a {
          a := a[askLevels[j].0 := askLevels[j].1];
        }
        j := j + 1;
      }
      bids, asks := b, a;
      spread := SpreadOf(b, a);
    }

    /** `setSpread()`: recompute the spread from the current sides. */
    method SetSpread()
      modifies this`spread
      ensures Valid()
      ensures |bids| > 0 && |asks| > 0 ==> spread == Lowest(asks.Keys) - Highest(bids.Keys)
      ensures |bids| == 0 || |asks| == 0 ==> spread == 0.0
    {
      if |bids| > 0 && |asks| > 0 {
        spread := Lowest(asks.Keys) - Highest(bids.Keys);
      } else {
        spread := 0.0;
      }
    }

    /** `reset()`: both sides emptied and the spread zeroed. */
    method Reset()
      modifies this
      ensures bids == map[] && asks == map[] && spread == 0.0 && Valid()
    {
      bids, asks := map[], map[];
      spread := 0.0;
    }

    /** `addBidPriceLevel(price, size)`. */
    method AddBidPriceLevel(price: real, size: real)
      modifies this
      ensures (bids, asks) == BidLevel(old(bids), old(asks), price, size)
      ensures Valid()
    {
      if size == 0.0 {
        if price in bids {
          bids := bids - {price};
        } else {
          asks := asks - {price};
        }
      } else {
        bids := bids[price := size];
      }
      SetSpread();
    }

    /** `addAskPriceLevel(price, size)`. */
    method AddAskPriceLevel(price: real, size: real)
      modifies this
      ensures (bids, asks) == AskLevel(old(bids), old(asks), price, size)
      ensures Valid()
    {
      if size == 0.0 {
        if price in asks {
          asks := asks - {price};
        } else {
          bids := bids - {price};
        }
      } else {
        asks := asks[price := size];
      }
      SetSpread();
    }

    /** `getQuote()`: the highest bid and lowest ask with their sizes, or the
      * empty quote while a side is empty. */
    function GetQuote(): (q: Quote)
      reads this
      ensures |bids| > 0 && |asks| > 0 ==>
                q.bidPrice in bids && q.bidSize == bids[q.bidPrice] && (forall p :: p in bids ==> p <= q.bidPrice)
                && q.askPrice in asks && q.askSize == asks[q.askPrice] && (forall p :: p in asks ==> q.askPrice <= p)
      ensures |bids| == 0 || |asks| == 0 ==> q == EmptyQuote
    {
      if |bids| > 0 && |asks| > 0 then
        var b := Highest(bids.Keys);
        var a := Lowest(asks.Keys);
        Quote(b, bids[b], a, asks[a])
      else EmptyQuote
    }

    /** `getBestBid()`: only defined while there is a bid. */
    function BestBid(): (p: real)
      reads this
      requires |bids| > 0
      ensures p in bids && forall x :: x in bids ==> x <= p
    {
      Highest(bids.Keys)
    }

    /** `getBestAsk()`: only defined while there is an ask. */
    function BestAsk(): (p: real)
      reads this
      requires |asks| > 0
      ensures p in asks && forall x :: x in asks ==> p <= x
    {
      Lowest(asks.Keys)
    }
  }

  /** On a book whose spread is current, the quote's ask minus its bid is the
    * spread, and the quote is invalid exactly when the spread is not positive. */
  lemma QuoteAgreesWithSpread(ob: OrderBook)
    requires ob.Valid() && |ob.bids| > 0 && |ob.asks| > 0
    ensures ob.GetQuote().askPrice - ob.GetQuote().bidPrice == ob.spread
    ensures IsQuoteInvalid(ob.GetQuote()) <==> ob.spread <= 0.0
  {
    var q := ob.GetQuote();
    var hb := Highest(ob.bids.Keys);
    var la := Lowest(ob.asks.Keys);
    assert q.bidPrice <= hb && hb <= q.bidPrice;
    assert q.askPrice <= la && la <= q.askPrice;
  }
}
