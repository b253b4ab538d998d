/**
 * The exchange-independent part of an exchange: the currency pairs it trades
 * and its pending orders, of which `cancelLimitOrders` cancels the limit
 * orders of one pair and one direction.
 */
module Exchanges {

  import CurrencyPair
  import Orders

  /** A pending order under its exchange order id. */
  type Entry = (string, Orders.Order)

  /** An order `cancelLimitOrders(pair, buy)` cancels: a limit order of the
    * pair, buying when `buy` is set and selling otherwise. */
  predicate Selected(o: Orders.Order, pair: CurrencyPair.Pair, buy: bool)
  {
    o.orderType == Orders.Limit && o.pair == pair && o.direction == (if buy then Orders.Buy else Orders.Sell)
  }

  /** The selected orders whose cancellation succeeds, in the order of `entries`. */
  function Cancelled(entries: seq<Entry>, pair: CurrencyPair.Pair, buy: bool, succeeds: set<string>): seq<Orders.Order>
    decreases |entries|
  {
    if entries == [] then []
    else
      var n := |entries| - 1;
      Cancelled(entries[..n], pair, buy, succeeds)
      + (if Selected(entries[n].1, pair, buy) && entries[n].0 in succeeds then [entries[n].1] else [])
  }

  /** The cancelled orders are exactly the selected orders of the entries
    * whose ids are accepted. */
  lemma {:induction false} CancelledMembers(entries: seq<Entry>, pair: CurrencyPair.Pair, buy: bool, succeeds: set<string>, o: Orders.Order)
    ensures o in Cancelled(entries, pair, buy, succeeds)
            <==> exists i :: 0 <= i < |entries| && entries[i].1 == o && Selected(o, pair, buy) && entries[i].0 in succeeds
    decreases |entries|
  {
    if entries != [] {
      var n := |entries| - 1;
      CancelledMembers(entries[..n], pair, buy, succeeds, o);
      if exists i :: 0 <= i < n && entries[..n][i].1 == o && Selected(o, pair, buy) && entries[..n][i].0 in succeeds {
        var i :| 0 <= i < n && entries[..n][i].1 == o && Selected(o, pair, buy) && entries[..n][i].0 in succeeds;
        assert entries[i] == entries[..n][i];
      }
      if exists i :: 0 <= i < |entries| && entries[i].1 == o && Selected(o, pair, buy) && entries[i].0 in succeeds {
        var i :| 0 <= i < |entries| && entries[i].1 == o && Selected(o, pair, buy) && entries[i].0 in succeeds;
        if i < n {
          assert entries[i] == entries[..n][i];
        }
      }
    }
  }

  /** Every selected order of `entries` is cancelled successfully. */
  predicate AllSucceed(entries: seq<Entry>, pair: CurrencyPair.Pair, buy: bool, succeeds: set<string>)
  {
    forall i :: 0 <= i < |entries| && Selected(entries[i].1, pair, buy) ==> entries[i].0 in succeeds
  }

  class Exchange {
    var tradingPairs: seq<CurrencyPair.Pair>
    var pending: seq<Entry>
    var cancelledOrders: seq<Orders.Order>

    /** Every pending order is classified as its constructor requires. */
    predicate Valid()
      reads this
    {
      forall i :: 0 <= i < |pending| ==> pending[i].1.Classified()
    }

    /** `checkIfIncludedInTradingPairs(currency)`: whether some traded pair has
      * the currency as base or as quote. */
    method CheckIfIncludedInTradingPairs(c: int) returns (b: bool)
      ensures b <==> exists i :: 0 <= i < |tradingPairs| && (tradingPairs[i].base == c || tradingPairs[i].quote == c)
    {
      var i := 0;
      while i < |tradingPairs|
        invariant i <= |tradingPairs|
        invariant forall j :: 0 <= j < i ==> tradingPairs[j].base != c && tradingPairs[j].quote != c
      {
        if tradingPairs[i].base == c || tradingPairs[i].quote == c {
          return true;
        }
        i := i + 1;
      }
      return false;
    }

    /**
     * `cancelLimitOrders(pair, buy)`: over a copy of the pending orders, ask
     * the exchange to cancel each limit order of the pair in the requested
     * direction (a buy order's trigger is asserted to be MIN, a sell order's
     * MAX), record each order cancelled successfully, and report whether
     * every cancellation succeeded. Which cancellations the exchange accepts
     * is the parameter `succeeds`, a set of order ids.
     */
    method CancelLimitOrders(pair: CurrencyPair.Pair, buy: bool, succeeds: set<string>) returns (ok: bool)
      requires Valid()
      modifies this`cancelledOrders
      ensures cancelledOrders == old(cancelledOrders) + Cancelled(pending, pair, buy, succeeds)
      ensures ok <==> AllSucceed(pending, pair, buy, succeeds)
      ensures forall i :: |old(cancelledOrders)| <= i < |cancelledOrders| ==>
                cancelledOrders[i].triggerType == (if buy then Orders.Min else Orders.Max)
    {
      var orders := pending;
      ok := true;
      var i := 0;
      while i < |orders|
        invariant i <= |orders|
        invariant cancelledOrders == old(cancelledOrders) + Cancelled(orders[..i], pair, buy, succeeds)
        invariant ok <==> AllSucceed(orders[..i], pair, buy, succeeds)
      {
        var id, o := orders[i].0, orders[i].1;
        CancelStep(orders, i, pair, buy, succeeds);
        if o.orderType == Orders.Limit && o.pair == pair {
          var cancel := false;
          if buy && o.direction == Orders.Buy {
            assert o.triggerType == Orders.Min;
            cancel := true;
          } else if !buy && o.direction == Orders.Sell {
            assert o.triggerType == Orders.Max;
            cancel := true;
          }
          if cancel {
            var success := id in succeeds;
            ok := ok && success;
            if success {
              cancelledOrders := cancelledOrders + [o];
            }
          }
        }
        i := i + 1;
      }
      assert orders[..i] == orders;
      CancelledTriggers(orders, pair, buy, succeeds);
    }
  }

  /** One entry of the loop of `cancelLimitOrders`: it adds its order to the
    * cancelled ones when selected and accepted, and fails the result when
    * selected and refused. */
  lemma CancelStep(entries: seq<Entry>, i: nat, pair: CurrencyPair.Pair, buy: bool, succeeds: set<string>)
    requires i < |entries|
    ensures Cancelled(entries[..i + 1], pair, buy, succeeds)
            == Cancelled(entries[..i], pair, buy, succeeds)
               + (if Selected(entries[i].1, pair, buy) && entries[i].0 in succeeds then [entries[i].1] else [])
    ensures AllSucceed(entries[..i + 1], pair, buy, succeeds)
            <==> AllSucceed(entries[..i], pair, buy, succeeds)
                 && (Selected(entries[i].1, pair, buy) ==> entries[i].0 in succeeds)
  {
    assert entries[..i + 1][..i] == entries[..i];
    assert entries[..i + 1][i] == entries[i];
  }

  /** The orders cancelled out of classified entries have the trigger type of
    * their direction: MIN for buying, MAX for selling. */
  lemma CancelledTriggers(entries: seq<Entry>, pair: CurrencyPair.Pair, buy: bool, succeeds: set<string>)
    requires forall i :: 0 <= i < |entries| ==> entries[i].1.Classified()
    ensures forall o :: o in Cancelled(entries, pair, buy, succeeds) ==> o.triggerType == (if buy then Orders.Min else Orders.Max)
  {
    forall o | o in Cancelled(entries, pair, buy, succeeds)
      ensures o.triggerType == (if buy then Orders.Min else Orders.Max)
    {
      CancelledMembers(entries, pair, buy, succeeds, o);
      var i :| 0 <= i < |entries| && entries[i].1 == o && Selected(o, pair, buy) && entries[i].0 in succeeds;
      assert o.Classified();
    }
  }
}
