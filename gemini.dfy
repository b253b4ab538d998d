/**
 * Gemini reports each trade through the two orders it matched, and
 * `determineSide` turns one such report into the sign of the trade's size:
 * it decides whether the reporting order was the maker (the resting order)
 * or the taker, and combines that with the order's side.
 */
module Gemini {

  const MakerOrCancel: string := "maker-or-cancel"
  const ImmediateOrCancel: string := "immediate-or-cancel"

  /** Whether the reporting order was the maker: a market order against a
    * limit order takes, a limit order against a market order makes; two limit
    * orders are told apart by their execution options, checked in order, and
    * failing those the older order (the smaller id) made the book; any other
    * pair of order types counts as taking. */
  function IsMaker(orderId: int, lastOrderId: int, orderType: string, lastOrderType: string,
                   options: string, lastOptions: string): bool
  {
    if orderType == "market" && lastOrderType == "limit" then false
    else if orderType == "limit" && lastOrderType == "market" then true
    else if orderType == "limit" && lastOrderType == "limit" then
      if options == MakerOrCancel then true
      else if lastOptions == MakerOrCancel then false
      else if options == ImmediateOrCancel then false
      else if lastOptions == ImmediateOrCancel then true
      else orderId < lastOrderId
    else false
  }

  /**
   * `determineSide(...)`: one for a sell taken or a buy made, minus one for a
   * buy taken or a sell made. The remaining sizes are not consulted.
   */
  function DetermineSide(orderId: int, lastOrderId: int, side: string, lastSide: string,
                         orderType: string, lastOrderType: string, options: string, lastOptions: string,
                         remaining: real, lastRemaining: real): (factor: real)
    ensures factor == 1.0 || factor == -1.0
    ensures factor == 1.0 <==> (side == "sell") != IsMaker(orderId, lastOrderId, orderType, lastOrderType, options, lastOptions)
  {
    var sign: real := if side == "sell" then 1.0 else -1.0;
    sign * (if IsMaker(orderId, lastOrderId, orderType, lastOrderType, options, lastOptions) then -1.0 else 1.0)
  }

  /** Two orders whose roles the rules can tell apart: a market and a limit
    * order, or two limit orders of distinct ids that do not both ask for
    * the same execution option. */
  predicate Distinguishable(orderId: int, lastOrderId: int, orderType: string, lastOrderType: string,
                            options: string, lastOptions: string)
  {
    (orderType == "market" && lastOrderType == "limit")
    || (orderType == "limit" && lastOrderType == "market")
    || (orderType == "limit" && lastOrderType == "limit" && orderId != lastOrderId
        && !(options == MakerOrCancel && lastOptions == MakerOrCancel)
        && !(options == ImmediateOrCancel && lastOptions == ImmediateOrCancel))
  }

  /** Seen from the other order of the trade, the roles are exchanged: exactly
    * one of two distinguishable orders is the maker. */
  lemma MakerRolesExchange(orderId: int, lastOrderId: int, orderType: string, lastOrderType: string,
                           options: string, lastOptions: string)
    requires Distinguishable(orderId, lastOrderId, orderType, lastOrderType, options, lastOptions)
    ensures IsMaker(lastOrderId, orderId, lastOrderType, orderType, lastOptions, options)
            == !IsMaker(orderId, lastOrderId, orderType, lastOrderType, options, lastOptions)
  {
  }

  /** Both reports of one trade, a buy against a sell, give the trade the same
    * sign. */
  lemma BothReportsAgree(orderId: int, lastOrderId: int, side: string, lastSide: string,
                         orderType: string, lastOrderType: string, options: string, lastOptions: string,
                         remaining: real, lastRemaining: real)
    requires Distinguishable(orderId, lastOrderId, orderType, lastOrderType, options, lastOptions)
    requires (side == "sell" && lastSide == "buy") || (side == "buy" && lastSide == "sell")
    ensures DetermineSide(lastOrderId, orderId, lastSide, side, lastOrderType, orderType, lastOptions, options,
                          lastRemaining, remaining)
            == DetermineSide(orderId, lastOrderId, side, lastSide, orderType, lastOrderType, options, lastOptions,
                             remaining, lastRemaining)
  {
    MakerRolesExchange(orderId, lastOrderId, orderType, lastOrderType, options, lastOptions);
  }

  /** A maker-or-cancel limit order always makes and an immediate-or-cancel
    * one (against a limit order without maker-or-cancel) always takes,
    * whatever the ids. */
  lemma ExecutionOptionsDecide(orderId: int, lastOrderId: int, options: string, lastOptions: string)
    ensures options == MakerOrCancel ==> IsMaker(orderId, lastOrderId, "limit", "limit", options, lastOptions)
    ensures options == ImmediateOrCancel && lastOptions != MakerOrCancel
            ==> !IsMaker(orderId, lastOrderId, "limit", "limit", options, lastOptions)
    ensures options != MakerOrCancel && options != ImmediateOrCancel
            && lastOptions != MakerOrCancel && lastOptions != ImmediateOrCancel
            ==> (IsMaker(orderId, lastOrderId, "limit", "limit", options, lastOptions) <==> orderId < lastOrderId)
  {
  }
}
