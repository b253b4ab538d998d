/**
 * An order placed on an exchange: its type (limit, market or stop), its
 * direction, the price that triggers it and the amount still to execute. The
 * trigger type says whether the order waits for the price to fall to the
 * trigger (MIN), to rise to it (MAX), or executes at the current price.
 */
module Orders {

  import opened Wrappers
  import CurrencyPair
  import Accounts

  datatype OrderType = Limit | Market | Stop
  datatype Direction = Buy | Sell
  datatype TriggerType = Min | Max | Current

  /** Below this, a held amount counts as nothing and two amounts as equal. */
  const Epsilon: real := 0.000001

  /** The trigger type the constructor derives from direction and order type. */
  function TriggerTypeOf(d: Direction, t: OrderType): TriggerType
  {
    if (d == Buy && t == Limit) || (d == Sell && t == Stop) then Min
    else if (d == Sell && t == Limit) || (d == Buy && t == Stop) then Max
    else Current
  }

  function Opposite(d: Direction): Direction { if d == Buy then Sell else Buy }

  function Mirror(t: TriggerType): TriggerType
  {
    match t
    case Min => Max
    case Max => Min
    case Current => Current
  }

  /**
   * The classification is total and symmetric: only market orders execute at
   * the current price; reversing the direction, or exchanging a limit order
   * for a stop order, exchanges MIN and MAX.
   */
  lemma TriggerTypeSymmetry(d: Direction, t: OrderType)
    ensures TriggerTypeOf(d, t) == Current <==> t == Market
    ensures TriggerTypeOf(Opposite(d), t) == Mirror(TriggerTypeOf(d, t))
    ensures t != Market ==> TriggerTypeOf(d, Limit) == Mirror(TriggerTypeOf(d, Stop))
    ensures TriggerTypeOf(Buy, Limit) == Min && TriggerTypeOf(Sell, Limit) == Max
  {
  }

  /** The amount `adjustAmount(hold)` leaves: the held amount when it is the
    * smaller, the order's own amount otherwise. */
  function Adjusted(amount: real, hold: real): (a: real)
    ensures a <= amount && a <= hold
    ensures a == amount || a == hold
  {
    if hold < amount then hold else amount
  }

  /** An order. `cancelledAmount` is what a cancellation took back; a
    * discarded order was dropped before it executed completely. */
  class Order {
    const idx: int
    const triggerPrice: real
    const triggerType: TriggerType
    const orderType: OrderType
    const direction: Direction
    const exchangeId: int
    const pair: CurrencyPair.Pair
    var amount: real
    const orderTime: int
    const priceAtOrderTime: real
    var discarded: bool
    var cancelledAmount: real
    var orderId: string

    /** The trigger type matches the direction and order type, a MIN trigger
      * lies below the price at order time and a MAX trigger above it. */
    predicate Classified()
    {
      triggerType == TriggerTypeOf(direction, orderType)
      && (triggerType == Min ==> triggerPrice < priceAtOrderTime)
      && (triggerType == Max ==> triggerPrice > priceAtOrderTime)
    }

    /** A classified order whose amounts are not negative. */
    predicate Valid()
      reads this
    {
      Classified() && amount >= 0.0 && cancelledAmount >= 0.0
    }

    /**
     * `Order(idx, trigger, type, direction, exchange, pair, amount, time,
     * price)`: asserts a positive amount and price, and a positive trigger
     * price unless the order is a market order; then classifies the trigger
     * and asserts it lies on the side of the price its type waits for.
     */
    constructor (idx: int, triggerPrice: real, orderType: OrderType, direction: Direction, exchangeId: int,
                 pair: CurrencyPair.Pair, amount: real, orderTime: int, priceAtOrderTime: real)
      requires amount > 0.0 && priceAtOrderTime > 0.0 && (triggerPrice > 0.0 || orderType == Market)
      requires TriggerTypeOf(direction, orderType) == Min ==> triggerPrice < priceAtOrderTime
      requires TriggerTypeOf(direction, orderType) == Max ==> triggerPrice > priceAtOrderTime
      ensures Valid() && Classified()
      ensures this.idx == idx && this.triggerPrice == triggerPrice && this.orderType == orderType
      ensures this.direction == direction && this.exchangeId == exchangeId && this.pair == pair
      ensures this.amount == amount && this.orderTime == orderTime && this.priceAtOrderTime == priceAtOrderTime
      ensures triggerType == TriggerTypeOf(direction, orderType)
      ensures !discarded && cancelledAmount == 0.0 && orderId == ""
    {
      this.idx := idx;
      this.triggerPrice := triggerPrice;
      this.orderType := orderType;
      this.direction := direction;
      this.exchangeId := exchangeId;
      this.pair := pair;
      this.amount := amount;
      this.orderTime := orderTime;
      this.priceAtOrderTime := priceAtOrderTime;
      triggerType := TriggerTypeOf(direction, orderType);
      discarded := false;
      cancelledAmount := 0.0;
      orderId := "";
    }

    /** The currency the order holds: the quote currency for a buy, the base
      * currency for a sell. */
    function HeldCurrency(): int
      reads this
    {
      if direction == Buy then pair.quote else pair.base
    }

    /** `adjustAmount(hold)`: a held amount below the order's amount (by less
      * than `Epsilon`, as asserted) becomes the order's amount. */
    method AdjustAmount(hold: real)
      requires hold < amount ==> amount - hold < Epsilon
      modifies this`amount
      ensures amount == Adjusted(old(amount), hold)
      ensures old(Valid()) && hold >= 0.0 ==> Valid()
    {
      if hold < amount {
        amount := hold;
      }
    }

    /**
     * `cancelLimitOrder(wallet)`: on a limit order, adjust the amount to the
     * hold of the account of the held currency; with a hold below `Epsilon`
     * stop there. Otherwise a virtual wallet moves the amount from hold back
     * to available, and the whole amount counts as cancelled.
     */
    method CancelLimitOrder(wallet: Accounts.ExchangeAccounts)
      requires Valid() && wallet.Valid() && orderType == Limit
      requires HeldCurrency() in wallet.accounts
      requires wallet.accounts[HeldCurrency()].hold < amount ==> amount - wallet.accounts[HeldCurrency()].hold < Epsilon
      modifies this`amount, this`cancelledAmount, wallet`accounts
      ensures Valid() && wallet.Valid()
      ensures old(wallet.accounts[HeldCurrency()].hold) < Epsilon ==>
                amount == Adjusted(old(amount), old(wallet.accounts[HeldCurrency()].hold))
                && cancelledAmount == old(cancelledAmount) && wallet.accounts == old(wallet.accounts)
      ensures old(wallet.accounts[HeldCurrency()].hold) >= Epsilon ==>
                cancelledAmount == Adjusted(old(amount), old(wallet.accounts[HeldCurrency()].hold)) && amount == 0.0
      ensures old(wallet.accounts[HeldCurrency()].hold) >= Epsilon && wallet.isVirtual ==>
                wallet.accounts == old(wallet.accounts)[HeldCurrency() := old(wallet.accounts[HeldCurrency()])
                  .SetAvailable(old(wallet.accounts[HeldCurrency()].available) + cancelledAmount)
                  .SetHold(old(wallet.accounts[HeldCurrency()].hold) - cancelledAmount)]
      ensures !wallet.isVirtual ==> wallet.accounts == old(wallet.accounts)
      ensures HeldCurrency() in wallet.accounts
              && wallet.accounts[HeldCurrency()].Balance() == old(wallet.accounts[HeldCurrency()].Balance())
    {
      var c := HeldCurrency();
      var acc := wallet.accounts[c];
      AdjustAmount(acc.hold);
      if acc.hold < Epsilon {
        return;
      }
      if wallet.isVirtual {
        Accounts.ReleaseKeepsBalance(acc, amount);
        var updated := acc.SetAvailable(acc.available + amount).SetHold(acc.hold - amount);
        wallet.ModifyAccount(updated);
      }
      cancelledAmount := amount;
      amount := 0.0;
    }

    /** `discard()`: nothing when the order has executed completely; otherwise
      * marks it discarded, which it must not be already. */
    method Discard()
      requires amount != 0.0 ==> !discarded
      modifies this`discarded
      ensures amount == 0.0 ==> discarded == old(discarded)
      ensures amount != 0.0 ==> discarded
    {
      if amount == 0.0 {
        return;
      }
      discarded := true;
    }
  }
}
