/**
 * The controller drives a run: it keeps the controller time, steps it one
 * minimum algorithm interval at a time as ticks arrive (each step is an
 * interval event for the trade algorithm), aligns the start of the run to
 * that interval, keeps the latest price per exchange and currency, and at
 * start-up replays the order log of the previous run to find the orders
 * still pending.
 */
module Controllers {

  import opened Wrappers
  import EnumTables
  import TimeUtils

  /** `exchange_mode_t`. */
  datatype Mode = Simulation | Real | Both

  /** An exchange's clocks: its simulation time and its controller time. */
  datatype ExchangeClock = ExchangeClock(simulationTime: int, controllerTime: int)

  /** `getControllerTime(exchange)`: the simulation time unless the mode is
    * real. */
  function ExchangeTime(mode: Mode, e: ExchangeClock): int
  {
    if mode != Real then e.simulationTime else e.controllerTime
  }

  /** The controller time raised to each exchange's time in turn. */
  function Raised(ctrl: int, mode: Mode, clocks: seq<ExchangeClock>): int
    decreases |clocks|
  {
    if clocks == [] then ctrl
    else
      var prev := Raised(ctrl, mode, clocks[..|clocks| - 1]);
      var t := ExchangeTime(mode, clocks[|clocks| - 1]);
      if prev < t then t else prev
  }

  /** The raised time is the greatest of the controller time and the
    * exchanges' times. */
  lemma {:induction false} RaisedIsMax(ctrl: int, mode: Mode, clocks: seq<ExchangeClock>)
    ensures Raised(ctrl, mode, clocks) >= ctrl
    ensures forall i :: 0 <= i < |clocks| ==> ExchangeTime(mode, clocks[i]) <= Raised(ctrl, mode, clocks)
    ensures Raised(ctrl, mode, clocks) == ctrl
            || exists i :: 0 <= i < |clocks| && Raised(ctrl, mode, clocks) == ExchangeTime(mode, clocks[i])
    decreases |clocks|
  {
    if clocks != [] {
      var n := |clocks| - 1;
      RaisedIsMax(ctrl, mode, clocks[..n]);
      assert forall i :: 0 <= i < n ==> clocks[..n][i] == clocks[i];
      if Raised(ctrl, mode, clocks) != ctrl && Raised(ctrl, mode, clocks) != ExchangeTime(mode, clocks[n]) {
        var i :| 0 <= i < n && Raised(ctrl, mode, clocks[..n]) == ExchangeTime(mode, clocks[..n][i]);
        assert Raised(ctrl, mode, clocks) == ExchangeTime(mode, clocks[i]);
      }
    }
  }

  /** The controller's times (in microseconds) and latest prices. */
  class Controller {
    const mode: Mode
    var controllerTime: int
    var startTime: int
    var endTime: int
    var history: int
    var prices: map<int, map<int, real>>

    /** `Controller(json)` from the configured mode, times and exchanges: an
      * empty price table per exchange (at least one is asserted), the start
      * time adjusted to the minimum interval and the controller time set to
      * it. */
    constructor (mode: Mode, start: int, end: int, history: int, interval: int, exchanges: set<int>)
      requires interval > 0 && exchanges != {}
      ensures this.mode == mode && controllerTime == startTime
      ensures TimeUtils.TimeMod(startTime, interval) == 0
      ensures startTime - start == endTime - end == this.history - history >= 0
      ensures TimeUtils.TimeMod(start, interval) == 0 ==> startTime == start
      ensures start >= 0 ==> startTime - start < interval
      ensures prices.Keys == exchanges && forall e :: e in prices ==> prices[e] == map[]
    {
      this.mode := mode;
      startTime := start;
      endTime := end;
      this.history := history;
      controllerTime := start;
      prices := map e | e in exchanges :: map[];
      new;
      AdjustStartTime(interval);
      controllerTime := startTime;
    }

    /** `getControllerTime()`: raises the controller time to every exchange's
      * time and returns it. */
    method GetControllerTime(clocks: seq<ExchangeClock>) returns (t: int)
      modifies this`controllerTime
      ensures controllerTime == Raised(old(controllerTime), mode, clocks) && t == controllerTime
    {
      var i := 0;
      while i < |clocks|
        invariant i <= |clocks|
        invariant controllerTime == Raised(old(controllerTime), mode, clocks[..i])
      {
        assert clocks[..i + 1][..i] == clocks[..i];
        var exchangeTime := ExchangeTime(mode, clocks[i]);
        if controllerTime < exchangeTime {
          controllerTime := exchangeTime;
        }
        i := i + 1;
      }
      assert clocks[..i] == clocks;
      t := controllerTime;
    }

    /**
     * `adjustTimeAndCheckForIntervalEvents(tick)`: with the tick time and the
     * (raised) controller time each reduced by their remainder modulo the
     * minimum interval, step the controller time to the next multiple of the
     * interval and then by whole intervals while the reduced tick time is a
     * whole interval ahead; each step is an interval event at the new
     * controller time, returned in order.
     */
    method AdjustTimeAndCheckForIntervalEvents(tick: int, interval: int, clocks: seq<ExchangeClock>)
      returns (events: seq<int>)
      requires interval > 0
      modifies this`controllerTime
      ensures controllerTime >= Raised(old(controllerTime), mode, clocks) >= old(controllerTime)
      ensures TimeUtils.Quantized(tick, interval) < controllerTime + interval
      ensures events == [] <==> controllerTime == Raised(old(controllerTime), mode, clocks)
      ensures events != [] ==> controllerTime == events[|events| - 1]
      ensures forall k :: 0 <= k < |events| ==> events[k] <= TimeUtils.Quantized(tick, interval)
      ensures forall k :: 0 < k < |events| ==> events[k] == events[k - 1] + interval
      ensures Raised(old(controllerTime), mode, clocks) >= 0 && events != [] ==>
                events[0] == TimeUtils.Quantized(Raised(old(controllerTime), mode, clocks), interval) + interval
    {
      var tq := tick - TimeUtils.TimeMod(tick, interval);
      TimeUtils.QuantizedProperties(tick, interval);
      var now := GetControllerTime(clocks);
      RaisedIsMax(old(controllerTime), mode, clocks);
      var ctrlAdjustment := TimeUtils.TimeMod(now, interval);
      TimeUtils.QuantizedProperties(now, interval);
      ghost var base := TimeUtils.Quantized(now, interval);
      events := [];
      if tq >= controllerTime - ctrlAdjustment + interval {
        controllerTime := controllerTime + (interval - ctrlAdjustment);
        events := events + [controllerTime];
      }
      while tq >= controllerTime + interval
        invariant controllerTime >= now
        invariant events == [] <==> controllerTime == now
        invariant events != [] ==> controllerTime == events[|events| - 1] && controllerTime <= tq
        invariant forall k :: 0 <= k < |events| ==> events[k] <= controllerTime
        invariant forall k :: 0 < k < |events| ==> events[k] == events[k - 1] + interval
        invariant now >= 0 && events != [] ==> events[0] == base + interval
        decreases tq - controllerTime
      {
        controllerTime := controllerTime + interval;
        events := events + [controllerTime];
      }
    }

    /**
     * `adjustStartTime()`: a start time off the minimum interval is moved
     * forward to a multiple of it, and the end time and the history length
     * move by the same amount. The wait for the new start is left out.
     */
    method AdjustStartTime(interval: int)
      requires interval > 0
      modifies this`startTime, this`endTime, this`history
      ensures TimeUtils.TimeMod(startTime, interval) == 0
      ensures startTime - old(startTime) == endTime - old(endTime) == history - old(history) >= 0
      ensures TimeUtils.TimeMod(old(startTime), interval) == 0 ==> startTime == old(startTime)
      ensures old(startTime) >= 0 ==> startTime - old(startTime) < interval
    {
      var adjustment := TimeUtils.TimeMod(startTime, interval);
      TimeUtils.QuantizedProperties(startTime, interval);
      if adjustment == 0 {
        return;
      }
      ghost var c := CDiv(startTime, interval);
      adjustment := interval - adjustment;
      history := history + adjustment;
      startTime := startTime + adjustment;
      endTime := endTime + adjustment;
      assert startTime == (c + 1) * interval;
      MultipleHasNoRemainder(c + 1, interval);
    }

    /** `getCurrentPrice(exchange, currency)`: the latest price, or -1 when
      * the exchange or the currency has none. */
    function GetCurrentPrice(exchange: int, currency: int): (p: real)
      reads this
      ensures exchange !in prices || currency !in prices[exchange] ==> p == -1.0
      ensures exchange in prices && currency in prices[exchange] ==> p == prices[exchange][currency]
    {
      if exchange !in prices then -1.0
      else if currency !in prices[exchange] then -1.0
      else prices[exchange][currency]
    }

    /** `checkIfCurrentRunEnded()`: every exchange's time has reached the end
      * time. */
    method CheckIfCurrentRunEnded(clocks: seq<ExchangeClock>) returns (ended: bool)
      ensures ended <==> forall i :: 0 <= i < |clocks| ==> ExchangeTime(mode, clocks[i]) >= endTime
    {
      var i := 0;
      while i < |clocks|
        invariant i <= |clocks|
        invariant forall j :: 0 <= j < i ==> ExchangeTime(mode, clocks[j]) >= endTime
      {
        if mode != Real {
          if clocks[i].simulationTime < endTime {
            return false;
          }
        } else {
          if clocks[i].controllerTime < endTime {
            return false;
          }
        }
        i := i + 1;
      }
      return true;
    }
  }

  /** A whole number of intervals leaves no remainder. */
  lemma MultipleHasNoRemainder(c: int, interval: int)
    requires interval > 0
    ensures TimeUtils.TimeMod(c * interval, interval) == 0
  {
    if c >= 0 {
      MulMonotone(c, 0, interval);
      DivUnique(c * interval, interval, c, 0);
    } else {
      assert -(c * interval) == (-c) * interval;
      MulMonotone(-c, 0, interval);
      DivUnique((-c) * interval, interval, -c, 0);
    }
  }

  /** Interval events that start at the multiple of the interval after a time
    * and follow each other by one interval all fall on multiples of it. */
  lemma {:induction false} IntervalEventsAligned(r: int, events: seq<int>, interval: int, k: nat)
    requires interval > 0 && k < |events|
    requires events[0] == TimeUtils.Quantized(r, interval) + interval
    requires forall j :: 0 < j < |events| ==> events[j] == events[j - 1] + interval
    ensures TimeUtils.TimeMod(events[k], interval) == 0
    decreases k
  {
    if k == 0 {
      MultipleHasNoRemainder(CDiv(r, interval), interval);
      NextMultiple(TimeUtils.Quantized(r, interval), interval);
    } else {
      IntervalEventsAligned(r, events, interval, k - 1);
      NextMultiple(events[k - 1], interval);
    }
  }

  /** One interval after a multiple of the interval is another. */
  lemma NextMultiple(x: int, interval: int)
    requires interval > 0 && TimeUtils.TimeMod(x, interval) == 0
    ensures TimeUtils.TimeMod(x + interval, interval) == 0
  {
    var c := CDiv(x, interval);
    assert x == c * interval;
    assert x + interval == (c + 1) * interval;
    MultipleHasNoRemainder(c + 1, interval);
  }

  /** With prices never negative, -1 tells an absent price apart. */
  lemma AbsentPriceIsNegative(c: Controller, exchange: int, currency: int)
    requires forall e, k :: e in c.prices && k in c.prices[e] ==> c.prices[e][k] >= 0.0
    ensures c.GetCurrentPrice(exchange, currency) < 0.0 <==> exchange !in c.prices || currency !in c.prices[exchange]
  {
  }

  /** How replaying the order log fails: each is an assertion of the source,
    * with the line it fails on. */
  datatype ReplayError = WrongFieldCount(line: nat) | AlreadyPlaced(line: nat) | NotPending(line: nat)
                       | UnknownStatus(line: nat)

  /** The pending order ids per exchange. */
  type Pending = map<int, set<string>>

  /** One line of the order log, its CSV fields "time, exchange, order id,
    * status", applied to the pending orders. */
  function ReplayLine(table: seq<string>, pending: Pending, fields: seq<string>, line: nat): Result<Pending, ReplayError>
  {
    if |fields| != 4 then Err(WrongFieldCount(line))
    else
      var e := EnumTables.Lookup(table, EnumTables.ExchangeOffset, fields[1]);
      var id := fields[2];
      if fields[3] == "placed" then
        if e !in pending then Ok(pending[e := {id}])
        else if id in pending[e] then Err(AlreadyPlaced(line))
        else Ok(pending[e := pending[e] + {id}])
      else if fields[3] == "cancelled" then
        var orders := if e in pending then pending[e] else {};
        if id !in orders then Err(NotPending(line))
        else Ok(pending[e := orders - {id}])
      else Err(UnknownStatus(line))
  }

  /** The lines from `i` on applied in order, stopping at the first error. */
  function ReplayFrom(table: seq<string>, pending: Pending, lines: seq<seq<string>>, i: nat): Result<Pending, ReplayError>
    requires i <= |lines|
    decreases |lines| - i
  {
    if i == |lines| then Ok(pending)
    else
      match ReplayLine(table, pending, lines[i], i)
      case Err(e) => Err(e)
      case Ok(next) => ReplayFrom(table, next, lines, i + 1)
  }

  /** The line is about order `id` on exchange `e`. */
  predicate Names(table: seq<string>, fields: seq<string>, e: int, id: string)
  {
    |fields| == 4 && EnumTables.Lookup(table, EnumTables.ExchangeOffset, fields[1]) == e && fields[2] == id
  }

  /** Order `id` is pending on exchange `e`. */
  predicate IsPending(pending: Pending, e: int, id: string)
  {
    e in pending && id in pending[e]
  }

  /** No line from `i` on is about the order. */
  predicate Untouched(table: seq<string>, lines: seq<seq<string>>, i: nat, e: int, id: string)
  {
    forall k :: i <= k < |lines| ==> !Names(table, lines[k], e, id)
  }

  /** The last line from `i` on about the order places it. */
  predicate PlacedLast(table: seq<string>, lines: seq<seq<string>>, i: nat, e: int, id: string)
  {
    exists j :: i <= j < |lines| && Names(table, lines[j], e, id) && lines[j][3] == "placed"
                && Untouched(table, lines, j + 1, e, id)
  }

  /** A replay that succeeds leaves an order pending iff it was pending and no
    * line is about it, or the last line about it places it: the placed
    * orders minus the cancelled ones. */
  lemma {:induction false} ReplayPending(table: seq<string>, pending: Pending, lines: seq<seq<string>>, i: nat,
                                         e: int, id: string)
    requires i <= |lines| && ReplayFrom(table, pending, lines, i).Ok?
    ensures IsPending(ReplayFrom(table, pending, lines, i).value, e, id)
            <==> (IsPending(pending, e, id) && Untouched(table, lines, i, e, id)) || PlacedLast(table, lines, i, e, id)
    decreases |lines| - i
  {
    if i < |lines| {
      var next := ReplayLine(table, pending, lines[i], i).value;
      ReplayPending(table, next, lines, i + 1, e, id);
      ReplayLineEffect(table, pending, lines[i], i, e, id);
      if Names(table, lines[i], e, id) {
        assert !Untouched(table, lines, i, e, id);
        if PlacedLast(table, lines, i + 1, e, id) {
          var j :| i + 1 <= j < |lines| && Names(table, lines[j], e, id) && lines[j][3] == "placed"
                   && Untouched(table, lines, j + 1, e, id);
          assert PlacedLast(table, lines, i, e, id);
        }
        if PlacedLast(table, lines, i, e, id) {
          var j :| i <= j < |lines| && Names(table, lines[j], e, id) && lines[j][3] == "placed"
                   && Untouched(table, lines, j + 1, e, id);
          if j > i {
            assert PlacedLast(table, lines, i + 1, e, id);
          }
        }
      } else {
        assert Untouched(table, lines, i, e, id) == Untouched(table, lines, i + 1, e, id);
        if PlacedLast(table, lines, i, e, id) {
          var j :| i <= j < |lines| && Names(table, lines[j], e, id) && lines[j][3] == "placed"
                   && Untouched(table, lines, j + 1, e, id);
          assert PlacedLast(table, lines, i + 1, e, id);
        }
        if PlacedLast(table, lines, i + 1, e, id) {
          var j :| i + 1 <= j < |lines| && Names(table, lines[j], e, id) && lines[j][3] == "placed"
                   && Untouched(table, lines, j + 1, e, id);
          assert PlacedLast(table, lines, i, e, id);
        }
      }
    }
  }

  /** A line that applies leaves an order pending iff it places it, when the
    * line is about the order, and changes nothing for other orders. */
  lemma ReplayLineEffect(table: seq<string>, pending: Pending, fields: seq<string>, line: nat, e: int, id: string)
    requires ReplayLine(table, pending, fields, line).Ok?
    ensures Names(table, fields, e, id) ==> (IsPending(ReplayLine(table, pending, fields, line).value, e, id) <==> fields[3] == "placed")
    ensures !Names(table, fields, e, id) ==> IsPending(ReplayLine(table, pending, fields, line).value, e, id) == IsPending(pending, e, id)
  {
  }

  /**
   * The replay of `cancelPendingOrdersFromPreviousRun()`: without an order
   * log nothing is pending; otherwise each line, split into its CSV fields,
   * places or cancels an order id on its exchange. Cancelling the pending
   * orders afterwards is left to the exchanges.
   */
  method ReplayOrderLog(table: seq<string>, log: Option<seq<seq<string>>>) returns (r: Result<Pending, ReplayError>)
    ensures log.None? ==> r == Ok(map[])
    ensures log.Some? ==> r == ReplayFrom(table, map[], log.value, 0)
  {
    if log.None? {
      return Ok(map[]);
    }
    var lines := log.value;
    var pending: Pending := map[];
    var i := 0;
    while i < |lines|
      invariant i <= |lines|
      invariant ReplayFrom(table, pending, lines, i) == ReplayFrom(table, map[], lines, 0)
      decreases |lines| - i
    {
      var data := lines[i];
      if |data| != 4 {
        return Err(WrongFieldCount(i));
      }
      var exchange := EnumTables.Lookup(table, EnumTables.ExchangeOffset, data[1]);
      var id := data[2];
      if data[3] == "placed" {
        if exchange !in pending {
          pending := pending[exchange := {id}];
        } else {
          if id in pending[exchange] {
            return Err(AlreadyPlaced(i));
          }
          pending := pending[exchange := pending[exchange] + {id}];
        }
      } else if data[3] == "cancelled" {
        var orders := if exchange in pending then pending[exchange] else {};
        if id !in orders {
          return Err(NotPending(i));
        }
        pending := pending[exchange := orders - {id}];
      } else {
        return Err(UnknownStatus(i));
      }
      i := i + 1;
    }
    return Ok(pending);
  }
}
