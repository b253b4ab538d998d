/**
 * The event triggers a trade algorithm waits on: an interval trigger fires
 * once per elapsed interval, a tick trigger when some trading pair received
 * new ticks, a candle trigger when some pair completed new candlesticks. The
 * trade histories they look at are given as their counts per trading pair.
 */
module Triggers {

  /** `trading_pair_t`: an exchange and a currency pair. */
  datatype TradingPair = TradingPair(exchange: int, base: int, quote: int)

  /** An interval trigger: fires when the current time reaches the previous
    * event time plus the interval. Times and durations are in microseconds. */
  class IntervalTrigger {
    const interval: int
    var prevTime: int
    /** The time `init` recorded, and the events fired since. */
    ghost var start: int
    ghost var events: nat

    /** The previous event time is the start time plus one interval per
      * event fired. */
    ghost predicate Valid()
      reads this
    {
      prevTime == start + events * interval
    }

    constructor (interval: int, now: int)
      ensures this.interval == interval && prevTime == now && start == now && events == 0 && Valid()
    {
      this.interval := interval;
      prevTime := now;
      start := now;
      events := 0;
    }

    /** `init(foos, time, histories)`: the previous event time is now. */
    method Init(now: int)
      modifies this
      ensures prevTime == now && start == now && events == 0 && Valid()
    {
      prevTime := now;
      start := now;
      events := 0;
    }

    /** `checkForEvent(time, histories)`: before a whole interval has passed,
      * nothing; otherwise the previous event time advances by one interval. */
    method CheckForEvent(now: int) returns (fired: bool)
      requires Valid()
      modifies this`prevTime, this`events
      ensures fired <==> now >= old(prevTime) + interval
      ensures prevTime == if fired then old(prevTime) + interval else old(prevTime)
      ensures events == if fired then old(events) + 1 else old(events)
      ensures fired ==> prevTime <= now
      ensures interval >= 0 ==> prevTime >= old(prevTime)
      ensures Valid()
    {
      if now < prevTime + interval {
        return false;
      }
      prevTime := prevTime + interval;
      events := events + 1;
      return true;
    }
  }

  /** Checking `k` times at the same instant: how many of the checks fire. */
  function Fires(prev: int, interval: int, now: int, k: nat): nat
    requires interval > 0
    decreases k
  {
    if k == 0 || now < prev + interval then 0 else 1 + Fires(prev + interval, interval, now, k - 1)
  }

  /** Enough checks at one instant catch up: with `n` whole intervals between
    * the previous event time and the instant, more than `n` checks fire
    * exactly `n` times, after which the previous event time lies within one
    * interval of the instant. */
  lemma {:induction false} CatchUp(prev: int, interval: int, now: int, k: nat, n: nat)
    requires interval > 0 && prev + n * interval <= now < prev + n * interval + interval && k > n
    ensures Fires(prev, interval, now, k) == n
    decreases n
  {
    if n > 0 {
      assert prev + interval + (n - 1) * interval == prev + n * interval;
      CatchUp(prev + interval, interval, now, k - 1, n - 1);
    }
  }

  /** The tick counts recorded after storing each history's count in order. */
  function StoreCounts(m: map<TradingPair, nat>, hs: seq<(TradingPair, nat)>): map<TradingPair, nat>
    decreases |hs|
  {
    if hs == [] then m
    else StoreCounts(m, hs[..|hs| - 1])[hs[|hs| - 1].0 := hs[|hs| - 1].1]
  }

  /** The history at `i` brings a new tick count of at least two. */
  predicate NewTick(m: map<TradingPair, nat>, hs: seq<(TradingPair, nat)>, i: int)
    requires 0 <= i < |hs|
  {
    var prev := StoreCounts(m, hs[..i]);
    (hs[i].0 !in prev || prev[hs[i].0] != hs[i].1) && hs[i].1 >= 2
  }

  /** A tick trigger: the tick count last seen per trading pair. */
  class TickTrigger {
    var prevNumTrades: map<TradingPair, nat>

    constructor ()
      ensures prevNumTrades == map[]
    {
      prevNumTrades := map[];
    }

    /** `init(foos, time, histories)`: records each pair's tick count. */
    method Init(hs: seq<(TradingPair, nat)>)
      modifies this
      ensures prevNumTrades == StoreCounts(old(prevNumTrades), hs)
      ensures forall i :: 0 <= i < |hs| ==> hs[i].0 in prevNumTrades
    {
      var i := 0;
      while i < |hs|
        invariant i <= |hs|
        invariant prevNumTrades == StoreCounts(old(prevNumTrades), hs[..i])
      {
        assert hs[..i + 1][..i] == hs[..i];
        prevNumTrades := prevNumTrades[hs[i].0 := hs[i].1];
        i := i + 1;
      }
      assert hs[..i] == hs;
      StoreCountsKeys(old(prevNumTrades), hs);
    }

    /** `checkForEvent(time, histories)`: asserts each pair was recorded;
      * records every changed count, and fires when a changed count is at
      * least two. */
    method CheckForEvent(hs: seq<(TradingPair, nat)>) returns (fired: bool)
      requires forall i :: 0 <= i < |hs| ==> hs[i].0 in prevNumTrades
      modifies this
      ensures prevNumTrades == StoreCounts(old(prevNumTrades), hs)
      ensures fired <==> exists i :: 0 <= i < |hs| && NewTick(old(prevNumTrades), hs, i)
    {
      fired := false;
      var i := 0;
      while i < |hs|
        invariant i <= |hs|
        invariant prevNumTrades == StoreCounts(old(prevNumTrades), hs[..i])
        invariant fired <==> exists j :: 0 <= j < i && NewTick(old(prevNumTrades), hs, j)
      {
        assert hs[..i + 1][..i] == hs[..i];
        StoreCountsKeys(old(prevNumTrades), hs[..i]);
        var p := hs[i].0;
        assert NewTick(old(prevNumTrades), hs, i) <==> prevNumTrades[p] != hs[i].1 && hs[i].1 >= 2;
        if prevNumTrades[p] != hs[i].1 {
          prevNumTrades := prevNumTrades[p := hs[i].1];
          if prevNumTrades[p] >= 2 {
            fired := true;
          }
        } else {
          assert prevNumTrades == prevNumTrades[p := hs[i].1];
        }
        i := i + 1;
      }
      assert hs[..i] == hs;
    }
  }

  /** Storing counts only adds keys: the pairs of the histories. */
  lemma {:induction false} StoreCountsKeys(m: map<TradingPair, nat>, hs: seq<(TradingPair, nat)>)
    ensures m.Keys <= StoreCounts(m, hs).Keys
    ensures forall i :: 0 <= i < |hs| ==> hs[i].0 in StoreCounts(m, hs)
    decreases |hs|
  {
    if hs != [] {
      var n := |hs| - 1;
      StoreCountsKeys(m, hs[..n]);
      assert forall i :: 0 <= i < n ==> hs[i] == hs[..n][i];
    }
  }

  /** When every history's count is the one recorded for its pair, a check
    * changes nothing and does not fire. */
  lemma {:induction false} UnchangedCountsDoNothing(m: map<TradingPair, nat>, hs: seq<(TradingPair, nat)>)
    requires forall i :: 0 <= i < |hs| ==> hs[i].0 in m && m[hs[i].0] == hs[i].1
    ensures StoreCounts(m, hs) == m
    ensures forall i :: 0 <= i < |hs| ==> !NewTick(m, hs, i)
    decreases |hs|
  {
    if hs != [] {
      var n := |hs| - 1;
      assert forall i :: 0 <= i < n ==> hs[..n][i] == hs[i];
      UnchangedCountsDoNothing(m, hs[..n]);
      forall i | 0 <= i < |hs|
        ensures !NewTick(m, hs, i)
      {
        if i < n {
          assert hs[..n][..i] == hs[..i];
          assert !NewTick(m, hs[..n], i);
        } else {
          assert hs[..n] == hs[..i];
        }
      }
    }
  }

  /** With one history per pair, a check fires iff some pair's count differs
    * from the recorded one and is at least two. */
  lemma DistinctPairsCompareWithRecorded(m: map<TradingPair, nat>, hs: seq<(TradingPair, nat)>, i: int)
    requires 0 <= i < |hs|
    requires forall j, k :: 0 <= j < k < |hs| ==> hs[j].0 != hs[k].0
    ensures NewTick(m, hs, i) <==> (hs[i].0 !in m || m[hs[i].0] != hs[i].1) && hs[i].1 >= 2
  {
    StoreCountsElsewhere(m, hs[..i], hs[i].0);
  }

  /** A pair no history names keeps its recorded count. */
  lemma {:induction false} StoreCountsElsewhere(m: map<TradingPair, nat>, hs: seq<(TradingPair, nat)>, p: TradingPair)
    requires forall j :: 0 <= j < |hs| ==> hs[j].0 != p
    ensures (p in StoreCounts(m, hs)) == (p in m)
    ensures p in m ==> StoreCounts(m, hs)[p] == m[p]
    decreases |hs|
  {
    if hs != [] {
      var n := |hs| - 1;
      assert forall j :: 0 <= j < n ==> hs[..n][j] == hs[j];
      StoreCountsElsewhere(m, hs[..n], p);
    }
  }

  /** One history's candle counts by interval, stored over `c` in order. */
  function StoreDurations(c: map<int, int>, counts: seq<(int, int)>): map<int, int>
    decreases |counts|
  {
    if counts == [] then c
    else StoreDurations(c, counts[..|counts| - 1])[counts[|counts| - 1].0 := counts[|counts| - 1].1]
  }

  /** The recorded candle counts after storing each history's counts in order
    * over the pair's recorded ones; `restart` starts each pair from nothing, as
    * `init` does. */
  function StoreCandles(m: map<TradingPair, map<int, int>>, hs: seq<(TradingPair, seq<(int, int)>)>, restart: bool)
    : map<TradingPair, map<int, int>>
    decreases |hs|
  {
    if hs == [] then m
    else
      var prev := StoreCandles(m, hs[..|hs| - 1], restart);
      var h := hs[|hs| - 1];
      var base := if restart || h.0 !in prev then map[] else prev[h.0];
      prev[h.0 := StoreDurations(base, h.1)]
  }

  /** The count at `j` of one history differs from the one recorded before
    * it and is at least two. */
  predicate NewCandle(c: map<int, int>, counts: seq<(int, int)>, j: int)
    requires 0 <= j < |counts|
  {
    var prev := StoreDurations(c, counts[..j]);
    (counts[j].0 !in prev || prev[counts[j].0] != counts[j].1) && counts[j].1 >= 2
  }

  /** The history at `i` brings a new candle count of at least two. */
  predicate NewCandleIn(m: map<TradingPair, map<int, int>>, hs: seq<(TradingPair, seq<(int, int)>)>, i: int)
    requires 0 <= i < |hs|
  {
    var prev := StoreCandles(m, hs[..i], false);
    var c := if hs[i].0 in prev then prev[hs[i].0] else map[];
    exists j :: 0 <= j < |hs[i].1| && NewCandle(c, hs[i].1, j)
  }

  /** What `checkForEvent` asserts: every pair and every interval of the
    * histories was recorded. */
  predicate Recorded(m: map<TradingPair, map<int, int>>, hs: seq<(TradingPair, seq<(int, int)>)>)
  {
    forall i :: 0 <= i < |hs| ==> hs[i].0 in m && forall j :: 0 <= j < |hs[i].1| ==> hs[i].1[j].0 in m[hs[i].0]
  }

  /** A candle trigger: the candle count last seen per trading pair and
    * candle interval. */
  class CandleTrigger {
    var prevNumCandles: map<TradingPair, map<int, int>>

    constructor ()
      ensures prevNumCandles == map[]
    {
      prevNumCandles := map[];
    }

    /** `init(foos, time, histories)`: each pair's counts start afresh from
      * its history's counts per interval. */
    method Init(hs: seq<(TradingPair, seq<(int, int)>)>)
      modifies this
      ensures prevNumCandles == StoreCandles(old(prevNumCandles), hs, true)
    {
      var i := 0;
      while i < |hs|
        invariant i <= |hs|
        invariant prevNumCandles == StoreCandles(old(prevNumCandles), hs[..i], true)
      {
        assert hs[..i + 1][..i] == hs[..i];
        var p := hs[i].0;
        prevNumCandles := prevNumCandles[p := map[]];
        var fired := StoreHistory(p, hs[i].1);
        i := i + 1;
      }
      assert hs[..i] == hs;
    }

    /** `checkForEvent(time, histories)`: asserts each pair and interval was
      * recorded; records every changed count, and fires when a changed count
      * is at least two. */
    method CheckForEvent(hs: seq<(TradingPair, seq<(int, int)>)>) returns (fired: bool)
      requires Recorded(prevNumCandles, hs)
      modifies this
      ensures prevNumCandles == StoreCandles(old(prevNumCandles), hs, false)
      ensures fired <==> exists i :: 0 <= i < |hs| && NewCandleIn(old(prevNumCandles), hs, i)
    {
      fired := false;
      var i := 0;
      while i < |hs|
        invariant i <= |hs|
        invariant prevNumCandles == StoreCandles(old(prevNumCandles), hs[..i], false)
        invariant fired <==> exists k :: 0 <= k < i && NewCandleIn(old(prevNumCandles), hs, k)
      {
        assert hs[..i + 1][..i] == hs[..i];
        ghost var before := prevNumCandles;
        RecordedKeysStay(old(prevNumCandles), hs, i);
        var p := hs[i].0;
        NewCandleInUnfold(old(prevNumCandles), hs, i, before);
        var one := StoreHistory(p, hs[i].1);
        fired := fired || one;
        i := i + 1;
      }
      assert hs[..i] == hs;
    }

    /** The inner loop over one history's counts per interval. */
    method StoreHistory(p: TradingPair, counts: seq<(int, int)>) returns (fired: bool)
      requires p in prevNumCandles
      modifies this
      ensures prevNumCandles == old(prevNumCandles)[p := StoreDurations(old(prevNumCandles[p]), counts)]
      ensures fired <==> exists j :: 0 <= j < |counts| && NewCandle(old(prevNumCandles[p]), counts, j)
    {
      fired := false;
      var j := 0;
      while j < |counts|
        invariant j <= |counts|
        invariant prevNumCandles == old(prevNumCandles)[p := StoreDurations(old(prevNumCandles[p]), counts[..j])]
        invariant fired <==> exists k :: 0 <= k < j && NewCandle(old(prevNumCandles[p]), counts, k)
      {
        assert counts[..j + 1][..j] == counts[..j];
        var c := prevNumCandles[p];
        var d, n := counts[j].0, counts[j].1;
        assert NewCandle(old(prevNumCandles[p]), counts, j) <==> (d !in c || n != c[d]) && n >= 2;
        if d !in c || n != c[d] {
          prevNumCandles := prevNumCandles[p := c[d := n]];
          if n >= 2 {
            fired := true;
          }
        } else {
          assert c[d := n] == c;
        }
        j := j + 1;
      }
      assert counts[..j] == counts;
    }
  }

  /** Whether the history at `i` brings a new candle, from the counts
    * recorded before it. */
  lemma NewCandleInUnfold(m: map<TradingPair, map<int, int>>, hs: seq<(TradingPair, seq<(int, int)>)>, i: int,
                          before: map<TradingPair, map<int, int>>)
    requires 0 <= i < |hs| && before == StoreCandles(m, hs[..i], false) && hs[i].0 in before
    ensures NewCandleIn(m, hs, i) <==> exists j :: 0 <= j < |hs[i].1| && NewCandle(before[hs[i].0], hs[i].1, j)
  {
    var c := before[hs[i].0];
    if NewCandleIn(m, hs, i) {
      var j :| 0 <= j < |hs[i].1| && NewCandle(c, hs[i].1, j);
    }
    if exists j :: 0 <= j < |hs[i].1| && NewCandle(c, hs[i].1, j) {
      var j :| 0 <= j < |hs[i].1| && NewCandle(c, hs[i].1, j);
      assert NewCandleIn(m, hs, i);
    }
  }

  /** Counts equal to the recorded ones change nothing and bring no new candle. */
  lemma {:induction false} UnchangedDurationsDoNothing(c: map<int, int>, counts: seq<(int, int)>)
    requires forall j :: 0 <= j < |counts| ==> counts[j].0 in c && c[counts[j].0] == counts[j].1
    ensures StoreDurations(c, counts) == c
    ensures forall j :: 0 <= j < |counts| ==> !NewCandle(c, counts, j)
    decreases |counts|
  {
    if counts != [] {
      var n := |counts| - 1;
      assert forall j :: 0 <= j < n ==> counts[..n][j] == counts[j];
      UnchangedDurationsDoNothing(c, counts[..n]);
      forall j | 0 <= j < |counts|
        ensures !NewCandle(c, counts, j)
      {
        if j < n {
          assert counts[..n][..j] == counts[..j];
          assert !NewCandle(c, counts[..n], j);
        } else {
          assert counts[..n] == counts[..j];
        }
      }
    }
  }

  /** When every history's count per interval is the one recorded for its
    * pair, a check changes nothing and does not fire. */
  lemma {:induction false} UnchangedCandlesDoNothing(m: map<TradingPair, map<int, int>>,
                                                     hs: seq<(TradingPair, seq<(int, int)>)>)
    requires forall i :: 0 <= i < |hs| ==> hs[i].0 in m
    requires forall i, j :: 0 <= i < |hs| && 0 <= j < |hs[i].1| ==>
               hs[i].1[j].0 in m[hs[i].0] && m[hs[i].0][hs[i].1[j].0] == hs[i].1[j].1
    ensures StoreCandles(m, hs, false) == m
    ensures forall i :: 0 <= i < |hs| ==> !NewCandleIn(m, hs, i)
    decreases |hs|
  {
    if hs != [] {
      var n := |hs| - 1;
      assert forall i :: 0 <= i < n ==> hs[..n][i] == hs[i];
      UnchangedCandlesDoNothing(m, hs[..n]);
      UnchangedDurationsDoNothing(m[hs[n].0], hs[n].1);
      forall i | 0 <= i < |hs|
        ensures !NewCandleIn(m, hs, i)
      {
        assert forall k :: 0 <= k < i ==> hs[..i][k] == hs[k];
        UnchangedCandlesDoNothing(m, hs[..i]);
        UnchangedDurationsDoNothing(m[hs[i].0], hs[i].1);
      }
    }
  }

  /** The pairs and intervals recorded before stay recorded while counts are
    * stored. */
  lemma RecordedKeysStay(m: map<TradingPair, map<int, int>>, hs: seq<(TradingPair, seq<(int, int)>)>, i: int)
    requires Recorded(m, hs) && 0 <= i < |hs|
    ensures hs[i].0 in StoreCandles(m, hs[..i], false)
  {
    StoreCandlesKeys(m, hs[..i], hs[i].0);
  }

  /** Storing candle counts keeps every recorded pair. */
  lemma {:induction false} StoreCandlesKeys(m: map<TradingPair, map<int, int>>, hs: seq<(TradingPair, seq<(int, int)>)>, p: TradingPair)
    requires p in m
    ensures p in StoreCandles(m, hs, false)
    decreases |hs|
  {
    if hs != [] {
      StoreCandlesKeys(m, hs[..|hs| - 1], p);
    }
  }

  /** What the debug-only `ASSERT` of `checkForEvent` expects of a changed
    * count: that it increased. */
  predicate Grows(c: map<int, int>, counts: seq<(int, int)>)
  {
    forall j :: 0 <= j < |counts| ==>
      var prev := StoreDurations(c, counts[..j]);
      counts[j].0 in prev ==> counts[j].1 >= prev[counts[j].0]
  }

  /** When counts grow as expected, no recorded interval is lost and no
    * recorded count decreases. */
  lemma {:induction false} GrowingCountsNeverDecrease(c: map<int, int>, counts: seq<(int, int)>, d: int)
    requires Grows(c, counts) && d in c
    ensures d in StoreDurations(c, counts) && StoreDurations(c, counts)[d] >= c[d]
    decreases |counts|
  {
    if counts != [] {
      var n := |counts| - 1;
      forall j | 0 <= j < n
        ensures var prev := StoreDurations(c, counts[..n][..j]);
                counts[..n][j].0 in prev ==> counts[..n][j].1 >= prev[counts[..n][j].0]
      {
        assert counts[..n][..j] == counts[..j];
      }
      GrowingCountsNeverDecrease(c, counts[..n], d);
    }
  }
}
