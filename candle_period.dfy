/**
 * A candle period: a double-ended queue of candlesticks of one interval
 * whose timestamps follow one another at exactly that interval, with the
 * timestamps of the first and last candle kept alongside. Candles are added
 * at either end, smaller candles are merged into the period, and ticks
 * either update the last candle or open new ones, filling any gap.
 * Only timestamps, the closing price and the volume of a candle are
 * modelled.
 */
module CandlePeriod {

  import opened Wrappers
  import TimeUtils
  import Volume

  datatype Candle = Candle(timestamp: int, close: real, volume: Volume.Volume)

  const NoVolume: Volume.Volume := Volume.Volume(0.0, 0.0)

  /** Each candle starts exactly one interval after the one before it. */
  predicate Contiguous(cs: seq<Candle>, interval: int)
  {
    forall k :: 0 < k < |cs| ==> cs[k].timestamp == cs[k - 1].timestamp + interval
  }

  lemma {:induction false} ContiguousAt(cs: seq<Candle>, interval: int, k: int)
    requires Contiguous(cs, interval) && 0 <= k < |cs|
    ensures cs[k].timestamp == cs[0].timestamp + k * interval
  {
    if k > 0 {
      ContiguousAt(cs, interval, k - 1);
      assert k * interval == (k - 1) * interval + interval;
    }
  }

  /** The error reported when a candle breaks the run. */
  datatype DequeError = DequeError(current: int, last: int, interval: int)

  /**
   * The check of the constructor from a queue of candles: walks the queue and
   * reports the first candle that does not follow its predecessor by the
   * interval.
   */
  method CheckCandleDeque(cs: seq<Candle>, interval: int) returns (r: Result<(), DequeError>)
    requires cs != []
    ensures r.Ok? <==> Contiguous(cs, interval)
    ensures r.Err? ==> exists k :: 0 < k < |cs| && r.error == DequeError(cs[k].timestamp, cs[k - 1].timestamp, interval)
                                   && cs[k].timestamp != cs[k - 1].timestamp + interval
                                   && Contiguous(cs[..k], interval)
  {
    var last := cs[0].timestamp;
    var i := 1;
    while i < |cs|
      invariant 1 <= i <= |cs|
      invariant last == cs[i - 1].timestamp
      invariant Contiguous(cs[..i], interval)
    {
      var current := cs[i].timestamp;
      if current != last + interval {
        return Err(DequeError(current, last, interval));
      }
      last := current;
      i := i + 1;
      assert cs[..i] == cs[..i - 1] + [cs[i - 1]];
    }
    assert cs[..i] == cs;
    return Ok(());
  }

  class CandlePeriod {
    var candles: seq<Candle>
    var firstTs: int
    var lastTs: int
    var interval: int
    var stored: bool
    var nonZeroSampleCount: int
    var lastPrice: real

    /** The queue is a run at the interval and the two timestamps describe its ends. */
    predicate Valid()
      reads this
    {
      Contiguous(candles, interval)
      && (candles != [] ==> firstTs == candles[0].timestamp && lastTs == candles[|candles| - 1].timestamp)
    }

    /** The run starts at a non-negative multiple of a positive interval. */
    predicate Aligned()
      reads this
    {
      interval > 0
      && (candles != [] ==> candles[0].timestamp >= 0 && TimeUtils.TimeMod(candles[0].timestamp, interval) == 0)
    }

    constructor (interval: int)
      ensures Valid() && candles == [] && this.interval == interval
      ensures firstTs == 0 && lastTs == 0 && nonZeroSampleCount == 0 && !stored
    {
      candles := [];
      this.interval := interval;
      firstTs, lastTs := 0, 0;
      nonZeroSampleCount := 0;
      stored := false;
    }

    /** The constructor from a queue that passed `CheckCandleDeque`, as it should
      * behave: the period holds the queue. */
    constructor FromCandles(cs: seq<Candle>, interval: int)
      requires cs != [] && Contiguous(cs, interval)
      ensures Valid() && candles == cs && this.interval == interval
      ensures firstTs == cs[0].timestamp && lastTs == cs[|cs| - 1].timestamp && !stored
    {
      lastPrice := 0.0;
      candles := cs;
      firstTs := cs[0].timestamp;
      lastTs := cs[|cs| - 1].timestamp;
      this.interval := interval;
      stored := false;
      nonZeroSampleCount := 0;
    }

    /** The same constructor as written: the queue is assigned to a temporary
      * copy, so the period records the ends of a queue it does not hold. */
    constructor FromCandlesAsWritten(cs: seq<Candle>, interval: int)
      requires cs != [] && Contiguous(cs, interval)
      ensures candles == [] && firstTs == cs[0].timestamp && lastTs == cs[|cs| - 1].timestamp
      ensures this.interval == interval && !stored
    {
      lastPrice := 0.0;
      candles := [];
      firstTs := cs[0].timestamp;
      lastTs := cs[|cs| - 1].timestamp;
      this.interval := interval;
      stored := false;
      nonZeroSampleCount := 0;
    }

    /** `clear()`: empties the queue and resets the timestamps, the sample
      * count and the stored flag. */
    method Clear()
      modifies this`candles, this`firstTs, this`lastTs, this`nonZeroSampleCount, this`stored
      ensures Valid() && candles == [] && firstTs == 0 && lastTs == 0
      ensures nonZeroSampleCount == 0 && !stored
    {
      candles := [];
      firstTs, lastTs := 0, 0;
      nonZeroSampleCount := 0;
      stored := false;
    }

    /**
     * `append(cs)`: 1 when the candle went into an empty period or one
     * interval after the last, 2 when it went one interval before the first,
     * 0 when its timestamp lies within the period and -1 otherwise; in the
     * last two cases nothing changes.
     */
    method Append(c: Candle) returns (code: int)
      requires Valid()
      modifies this`candles, this`firstTs, this`lastTs
      ensures Valid()
      ensures old(candles) == [] ==> code == 1 && candles == [c]
      ensures old(candles) != [] && old(firstTs) == c.timestamp + interval
              ==> code == 2 && candles == [c] + old(candles)
      ensures old(candles) != [] && old(firstTs) != c.timestamp + interval && old(lastTs) == c.timestamp - interval
              ==> code == 1 && candles == old(candles) + [c]
      ensures old(candles) != [] && old(firstTs) != c.timestamp + interval && old(lastTs) != c.timestamp - interval
              ==> candles == old(candles) && firstTs == old(firstTs) && lastTs == old(lastTs)
                  && (code == 0 <==> old(firstTs) <= c.timestamp <= old(lastTs))
                  && (code == -1 <==> !(old(firstTs) <= c.timestamp <= old(lastTs)))
    {
      if |candles| == 0 {
        firstTs, lastTs := c.timestamp, c.timestamp;
        candles := [c];
        return 1;
      }
      if firstTs == c.timestamp + interval {
        firstTs := c.timestamp;
        candles := [c] + candles;
        assert forall k :: 0 < k < |candles| ==> candles[k] == old(candles)[k - 1];
        return 2;
      } else if lastTs == c.timestamp - interval {
        lastTs := c.timestamp;
        candles := candles + [c];
        assert forall k :: 0 <= k < |candles| - 1 ==> candles[k] == old(candles)[k];
        return 1;
      } else if c.timestamp >= firstTs && c.timestamp <= lastTs {
        return 0;
      } else {
        return -1;
      }
    }

    /**
     * The search loop of `appendSmallerCandle`: merges a smaller candle of
     * interval `small` and mean price `mean` into the first candle of the
     * period that starts at `start`, if any; `i` is that candle's index, or
     * the length when there is none.
     */
    method MergeAt(start: int, c: Candle, small: int, mean: real) returns (i: int)
      modifies this`candles
      ensures |candles| == |old(candles)| && 0 <= i <= |candles|
      ensures forall k :: 0 <= k < i ==> candles[k].timestamp != start
      ensures i < |candles| ==> candles[i].timestamp == start
      ensures forall k :: 0 <= k < |candles| ==>
                candles[k] == if k == i then Merged(old(candles)[k], interval, c, small, mean) else old(candles)[k]
    {
      i := 0;
      while i < |candles|
        invariant 0 <= i <= |candles| && candles == old(candles)
        invariant forall k :: 0 <= k < i ==> candles[k].timestamp != start
      {
        if candles[i].timestamp == start {
          candles := candles[i := Merged(candles[i], interval, c, small, mean)];
          return;
        }
        i := i + 1;
      }
    }

    /** The back branch of `appendSmallerCandle`: a candle in the interval after
      * the last one opens a candle at its quantized start. */
    method PushBackQuantized(c: Candle)
      requires Valid() && candles != [] && interval > 0
      requires lastTs + interval <= c.timestamp < lastTs + 2 * interval
      modifies this`candles, this`lastTs
      ensures candles == old(candles) + [c.(timestamp := TimeUtils.Quantized(c.timestamp, interval))]
      ensures lastTs == TimeUtils.Quantized(c.timestamp, interval)
      ensures old(Aligned()) && c.timestamp >= 0 ==> Valid() && Aligned()
    {
      var q := TimeUtils.Quantized(c.timestamp, interval);
      if Aligned() && c.timestamp >= 0 {
        LastAligned(candles, interval);
        NextQuantizedStart(lastTs, interval, c.timestamp);
        FirstNotAfterLast(candles, interval);
      }
      lastTs := q;
      candles := candles + [c.(timestamp := q)];
      assert forall k :: 0 <= k < |candles| - 1 ==> candles[k] == old(candles)[k];
    }

    /** The front branch: a candle in the interval before the first one opens a
      * candle at its quantized start in front. */
    method PushFrontQuantized(c: Candle)
      requires Valid() && candles != [] && interval > 0
      requires firstTs - interval <= c.timestamp < firstTs
      modifies this`candles, this`firstTs
      ensures candles == [c.(timestamp := TimeUtils.Quantized(c.timestamp, interval))] + old(candles)
      ensures firstTs == TimeUtils.Quantized(c.timestamp, interval)
      ensures old(Aligned()) && c.timestamp >= 0 ==> Valid() && Aligned()
    {
      var q := TimeUtils.Quantized(c.timestamp, interval);
      if Aligned() && c.timestamp >= 0 {
        PreviousQuantizedStart(firstTs, interval, c.timestamp);
      }
      firstTs := q;
      candles := [c.(timestamp := q)] + candles;
      assert forall k :: 0 < k < |candles| ==> candles[k] == old(candles)[k - 1];
    }

    /**
     * `appendSmallerCandle` on a non-empty period of a compatible interval: a
     * candle starting inside the period (up to one interval after the last
     * start) is merged into the candle that starts at its quantized start, if
     * there is one; one starting in the interval after that opens a new candle
     * at the end, and one starting in the interval before the first opens a
     * new candle at the front, both at its quantized start; anything else is
     * ignored. `small` and `mean` are the smaller candle's interval and mean
     * price.
     */
    method AppendSmallerNonEmpty(c: Candle, small: int, mean: real) returns (code: int)
      requires Valid() && candles != [] && interval > 0
      modifies this`candles, this`firstTs, this`lastTs
      ensures firstTs == old(firstTs) || code == 3
      ensures old(firstTs) <= c.timestamp < old(lastTs) + interval ==>
                code == 1 && Valid() && firstTs == old(firstTs) && lastTs == old(lastTs)
                && MergedInto(old(candles), candles, TimeUtils.Quantized(c.timestamp, interval), interval, c, small, mean)
      ensures old(firstTs) <= c.timestamp < old(lastTs) + interval && old(Aligned()) && c.timestamp >= 0 ==>
                exists i :: 0 <= i < |old(candles)| && old(candles)[i].timestamp == TimeUtils.Quantized(c.timestamp, interval)
                            && candles == old(candles)[i := Merged(old(candles)[i], interval, c, small, mean)]
      ensures !(old(firstTs) <= c.timestamp < old(lastTs) + interval)
              && old(lastTs) + interval <= c.timestamp < old(lastTs) + 2 * interval ==>
                code == 2 && candles == old(candles) + [c.(timestamp := TimeUtils.Quantized(c.timestamp, interval))]
                && firstTs == old(firstTs) && lastTs == TimeUtils.Quantized(c.timestamp, interval)
      ensures !(old(firstTs) <= c.timestamp < old(lastTs) + interval)
              && !(old(lastTs) + interval <= c.timestamp < old(lastTs) + 2 * interval)
              && old(firstTs) - interval <= c.timestamp < old(firstTs) ==>
                code == 3 && candles == [c.(timestamp := TimeUtils.Quantized(c.timestamp, interval))] + old(candles)
                && lastTs == old(lastTs) && firstTs == TimeUtils.Quantized(c.timestamp, interval)
      ensures !(old(firstTs) <= c.timestamp < old(lastTs) + interval)
              && !(old(lastTs) + interval <= c.timestamp < old(lastTs) + 2 * interval)
              && !(old(firstTs) - interval <= c.timestamp < old(firstTs)) ==>
                code == 0 && candles == old(candles) && firstTs == old(firstTs) && lastTs == old(lastTs)
      ensures old(Aligned()) && c.timestamp >= 0 ==> Valid() && Aligned()
    {
      var ts := c.timestamp;
      if firstTs <= ts && lastTs + interval > ts {
        var q := TimeUtils.Quantized(ts, interval);
        var i := MergeAt(q, c, small, mean);
        if i < |candles| {
          assert candles == old(candles)[i := Merged(old(candles)[i], interval, c, small, mean)];
        } else {
          assert candles == old(candles);
        }
        if old(Aligned()) && ts >= 0 {
          QuantizedStartIsInPeriod(old(candles), interval, ts);
        }
        return 1;
      }
      if ts >= lastTs + interval && ts < lastTs + interval * 2 {
        PushBackQuantized(c);
        return 2;
      }
      if ts < firstTs && ts >= firstTs - interval {
        PushFrontQuantized(c);
        return 3;
      }
      return 0;
    }

    /** The first candle of an empty period starts at its quantized start. */
    method OpenQuantized(c: Candle)
      requires interval > 0
      modifies this`candles, this`firstTs, this`lastTs
      ensures candles == [c.(timestamp := TimeUtils.Quantized(c.timestamp, interval))] && Valid()
      ensures c.timestamp >= 0 ==> Aligned()
    {
      var q := TimeUtils.Quantized(c.timestamp, interval);
      firstTs, lastTs := q, q;
      candles := [c.(timestamp := q)];
      if c.timestamp >= 0 {
        TimeUtils.QuantizedProperties(c.timestamp, interval);
      }
    }

    /**
     * `appendSmallerCandle(cs, interval)`: a smaller interval that does not
     * divide the period's interval is refused with 0; into an empty period
     * the candle goes at the start of the period's interval containing it;
     * otherwise it is merged (1), appended (2), prepended (3) or ignored (0)
     * as `AppendSmallerNonEmpty` says. A period aligned to its interval stays
     * a run when fed candles from the epoch on, and then a merged candle
     * always finds the candle it belongs to.
     */
    method AppendSmallerCandle(c: Candle, small: int, mean: real) returns (code: int)
      requires Valid() && small != 0 && interval > 0
      modifies this`candles, this`firstTs, this`lastTs
      ensures CMod(interval, small) != 0 ==>
                code == 0 && candles == old(candles) && firstTs == old(firstTs) && lastTs == old(lastTs)
      ensures CMod(interval, small) == 0 && old(candles) == [] ==>
                code == 1 && candles == [c.(timestamp := TimeUtils.Quantized(c.timestamp, interval))] && Valid()
      ensures CMod(interval, small) == 0 && old(candles) != [] && old(firstTs) <= c.timestamp < old(lastTs) + interval ==>
                code == 1 && Valid() && firstTs == old(firstTs) && lastTs == old(lastTs)
                && MergedInto(old(candles), candles, TimeUtils.Quantized(c.timestamp, interval), interval, c, small, mean)
      ensures CMod(interval, small) == 0 && old(candles) != [] && old(firstTs) <= c.timestamp < old(lastTs) + interval
              && old(Aligned()) && c.timestamp >= 0 ==>
                exists i :: 0 <= i < |old(candles)| && old(candles)[i].timestamp == TimeUtils.Quantized(c.timestamp, interval)
                            && candles == old(candles)[i := Merged(old(candles)[i], interval, c, small, mean)]
      ensures CMod(interval, small) == 0 && old(candles) != []
              && !(old(firstTs) <= c.timestamp < old(lastTs) + interval)
              && old(lastTs) + interval <= c.timestamp < old(lastTs) + 2 * interval ==>
                code == 2 && candles == old(candles) + [c.(timestamp := TimeUtils.Quantized(c.timestamp, interval))]
                && firstTs == old(firstTs) && lastTs == TimeUtils.Quantized(c.timestamp, interval)
      ensures CMod(interval, small) == 0 && old(candles) != []
              && !(old(firstTs) <= c.timestamp < old(lastTs) + interval)
              && !(old(lastTs) + interval <= c.timestamp < old(lastTs) + 2 * interval)
              && old(firstTs) - interval <= c.timestamp < old(firstTs) ==>
                code == 3 && candles == [c.(timestamp := TimeUtils.Quantized(c.timestamp, interval))] + old(candles)
                && lastTs == old(lastTs) && firstTs == TimeUtils.Quantized(c.timestamp, interval)
      ensures CMod(interval, small) == 0 && old(candles) != []
              && !(old(firstTs) <= c.timestamp < old(lastTs) + interval)
              && !(old(lastTs) + interval <= c.timestamp < old(lastTs) + 2 * interval)
              && !(old(firstTs) - interval <= c.timestamp < old(firstTs)) ==>
                code == 0 && candles == old(candles) && firstTs == old(firstTs) && lastTs == old(lastTs)
      ensures old(Aligned()) && c.timestamp >= 0 ==> Valid() && Aligned()
    {
      if CMod(interval, small) != 0 {
        return 0;
      }
      if |candles| == 0 {
        OpenQuantized(c);
        return 1;
      }
      FirstNotAfterLast(candles, interval);
      code := AppendSmallerNonEmpty(c, small, mean);
    }

    /** `appendSmallerCandle` as written: into an empty period the candle goes
      * at its own, unquantized start. */
    method AppendSmallerCandleAsWritten(c: Candle, small: int, mean: real) returns (code: int)
      requires Valid() && small != 0 && interval > 0
      modifies this`candles, this`firstTs, this`lastTs
      ensures CMod(interval, small) != 0 ==>
                code == 0 && candles == old(candles) && firstTs == old(firstTs) && lastTs == old(lastTs)
      ensures CMod(interval, small) == 0 && old(candles) == [] ==> code == 1 && candles == [c] && Valid()
      ensures CMod(interval, small) == 0 && old(candles) != [] && old(lastTs) + interval <= c.timestamp < old(lastTs) + 2 * interval
              ==> code == 2 && candles == old(candles) + [c.(timestamp := TimeUtils.Quantized(c.timestamp, interval))]
    {
      if CMod(interval, small) != 0 {
        return 0;
      }
      if |candles| == 0 {
        firstTs, lastTs := c.timestamp, c.timestamp;
        candles := [c];
        return 1;
      }
      FirstNotAfterLast(candles, interval);
      code := AppendSmallerNonEmpty(c, small, mean);
    }

    /** `append` of the candle one interval after the last one: it goes to the back. */
    method AppendNext(c: Candle)
      requires Valid() && candles != [] && interval > 0 && c.timestamp == lastTs + interval
      modifies this`candles, this`firstTs, this`lastTs
      ensures Valid() && candles == old(candles) + [c] && lastTs == c.timestamp
    {
      FirstNotAfterLast(candles, interval);
      var _ := Append(c);
    }

    /**
     * The gap-filling loop of the tick append: while the last candle starts at
     * least one interval before the tick, a candle is appended one interval
     * after it. It carries the last price and no volume while the tick is
     * still two intervals or more away, and the tick's price and size when it
     * is not, which is the last candle the loop opens.
     */
    method FillGap(tickTs: int, price: real, size: real, gapPrice: real) returns (created: bool)
      requires Valid() && candles != [] && interval > 0
      modifies this`candles, this`firstTs, this`lastTs
      ensures Valid() && candles != []
      ensures created <==> old(lastTs) <= tickTs - interval
      ensures !created ==> candles == old(candles) && lastTs == old(lastTs)
      ensures created ==>
                |candles| > |old(candles)| && candles[..|old(candles)|] == old(candles)
                && |candles| - |old(candles)| == (tickTs - old(lastTs)) / interval
                && lastTs <= tickTs < lastTs + interval
                && candles[|candles| - 1] == Candle(lastTs, price, Volume.FromAmount(size))
      ensures forall m :: |old(candles)| <= m < |candles| - 1 ==>
                candles[m].close == gapPrice && candles[m].volume == NoVolume
    {
      created := false;
      ghost var n0 := |candles|;
      ghost var before := candles;
      ghost var lastBefore := lastTs;
      ghost var k := 0;
      while lastTs <= tickTs - interval
        invariant Valid() && candles != []
        invariant |candles| == n0 + k && candles[..n0] == before
        invariant created <==> k > 0
        invariant lastTs == lastBefore + k * interval
        invariant created ==> lastTs <= tickTs
        invariant forall m :: n0 <= m < |candles| - 1 ==> candles[m].close == gapPrice && candles[m].volume == NoVolume
        invariant created ==> candles[|candles| - 1] == FillCandle(lastTs, tickTs, interval, gapPrice, price, size)
        decreases tickTs - lastTs
      {
        var last := lastTs;
        var cs := if tickTs - last >= interval * 2 then Candle(last + interval, gapPrice, NoVolume)
                  else Candle(last + interval, price, Volume.FromAmount(size));
        ghost var prev := candles;
        AppendNext(cs);
        assert candles[..n0] == prev[..n0];
        assert (k + 1) * interval == k * interval + interval;
        k := k + 1;
        created := true;
      }
      if created {
        DivUnique(tickTs - lastBefore, interval, k, tickTs - lastTs);
      }
    }

    /**
     * The tick append: a tick into an empty period opens a candle at the start
     * of its interval (result 2). Otherwise the gap up to the tick is filled
     * (result 2 when a candle was opened), or, when no candle was opened, the
     * tick updates the last candle's close and volume (result 1). The last
     * price and the sample count follow.
     */
    method AppendTick(tickTs: int, price: real, size: real) returns (code: int)
      requires Valid() && interval > 0
      modifies this`candles, this`firstTs, this`lastTs, this`lastPrice, this`nonZeroSampleCount
      ensures Valid()
      ensures old(candles) == [] ==>
                code == 2 && candles == [Candle(TimeUtils.Quantized(tickTs, interval), price, Volume.FromAmount(size))]
                && nonZeroSampleCount == 1 && lastPrice == (if old(lastPrice) == 0.0 then price else old(lastPrice))
      ensures old(candles) != [] ==> lastPrice == price && nonZeroSampleCount == old(nonZeroSampleCount) + 1
      ensures old(candles) != [] ==> (code == 2 <==> old(lastTs) <= tickTs - interval) && (code == 1 || code == 2)
      ensures old(candles) != [] && code == 1 ==>
                |candles| == |old(candles)| && candles[..|candles| - 1] == old(candles)[..|candles| - 1]
                && candles[|candles| - 1] == old(candles)[|candles| - 1].(close := price,
                     volume := Volume.Add(old(candles)[|candles| - 1].volume, Volume.FromAmount(size)))
      ensures old(candles) != [] && code == 2 ==>
                |candles| > |old(candles)| && candles[..|old(candles)|] == old(candles)
                && |candles| - |old(candles)| == (tickTs - old(lastTs)) / interval
                && lastTs <= tickTs < lastTs + interval
                && candles[|candles| - 1] == Candle(lastTs, price, Volume.FromAmount(size))
                && forall m :: |old(candles)| <= m < |candles| - 1 ==>
                     candles[m].close == (if old(lastPrice) == 0.0 then price else old(lastPrice))
                     && candles[m].volume == NoVolume
    {
      if lastPrice == 0.0 {
        lastPrice := price;
      }
      if |candles| == 0 {
        var q := TimeUtils.Quantized(tickTs, interval);
        var _ := Append(Candle(q, price, Volume.FromAmount(size)));
        nonZeroSampleCount := 1;
        return 2;
      }
      var created := FillGap(tickTs, price, size, lastPrice);
      if !created {
        var n := |candles|;
        var back := candles[n - 1];
        candles := candles[..n - 1] + [back.(close := price, volume := Volume.Add(back.volume, Volume.FromAmount(size)))];
        assert forall k :: 0 <= k < n - 1 ==> candles[k] == old(candles)[k];
      }
      lastPrice := price;
      nonZeroSampleCount := nonZeroSampleCount + 1;
      code := if created then 2 else 1;
    }
  }

  /**
   * `addCandleToExistingCandle(existing, interval, small, smallInterval)` on
   * the modelled fields: the volumes add up, and the close becomes the
   * smaller candle's mean when that candle is the last one of the bigger
   * candle but not also its first (the first one's mean sets the open, which
   * is not modelled).
   */
  function Merged(big: Candle, interval: int, small: Candle, smallInterval: int, mean: real): Candle
  {
    var added := big.(volume := Volume.Add(big.volume, small.volume));
    if big.timestamp != small.timestamp && big.timestamp + interval - smallInterval == small.timestamp
    then added.(close := mean)
    else added
  }

  /** The outcome of the merge branch: the candle starting at `q` is merged
    * with the smaller candle, or, when no candle starts there, nothing
    * changes. */
  predicate MergedInto(before: seq<Candle>, after: seq<Candle>, q: int, interval: int, c: Candle, small: int, mean: real)
  {
    (exists i :: 0 <= i < |before| && before[i].timestamp == q
                 && after == before[i := Merged(before[i], interval, c, small, mean)])
    || ((forall k :: 0 <= k < |before| ==> before[k].timestamp != q) && after == before)
  }

  /** A merge keeps the candle's start and adds the volumes; of strictly
    * smaller sub-candles, the one that ends where the bigger candle ends sets
    * its close to its mean, and any other leaves the close as it was. */
  lemma MergedCandle(big: Candle, interval: int, small: Candle, smallInterval: int, mean: real)
    ensures Merged(big, interval, small, smallInterval, mean).timestamp == big.timestamp
    ensures Volume.Total(Merged(big, interval, small, smallInterval, mean).volume)
            == Volume.Total(big.volume) + Volume.Total(small.volume)
    ensures 0 < smallInterval < interval && small.timestamp + smallInterval == big.timestamp + interval ==>
              Merged(big, interval, small, smallInterval, mean).close == mean
    ensures small.timestamp + smallInterval != big.timestamp + interval ==>
              Merged(big, interval, small, smallInterval, mean).close == big.close
  {
    Volume.AddSubParts(big.volume, small.volume);
  }

  /** The candle the gap-filling loop opens at `start`: a gap candle while the
    * tick is at least one interval after it, the tick's candle otherwise. */
  function FillCandle(start: int, tickTs: int, interval: int, gapPrice: real, price: real, size: real): Candle
  {
    if start <= tickTs - interval then Candle(start, gapPrice, NoVolume)
    else Candle(start, price, Volume.FromAmount(size))
  }

  /** A run at a non-negative interval never ends before it starts. */
  lemma FirstNotAfterLast(cs: seq<Candle>, interval: int)
    requires Contiguous(cs, interval) && cs != [] && interval >= 0
    ensures cs[0].timestamp <= cs[|cs| - 1].timestamp
  {
    ContiguousAt(cs, interval, |cs| - 1);
  }

  /** In a run aligned to its interval, every time from the first start up to one
    * interval after the last start falls in a candle: its quantized start is
    * the start of some candle of the run. */
  lemma QuantizedStartIsInPeriod(cs: seq<Candle>, interval: int, ts: int)
    requires Contiguous(cs, interval) && cs != [] && interval > 0
    requires cs[0].timestamp >= 0 && TimeUtils.TimeMod(cs[0].timestamp, interval) == 0
    requires cs[0].timestamp <= ts < cs[|cs| - 1].timestamp + interval
    ensures exists k :: 0 <= k < |cs| && cs[k].timestamp == TimeUtils.Quantized(ts, interval)
  {
    var f := cs[0].timestamp;
    var k := (ts - f) / interval;
    QuantizeAboveAligned(f, interval, ts, k);
    ContiguousAt(cs, interval, |cs| - 1);
    assert |cs| * interval == (|cs| - 1) * interval + interval;
    if k >= |cs| {
      MulMonotone(k, |cs|, interval);
      assert false;
    }
    ContiguousAt(cs, interval, k);
  }

  /** Above an aligned start `f`, a time quantizes to `f` plus the whole
    * intervals between them. */
  lemma QuantizeAboveAligned(f: int, interval: int, ts: int, k: int)
    requires interval > 0 && f >= 0 && TimeUtils.TimeMod(f, interval) == 0 && f <= ts
    requires k == (ts - f) / interval
    ensures TimeUtils.Quantized(ts, interval) == f + k * interval
    ensures 0 <= k && k * interval <= ts - f
  {
    CDivNatural(f, interval);
    var a := f / interval;
    var r := (ts - f) % interval;
    assert f == a * interval;
    assert ts == (a + k) * interval + r;
    DivUnique(ts, interval, a + k, r);
    CDivNatural(ts, interval);
  }

  /** The last start of an aligned run is aligned too. */
  lemma LastAligned(cs: seq<Candle>, interval: int)
    requires Contiguous(cs, interval) && cs != [] && interval > 0
    requires cs[0].timestamp >= 0 && TimeUtils.TimeMod(cs[0].timestamp, interval) == 0
    ensures cs[|cs| - 1].timestamp >= 0 && TimeUtils.TimeMod(cs[|cs| - 1].timestamp, interval) == 0
  {
    var f := cs[0].timestamp;
    CDivNatural(f, interval);
    var a := f / interval;
    var n := |cs| - 1;
    ContiguousAt(cs, interval, n);
    assert cs[n].timestamp == (a + n) * interval;
    MulMonotone(a + n, 0, interval);
    DivUnique(cs[n].timestamp, interval, a + n, 0);
    CDivNatural(cs[n].timestamp, interval);
  }

  /** For an aligned last start, a time in the interval after the next start
    * quantizes to that next start. */
  lemma NextQuantizedStart(last: int, interval: int, ts: int)
    requires interval > 0 && last >= 0 && TimeUtils.TimeMod(last, interval) == 0
    requires last + interval <= ts < last + 2 * interval
    ensures TimeUtils.Quantized(ts, interval) == last + interval
    ensures TimeUtils.TimeMod(last + interval, interval) == 0
  {
    CDivNatural(last, interval);
    var a := last / interval;
    DivUnique(ts, interval, a + 1, ts - last - interval);
    CDivNatural(ts, interval);
    DivUnique(last + interval, interval, a + 1, 0);
    CDivNatural(last + interval, interval);
  }

  /** For an aligned first start, a non-negative time in the interval before it
    * quantizes to the start one interval earlier, itself non-negative and aligned. */
  lemma PreviousQuantizedStart(first: int, interval: int, ts: int)
    requires interval > 0 && first >= 0 && TimeUtils.TimeMod(first, interval) == 0
    requires 0 <= ts && first - interval <= ts < first
    ensures TimeUtils.Quantized(ts, interval) == first - interval
    ensures first - interval >= 0 && TimeUtils.TimeMod(first - interval, interval) == 0
  {
    CDivNatural(first, interval);
    var a := first / interval;
    assert first == a * interval;
    if a < 1 {
      assert false;
    }
    DivUnique(ts, interval, a - 1, ts - first + interval);
    CDivNatural(ts, interval);
    MulAtLeast(a, interval);
    DivUnique(first - interval, interval, a - 1, 0);
    CDivNatural(first - interval, interval);
  }

  /** As written, a smaller candle at 5 into an empty 10-wide period stays at 5,
    * and one at 15 then opens a candle at 10: two candles 5 apart in a period
    * of width 10. */
  method SmallerCandleAsWrittenExample() returns (starts: seq<int>)
    ensures starts == [5, 10]
    ensures starts[1] != starts[0] + 10
  {
    var p := new CandlePeriod(10);
    var c1 := p.AppendSmallerCandleAsWritten(Candle(5, 1.0, NoVolume), 5, 1.0);
    var c2 := p.AppendSmallerCandleAsWritten(Candle(15, 1.0, NoVolume), 5, 1.0);
    starts := [p.candles[0].timestamp, p.candles[1].timestamp];
  }

  /** The corrected append puts the same two candles at 0 and 10. */
  method SmallerCandleCorrectedExample() returns (starts: seq<int>)
    ensures starts == [0, 10]
  {
    var p := new CandlePeriod(10);
    var c1 := p.AppendSmallerCandle(Candle(5, 1.0, NoVolume), 5, 1.0);
    assert p.Aligned() by { TimeUtils.QuantizedProperties(5, 10); }
    var c2 := p.AppendSmallerCandle(Candle(15, 1.0, NoVolume), 5, 1.0);
    starts := [p.candles[0].timestamp, p.candles[1].timestamp];
  }

  /** Two one-minute candles, of means 10 and 20, merged into an empty
    * two-minute period: the period holds one candle of their joint volume,
    * closing at the second one's mean. */
  method SubCandlesCloseExample() returns (close: real, total: real)
    ensures close == 20.0 && total == 3.0
  {
    var p := new CandlePeriod(120);
    var c1 := p.AppendSmallerCandle(Candle(0, 10.0, Volume.FromAmount(1.0)), 60, 10.0);
    assert p.Aligned() by { TimeUtils.QuantizedProperties(0, 120); }
    var c2 := p.AppendSmallerCandle(Candle(60, 20.0, Volume.FromAmount(2.0)), 60, 20.0);
    assert CMod(120, 60) == 0;
    close, total := p.candles[0].close, Volume.Total(p.candles[0].volume);
  }
}
