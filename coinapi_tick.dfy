/**
 * The unique id of a CoinAPI trade: one signed 64-bit word packing the
 * 16-bit hash of the trade's UUID in bits 0-15, the exchange id in bits
 * 16-23 and the milliseconds since the CoinAPI epoch in bits 24-62. The
 * trade's exchange and its time at millisecond precision are read back
 * from the word.
 */
module CoinApiTick {

  import opened Wrappers
  import TraderUtils

  /** `Time(2013, 0, 0, 0, 0, 0)`: month 0 and day 0 normalise to
    * 2012-11-30 00:00 UTC, day 15674 of the Unix epoch, in microseconds. */
  const Epoch: int := 1_354_233_600 * 1_000_000

  const TwoTo16: int := 0x1_0000
  const TwoTo24: int := 0x100_0000
  const TwoTo39: int := 0x80_0000_0000

  /** The epoch is what the calendar formula gives for month -1 of 2013 rolled
    * back into December 2012, day 0 of it, and so for November 30th. */
  lemma EpochIsCalendar()
    ensures Epoch == TraderUtils.MyTimegm(112, 11, 0, 0, 0, 0, 0) * 1_000_000
    ensures Epoch == TraderUtils.MyTimegm(112, 10, 30, 0, 0, 0, 0) * 1_000_000
  {
    assert TraderUtils.CumDays[11] == 334 && TraderUtils.CumDays[10] == 304;
  }

  /** Whole milliseconds from the epoch to `t`, as C integer division gives them. */
  function MillisSinceEpoch(t: int): int { CDiv(t - Epoch, 1000) }

  /**
   * `computeUniqueID(t, exchange, hash)`: the hash, plus the exchange's low
   * eight bits shifted by 16, plus the low 39 bits of the milliseconds
   * shifted by 24 (the masks of a two's-complement word are the Euclidean
   * remainders). The caller asserts fewer than 2^39 milliseconds and a hash
   * below 2^16.
   */
  function UniqueId(t: int, exchange: int, hash: int): (id: int)
    requires MillisSinceEpoch(t) < TwoTo39 && 0 <= hash < TwoTo16
    ensures 0 <= id < TwoTo39 * TwoTo24
  {
    hash + (exchange % 256) * TwoTo16 + (MillisSinceEpoch(t) % TwoTo39) * TwoTo24
  }

  /** `getExchangeId()`: bits 16-23 (an arithmetic shift, then the mask). */
  function ExchangeIdOf(flags: int): int { (flags / TwoTo16) % 256 }

  /** `getTimeStamp()`: the epoch plus bits 24 and up, read as milliseconds. */
  function TimeStampOf(flags: int): int { Epoch + (flags / TwoTo24) * 1000 }

  /** The three fields of the packed id are recovered exactly: the hash from
    * the low 16 bits, the exchange id modulo 256, the milliseconds modulo 2^39. */
  lemma UniqueIdFields(t: int, exchange: int, hash: int)
    requires MillisSinceEpoch(t) < TwoTo39 && 0 <= hash < TwoTo16
    ensures UniqueId(t, exchange, hash) % TwoTo16 == hash
    ensures ExchangeIdOf(UniqueId(t, exchange, hash)) == exchange % 256
    ensures UniqueId(t, exchange, hash) / TwoTo24 == MillisSinceEpoch(t) % TwoTo39
  {
    var e := exchange % 256;
    var d := MillisSinceEpoch(t) % TwoTo39;
    var id := UniqueId(t, exchange, hash);
    assert id == (e + d * 256) * TwoTo16 + hash;
    DivUnique(id, TwoTo16, e + d * 256, hash);
    DivUnique(e + d * 256, 256, d, e);
    assert id == d * TwoTo24 + (hash + e * TwoTo16);
    DivUnique(id, TwoTo24, d, hash + e * TwoTo16);
  }

  /** For a trade from the epoch on, within 2^39 milliseconds of it, and an
    * exchange id below 256, the id gives back the exchange and the time to the
    * millisecond: the check the source makes after packing holds. */
  lemma UniqueIdRoundTrip(t: int, exchange: int, hash: int)
    requires Epoch <= t && MillisSinceEpoch(t) < TwoTo39 && 0 <= hash < TwoTo16 && 0 <= exchange < 256
    ensures ExchangeIdOf(UniqueId(t, exchange, hash)) == exchange
    ensures CDiv(TimeStampOf(UniqueId(t, exchange, hash)), 1000) == CDiv(t, 1000)
    ensures t - 1000 < TimeStampOf(UniqueId(t, exchange, hash)) <= t
  {
    UniqueIdFields(t, exchange, hash);
    var ms := MillisSinceEpoch(t);
    CDivNatural(t - Epoch, 1000);
    DivUnique(ms, TwoTo39, 0, ms);
    var ts := TimeStampOf(UniqueId(t, exchange, hash));
    assert ts == Epoch + ms * 1000;
    CDivNatural(t, 1000);
    CDivNatural(ts, 1000);
    DivUnique(ts, 1000, 1_354_233_600_000 + ms, 0);
    DivUnique(t, 1000, 1_354_233_600_000 + ms, (t - Epoch) % 1000);
  }

  /** A trade one millisecond before the epoch wraps to the far end of the
    * 39-bit field, so its time cannot be read back. */
  lemma BeforeEpochWraps()
    ensures MillisSinceEpoch(Epoch - 1000) == -1
    ensures TimeStampOf(UniqueId(Epoch - 1000, 0, 0)) == Epoch + (TwoTo39 - 1) * 1000
  {
    UniqueIdFields(Epoch - 1000, 0, 0);
  }

  /** A CoinAPI trade: price, size and the packed id. */
  class CoinApiTick {
    var price: real
    var size: real
    var flags: int

    /** `CoinAPITick(time, price, size, exchange, uuid)`: the id packs the
      * 16-bit hash of the UUID. */
    constructor (coinapiTime: int, price: real, size: real, exchange: int, uuid: string)
      requires MillisSinceEpoch(coinapiTime) < TwoTo39
      ensures this.price == price && this.size == size
      ensures flags == UniqueId(coinapiTime, exchange, TraderUtils.UuidHashOf(uuid, 16))
    {
      this.price := price;
      this.size := size;
      flags := 0;
      new;
      var h := TraderUtils.UuidHash(uuid, 16);
      ComputeUniqueId(coinapiTime, exchange, h);
    }

    /** `computeUniqueID(t, exchange, hash)`: stores the packed id. */
    method ComputeUniqueId(t: int, exchange: int, hash: int)
      requires MillisSinceEpoch(t) < TwoTo39 && 0 <= hash < TwoTo16
      modifies this`flags
      ensures flags == UniqueId(t, exchange, hash)
      ensures flags % TwoTo16 == hash && ExchangeIdOf(flags) == exchange % 256
    {
      var diff := MillisSinceEpoch(t);
      var id := hash;
      id := id + (exchange % 256) * TwoTo16;
      id := id + (diff % TwoTo39) * TwoTo24;
      flags := id;
      UniqueIdFields(t, exchange, hash);
    }

    /** `getExchangeId()`. */
    function GetExchangeId(): (e: int)
      reads this
      ensures 0 <= e < 256
    {
      ExchangeIdOf(flags)
    }

    /** `getTimeStamp()`. */
    function GetTimeStamp(): (ts: int)
      reads this
      ensures (ts - Epoch) % 1000 == 0
    {
      TimeStampOf(flags)
    }
  }
}
