# Trading bot core, modelled in Dafny

This project models the sequential bookkeeping of a C++ cryptocurrency trading
bot and proves properties of it. The bot collects trades and candlesticks
from exchanges (GDAX, Gemini, CoinAPI), keeps level-2 order books, runs
trading algorithms on events from triggers, and stores rows in Cassandra.
The model covers the parts that do not touch the network, the database
driver or threads:

- `Time` and `Duration` as microsecond counts: building them from fields,
  splitting a time into day and time of day, quantizing, shifting, and
  parsing ISO text with its range checks (`time_utils.dfy`).
- The portable `timegm` formula, checked against a day-by-day Gregorian
  calendar; trimming and splitting CSV lines; the XOR hash of a UUID
  (`trader_utils.dfy`).
- String splitting, first-word extraction and the identifier generator
  (`string_utils.dfy`).
- The tick period, a deque of trades kept in trade-id order, and its
  timestamp fix-up (`tick_period.dfy`).
- The candle period, a deque of candles at exactly one interval apart,
  including smaller-candle merging and gap filling on ticks
  (`candle_period.dfy`).
- The level-2 order book with its spread and quote (`order_book.dfy`).
- The CoinAPI unique-id bit packing (`coinapi_tick.dfy`).
- Currency and exchange name tables (`enum_tables.dfy`), currency pairs
  (`currency_pair.dfy`), account wallets and shares (`accounts.dfy`).
- Orders: trigger-type classification, amount adjustment, cancellation and
  discarding (`order.dfy`), and cancelling an exchange's limit orders
  (`exchange.dfy`).
- The command-line argument parser (`argument.dfy`).
- Interval, tick and candle triggers (`triggers.dfy`).
- Gemini's maker/taker sign (`gemini.dfy`); GDAX message routing, match
  signs and level-2 updates (`gdax.dfy`).
- The controller's clock stepping, start alignment, prices and order-log
  replay (`controller.dfy`).
- The trade algorithm's minimum interval and event handling
  (`trade_algo.dfy`).
- The primary-key order (`data_types.dfy`), the CQL statement builders and
  the metadata update (`database.dfy`), and buy/sell volume (`volume.dfy`).

Objects whose methods update fields in place are classes with `modifies`
clauses: Time, the periods, the order book, the CoinAPI tick, the wallet,
orders, the exchange, arguments and the parser, triggers, the controller,
the trade algorithm and the table. Pure code is functions and lemmas. C++
integer division and remainder truncate toward zero; they are written out as
`Wrappers.CDiv` and `Wrappers.CMod`. Prices, sizes and amounts are `real`.
Timestamps are unbounded `int`. `valid()` of a Time is `Time.IsValid`: the
timestamp is not the `INT64_MAX` sentinel.

## Model

| member | source | states |
|---|---|---|
| TimeUtils.DurationLiterals | tests/TimeUtilsTest.cpp:56-58 | `2_day + 1_hour + 10_min + 5_sec` equals `Duration(2, 1, 10, 5)`, which is 177 005 000 000 µs |
| TimeUtils.DurationFields | lib/include/utils/TimeUtils.h:48-52 | a duration built from in-range fields splits back into its day count and its time of day |
| TimeUtils.DayTimeRoundTrip | lib/include/utils/TimeUtils.h:525-531 | `Time(days_since_epoch(), micros_since_midnight())` gives the timestamp back; from the epoch on the time of day lies in [0, one day) |
| TimeUtils.DayTimeSplit | lib/include/utils/TimeUtils.h:208-210 | `Time(date, time)` with a non-negative day and an in-range time of day gives that day and time back |
| TimeUtils.QuantizedProperties | lib/include/utils/TimeUtils.h:359-363 | quantizing yields a multiple of the interval equal to the time minus its C remainder, the largest one not after the time from the epoch on (rounding toward zero before it), and is idempotent |
| TimeUtils.ShiftDifference | lib/include/utils/TimeUtils.h:545-575 | `(t + d) - t == d`, `(t + d) - d == t`, and `t2 + (t - t2) == t` |
| TimeUtils.IsoTimestamp | lib/include/utils/TimeUtils.h:232-265 | the parsed ISO time is the invalid sentinel when the requested format check fails, when `timegm` overflows, or when month > 12, day > 31, hour > 23, minute > 59 or second > 61 |
| TimeUtils.IsoTimestampIsCalendar | lib/include/utils/TimeUtils.h:248-264 | an accepted ISO time from 1970 on (month 1-12) is the day-by-day calendar's count of its whole seconds times 10^6 plus the rounded microsecond fraction |
| TimeUtils.RoundedFraction | lib/include/utils/TimeUtils.h:255-264 | for whole seconds plus a fraction in [0, 1) the rounded microseconds are that fraction times 10^6 rounded half up, between 0 and 10^6 |
| TimeUtils.Time.FromDateTime | lib/include/utils/TimeUtils.h:208-210 | the timestamp is `date` days plus `time` microseconds |
| TimeUtils.Time.Quantize | lib/include/utils/TimeUtils.h:359-363 | the timestamp becomes its truncating quotient by the interval times the interval |
| TimeUtils.Time.AddAssign | lib/include/utils/TimeUtils.h:488-491 | `+=` adds the duration to the timestamp |
| TimeUtils.Time.SubAssign | lib/include/utils/TimeUtils.h:493-496 | `-=` subtracts the duration from the timestamp |
| TraderUtils.YearFormula | lib/src/utils/TraderUtils.cpp:30-34 | the whole-year part of `my_timegm` (365 days a year plus the /4, /100, /400 corrections, less the current year's leap day) counts the days from 1970 to January 1st year by year |
| TraderUtils.MonthFormula | lib/src/utils/TraderUtils.cpp:28-35 | the cumulative month table plus one day past February of a leap year counts the days from January 1st month by month |
| TraderUtils.MyTimegmIsCalendar | lib/src/utils/TraderUtils.cpp:21-46 | for years from 1970 and months 0-11, `my_timegm` equals the second count of the day-by-day Gregorian calendar, the leap correction applying only to January and February of a leap year |
| TraderUtils.MyTimegmDst | lib/src/utils/TraderUtils.cpp:43 | a daylight-saving `tm` gives exactly 3600 seconds less |
| TraderUtils.RemoveSpacesOfTrims | lib/src/utils/TraderUtils.cpp:256-268 | an empty word comes back empty; an all-space word is the out-of-range error; any other result is a slice of the word with only spaces around it and no space at either end |
| TraderUtils.RemoveSpaces | lib/src/utils/TraderUtils.cpp:256-268 | the two loops return what `RemoveSpacesOf` specifies |
| TraderUtils.CsvFieldsShape | lib/src/utils/TraderUtils.cpp:271-289 | a line with n commas splits into n + 1 raw fields, none holding a comma, that joined with commas give the line back |
| TraderUtils.CsvFieldsLoop | lib/src/utils/TraderUtils.cpp:275-283 | the character loop pushes the trimmed field before each comma and leaves the last field open, or fails exactly when some field is blank |
| TraderUtils.ParseCsvLine | lib/src/utils/TraderUtils.cpp:271-289 | the trimmed fields are appended to the data and the new size, previous size + commas + 1, is returned; a blank field is the error `removeSpaces` throws |
| TraderUtils.UuidHashOf | lib/src/utils/TraderUtils.cpp:330-360 | the hash is below 2^(4 x piece length), and below 2^16 for 16 bits |
| TraderUtils.HexPrefixOfHexDigits | lib/src/utils/TraderUtils.cpp:347-352 | a piece made of hex digits only is read whole, as its hex value |
| TraderUtils.ChunkLengthOf | lib/src/utils/TraderUtils.cpp:333-338 | the halving loop yields the piece length of the specification |
| TraderUtils.XorPart | lib/src/utils/TraderUtils.cpp:343-356 | the inner loop XORs the hex value of every piece of a part into the hash |
| TraderUtils.UuidHash | lib/src/utils/TraderUtils.cpp:330-360 | `getUUIDHash` equals the XOR of the values of the leading hex digits of the pieces of every '-'-separated part (each piece's whole hex value when the UUID is made of hex digits), and is below 2^16 for 16 bits |
| TraderUtils.DateTimeSplit | lib/src/utils/TraderUtils.cpp:321-328 | a millisecond timestamp within the 32-bit day range splits into a day and a nanosecond time of day below one day that recombine to it |
| StringUtils.SplitFromJoin | lib/src/utils/StringUtils.cpp:23-31 | the tokens after a partial token hold no delimiter, are at least one for non-empty text, and joined with the delimiter give back the text less one trailing delimiter |
| StringUtils.TokensJoin | lib/src/utils/StringUtils.cpp:23-31 | the empty string splits to no token; no token holds the delimiter; joining the tokens gives back the string less one trailing delimiter, so the string itself when it does not end with one |
| StringUtils.JoinSplit | lib/src/utils/StringUtils.cpp:23-31 | tokens free of the delimiter whose last one is non-empty are what splitting their join gives back |
| StringUtils.Split | lib/src/utils/StringUtils.cpp:23-31 | the `getline` loop yields the tokens of the specification |
| StringUtils.SkipSpaces | lib/src/utils/StringUtils.cpp:58-64 | the index of the first non-whitespace character: everything before it is whitespace |
| StringUtils.WordEnd | lib/src/utils/StringUtils.cpp:58-64 | the end of the word starting at an index: no whitespace inside, whitespace or the end after it |
| StringUtils.TrimString | lib/src/utils/StringUtils.cpp:58-64 | an all-whitespace string comes back unchanged (the extraction fails); otherwise the result is its first whitespace-free word |
| StringUtils.DeterministicAsWritten | lib/src/utils/StringUtils.cpp:46-51 | the deterministic branch as written returns `length` characters, each 'a' plus the offset's quotient by a power of six, as a byte |
| StringUtils.AsWrittenLeavesHexAlphabet | lib/src/utils/StringUtils.cpp:50 | at offset 6 and length 2 the as-written branch returns "bg", whose 'g' is not a hex digit |
| StringUtils.BaseSixLetters | lib/src/utils/StringUtils.cpp:46-51 | the corrected branch returns `length` letters, all in 'a'..'f' |
| StringUtils.BaseSixLettersAt | lib/src/utils/StringUtils.cpp:50 | letter `idx` is 'a' plus base-six digit `length - idx - 1` of the offset |
| StringUtils.BaseSixLettersInjective | lib/src/utils/StringUtils.cpp:46-53 | two offsets below 6^length yield different strings, so successive calls give distinct names |
| StringUtils.HexGenerator.Generate | lib/src/utils/StringUtils.cpp:33-56 | the random branch returns `length` characters, the drawn ones, and leaves the offset; the deterministic branch, in its corrected form (see Findings), returns the base-six letters of the offset and increments it by one; both then return `length` hex characters |
| StringUtils.HexGenerator.constructor | lib/include/utils/StringUtils.h:13 | the generator starts with the given randomness flag and the offset at zero |
| TickPeriod.TickPeriod.constructor | lib/src/TickPeriod.cpp:16-19 | a new period is empty, in the requested mode, with zero end ids, timestamps and saved count |
| TickPeriod.TickPeriod.WithDummyId | lib/include/TickPeriod.h:35-38 | a period seeded with a placeholder id has that id at both ends and is otherwise empty |
| TickPeriod.TickPeriod.Reset | lib/src/TickPeriod.cpp:21-29 | `reset` zeroes the end ids and timestamps and keeps the mode and the saved count |
| TickPeriod.TickPeriod.Clear | lib/src/TickPeriod.cpp:199-210 | `clear` empties the queue and zeroes the end ids, timestamps and saved count |
| TickPeriod.TickPeriod.Append | lib/src/TickPeriod.cpp:31-94 | into an empty period: stored alone, 1; an id just below the first (consecutive) or below it (otherwise): pushed to the front, 2; just above the last or above it: pushed to the back, 1; inside [first, last]: 0 with nothing changed when the id is present, else inserted inside, 3; in consecutive mode any other id: -1 with nothing changed. The queue stays ordered by id (a gapless run in consecutive mode) with its ends recorded, and every stored trade is new and added exactly once |
| TickPeriod.TickPeriod.AppendInside | lib/src/TickPeriod.cpp:62-87 | an id inside the range returns 0 and changes nothing iff it is present (always in consecutive mode), otherwise the trade is inserted before the first larger id and 3 is returned |
| TickPeriod.TickPeriod.PushFront | lib/src/TickPeriod.cpp:45-52 | the trade becomes the front and the first id, and the order is kept |
| TickPeriod.TickPeriod.PushBack | lib/src/TickPeriod.cpp:53-61 | the trade becomes the back and the last id, and the order is kept |
| TickPeriod.TickPeriod.InsertAt | lib/src/TickPeriod.cpp:82 | inserting between a smaller and a larger id keeps the order and both ends |
| TickPeriod.FindSlot | lib/src/TickPeriod.cpp:65-77 | the search stops at the trade with the id iff it is present, otherwise at the first larger id |
| TickPeriod.SearchSlot | lib/src/TickPeriod.cpp:62-82 | for an absent id within the range the slot found lies strictly inside the queue, between a smaller and a larger id |
| TickPeriod.InsertInside | lib/src/TickPeriod.cpp:82 | inserting at such a slot keeps the ids increasing and both ends |
| TickPeriod.ConsKeepsOrder | lib/src/TickPeriod.cpp:45-48 | a smaller id in front keeps the order, and one less than the first keeps a run |
| TickPeriod.SnocKeepsOrder | lib/src/TickPeriod.cpp:53-57 | a larger id at the back keeps the order, and one more than the last keeps a run |
| TickPeriod.NotInOrdered | lib/src/TickPeriod.cpp:89-93 | an id outside [first, last] of an ordered queue is not in it |
| TickPeriod.RunHasEveryId | lib/src/TickPeriod.cpp:63 | in a gapless run every id between the first and the last is present, so consecutive mode never inserts inside |
| TickPeriod.SortIntsIsSortedPermutation | lib/src/TickPeriod.cpp:103 | the reference sort returns a sorted permutation of its input |
| TickPeriod.FixTimestamps | lib/src/TickPeriod.cpp:96-109 | `sFixTimestamps` keeps every trade's id in place and gives the trades the timestamps in sorted order |
| TickPeriod.FixedTimestampsSorted | lib/src/TickPeriod.cpp:96-109 | after the repair the timestamps never decrease along the queue, are the old ones rearranged, and the ids are unchanged |
| TickPeriod.InsertSortedIsSorted | lib/src/TickPeriod.cpp:103 | inserting into a sorted sequence keeps it sorted, with the smaller of the element and the old head in front |
| CandlePeriod.ContiguousAt | lib/src/CandlePeriod.cpp:261-276 | in a run, candle k starts k intervals after the first |
| CandlePeriod.CheckCandleDeque | lib/src/CandlePeriod.cpp:261-276 | the check passes iff every candle starts one interval after its predecessor, and otherwise reports a candle that breaks the run with its predecessor's timestamp |
| CandlePeriod.CandlePeriod.constructor | lib/include/CandlePeriod.h:40-46 | a period of an interval starts empty with zero timestamps and sample count and not stored |
| CandlePeriod.CandlePeriod.FromCandles | lib/src/CandlePeriod.cpp:261-284 | the corrected deque constructor holds the checked queue, with its first and last timestamps, unstored |
| CandlePeriod.CandlePeriod.FromCandlesAsWritten | lib/src/CandlePeriod.cpp:278-283 | as written the queue goes to a temporary, so the period is empty yet records the queue's end timestamps |
| CandlePeriod.CandlePeriod.Clear | lib/src/CandlePeriod.cpp:411-419 | `clear` empties the queue and resets both timestamps, the sample count and the stored flag |
| CandlePeriod.CandlePeriod.Append | lib/src/CandlePeriod.cpp:286-311 | into an empty period: stored alone, 1; one interval before the first: pushed to the front, 2; one interval after the last: pushed to the back, 1; within [first, last]: 0; otherwise -1; nothing changes on 0 and -1, and the queue stays a run with its ends recorded |
| CandlePeriod.CandlePeriod.MergeAt | lib/src/CandlePeriod.cpp:329-337 | the search loop merges the smaller candle into the first candle starting at the quantized time, if any (volumes added, and the close set to the smaller candle's mean when it is the last sub-candle), and leaves every other candle as it was |
| CandlePeriod.CandlePeriod.PushBackQuantized | lib/src/CandlePeriod.cpp:342-349 | a candle in the interval after the last opens a candle at its quantized start at the back |
| CandlePeriod.CandlePeriod.PushFrontQuantized | lib/src/CandlePeriod.cpp:351-358 | a candle in the interval before the first opens a candle at its quantized start at the front |
| CandlePeriod.CandlePeriod.AppendSmallerNonEmpty | lib/src/CandlePeriod.cpp:326-361 | inside [first, last + I): 1, the candle starting at the quantized time is merged with the smaller one, or nothing changes when no candle starts there, and in an aligned run fed from the epoch on that candle always exists; in [last + I, last + 2I): one candle appended at the quantized time, 2; in [first - I, first): one candle in front, 3; otherwise 0 with no change; an aligned run fed candles from the epoch on stays an aligned run |
| CandlePeriod.CandlePeriod.OpenQuantized | lib/src/CandlePeriod.cpp:321-325 | the first candle of an empty period in the corrected version starts at its quantized start |
| CandlePeriod.CandlePeriod.AppendSmallerCandle | lib/src/CandlePeriod.cpp:313-361 | an interval that does not divide the period's gives 0 and no change; into an empty period the candle goes at the start of its interval, 1, and the period is a run with its ends recorded; on a non-empty period each of the merge (1, the period staying a run with the same ends), back (2), front (3) and ignore (0) branches with its exact new queue and end timestamps; the run stays aligned, so a merged candle always finds its candle |
| CandlePeriod.CandlePeriod.AppendSmallerCandleAsWritten | lib/src/CandlePeriod.cpp:313-325 | as written, the first candle of an empty period keeps its own unquantized start |
| CandlePeriod.CandlePeriod.AppendNext | lib/src/CandlePeriod.cpp:176 | the candle one interval after the last is pushed to the back |
| CandlePeriod.CandlePeriod.FillGap | lib/src/CandlePeriod.cpp:162-176 | the loop opens candles iff the last start is at least one interval before the tick; each new candle starts one interval after the previous one; the loop stops when the last start is past the tick minus one interval; gap candles carry the last price and no volume, the final one the tick's price and size |
| CandlePeriod.CandlePeriod.AppendTick | lib/src/CandlePeriod.cpp:141-195 | into an empty period the tick opens a candle at its quantized start, 2, the sample count becomes 1 and the last price becomes the tick's only if it was 0; otherwise 2 iff a candle was created, else 1 with the tick merged into the last candle, the last price becomes the tick's and the sample count grows by one |
| CandlePeriod.FirstNotAfterLast | lib/src/CandlePeriod.cpp:304 | a run never ends before it starts |
| CandlePeriod.QuantizedStartIsInPeriod | lib/src/CandlePeriod.cpp:326-337 | in an aligned run every time in [first, last + I) quantizes to the start of some candle, so the merge always finds its candle |
| CandlePeriod.LastAligned | lib/src/CandlePeriod.cpp:342-349 | the last start of an aligned run is aligned |
| CandlePeriod.NextQuantizedStart | lib/src/CandlePeriod.cpp:342-349 | a time in [last + I, last + 2I) quantizes to last + I, so the new candle continues the run |
| CandlePeriod.PreviousQuantizedStart | lib/src/CandlePeriod.cpp:351-358 | a non-negative time in [first - I, first) quantizes to first - I |
| CandlePeriod.SmallerCandleAsWrittenExample | lib/src/CandlePeriod.cpp:320-324 | as written, candles at 5 and 15 into an empty 10-wide period start at 5 and 10, which are not one interval apart |
| CandlePeriod.SmallerCandleCorrectedExample | lib/src/CandlePeriod.cpp:320-324 | corrected, the same two candles start at 0 and 10 |
| CandlePeriod.MergedCandle | lib/src/CandlePeriod.cpp:58-91 | a merge keeps the bigger candle's start and adds the volumes; a strictly smaller sub-candle that ends where the bigger candle ends sets the close to its mean, and one that does not end there leaves the close |
| CandlePeriod.SubCandlesCloseExample | lib/src/CandlePeriod.cpp:313-337 | one-minute candles at 0 and 60 with means 10 and 20 and volumes 1 and 2, merged into an empty two-minute period, leave one candle closing at 20 with volume 3 |
| OrderBook.QuoteFacts | lib/include/Quote.h:50-66 | quotes equal by `==` may differ in size; a quote is invalid exactly when its midpoint is not below its ask, and a valid quote's midpoint lies strictly between bid and ask |
| OrderBook.Highest | lib/include/OrderBook.h:23 | the best bid price (`rbegin`) is a price of the side and no price is above it |
| OrderBook.Lowest | lib/include/OrderBook.h:23 | the best ask price (`begin`) is a price of the side and no price is below it |
| OrderBook.SpreadSign | lib/include/OrderBook.h:20-26 | the spread is 0 while either side is empty, and otherwise the lowest ask minus the highest bid |
| OrderBook.BidLevel | lib/include/OrderBook.h:71-78 | a non-zero size sets the bid level and leaves the asks; a zero size removes the price from the bids, or from the asks when it was no bid; every other level of both sides stays |
| OrderBook.AskMirrorsBid | lib/include/OrderBook.h:80-87 | an ask level is a bid level with the two sides swapped |
| OrderBook.InsertedKeepsFirst | lib/include/OrderBook.h:40-49 | `map::insert` of a list of levels adds exactly the listed prices, keeps existing levels, and takes the first size listed for a new price |
| OrderBook.OrderBook.constructor | lib/include/OrderBook.h:29-31 | a new book has no levels and a zero spread |
| OrderBook.OrderBook.FromMaps | lib/include/OrderBook.h:33-38 | the book holds the two maps with their spread |
| OrderBook.OrderBook.FromLevels | lib/include/OrderBook.h:40-49 | the book holds the levels inserted in order, the first size of a price winning, with their spread |
| OrderBook.OrderBook.SetSpread | lib/include/OrderBook.h:20-26 | the spread becomes the lowest ask minus the highest bid, or 0 when a side is empty |
| OrderBook.OrderBook.Reset | lib/include/OrderBook.h:51-56 | both sides empty and the spread 0 |
| OrderBook.OrderBook.AddBidPriceLevel | lib/include/OrderBook.h:71-78 | the sides become `BidLevel` of the old ones and the spread is recomputed |
| OrderBook.OrderBook.AddAskPriceLevel | lib/include/OrderBook.h:80-87 | the sides become `AskLevel` of the old ones and the spread is recomputed |
| OrderBook.OrderBook.GetQuote | lib/include/OrderBook.h:89-96 | with both sides non-empty, the highest bid and the lowest ask with their sizes; otherwise the empty quote |
| OrderBook.OrderBook.BestBid | lib/include/OrderBook.h:98-101 | the highest bid price |
| OrderBook.OrderBook.BestAsk | lib/include/OrderBook.h:103-106 | the lowest ask price |
| OrderBook.QuoteAgreesWithSpread | lib/include/OrderBook.h:20-26 | the quote's ask minus bid is the spread, and the quote is invalid iff the spread is not positive |
| CoinApiTick.EpochIsCalendar | lib/src/CoinAPITick.cpp:51 | `Time(2013, 0, 0, 0, 0, 0)`, month -1 and day 0 of 2013 normalised by the calendar, is 2012-11-30 00:00 UTC |
| CoinApiTick.UniqueId | lib/src/CoinAPITick.cpp:64-82 | within the asserted bounds the packed id is a non-negative number below 2^63 |
| CoinApiTick.UniqueIdFields | lib/src/CoinAPITick.cpp:75-80 | the low 16 bits are the hash, bits 16-23 the exchange id modulo 256, bits 24 and up the milliseconds since the epoch modulo 2^39 |
| CoinApiTick.UniqueIdRoundTrip | lib/src/CoinAPITick.cpp:49-81 | for a trade from the epoch on and an exchange id below 256, `getExchangeId` gives the exchange back and `getTimeStamp` the time at millisecond precision, as the closing debug check expects |
| CoinApiTick.BeforeEpochWraps | lib/src/CoinAPITick.cpp:67-78 | a trade one millisecond before the epoch passes the assertion and its masked time wraps to 2^39 - 1 milliseconds after the epoch |
| CoinApiTick.CoinApiTick.constructor | lib/src/CoinAPITick.cpp:20-24 | the trade keeps its price and size and packs its time, exchange and the 16-bit hash of its UUID |
| CoinApiTick.CoinApiTick.ComputeUniqueId | lib/src/CoinAPITick.cpp:64-82 | the flags become the packed id, whose low 16 bits are the hash and whose exchange field is the exchange id modulo 256 |
| CoinApiTick.CoinApiTick.GetExchangeId | lib/src/CoinAPITick.cpp:55-58 | the exchange id is a byte |
| CoinApiTick.CoinApiTick.GetTimeStamp | lib/src/CoinAPITick.cpp:49-53 | the time stamp is the epoch plus a whole number of milliseconds |
| EnumTables.EnumToString | lib/src/Currency.cpp:11-22 | the name of a value in the asserted range is the table entry at value minus offset, lower-cased on request; `sExchangeToString` (lib/src/exchanges/Exchange.cpp:69-80) is the same function with the exchange offset |
| EnumTables.LastIndex | lib/src/Currency.cpp:30-35 | the search from the end finds the last entry equal to the key, or -1 iff there is none |
| EnumTables.StringToEnum | lib/src/exchanges/Exchange.cpp:82-96 | the upper-cased name is searched from the end of the table: the value of its last entry, or the offset (`NOEXCHANGE`, `UNDEF`) when it is absent; `sStringToCurrency` (lib/src/Currency.cpp:24-38) is the same loop |
| EnumTables.LookupIgnoresCase | lib/src/Currency.cpp:28 | lower- or upper-casing the name does not change the value found |
| EnumTables.NameRoundTrip | lib/src/Currency.cpp:11-38 | over a table of distinct upper-case names, looking up a value's name, in either case, gives the value back |
| EnumTables.UnknownNameIsUndefined | lib/src/Currency.cpp:27-37 | a name missing from the table gives `UNDEF` (-1) for currencies and `NOEXCHANGE` (-2) for exchanges |
| EnumTables.Currency.constructor | lib/include/Currency.h:50 | the object keeps its currency |
| EnumTables.Currency.GetValueUsd | lib/src/Currency.cpp:40-88 | every branch sets and returns the rate 1.0 |
| CurrencyPair.FromString | lib/include/CurrencyPair.h:32-49 | the text is split on '-' if it holds one, else on '/', else cut 3 + 3 when it has six characters, and the two parts looked up; any other text is the invalid-argument error |
| CurrencyPair.ToString | lib/include/CurrencyPair.h:59-68 | the base name, the separator and the quote name, as long as the three together, the whole lower-cased on request |
| CurrencyPair.SameIsEquality | lib/include/CurrencyPair.h:80-82 | `==` holds iff both currencies agree, and is symmetric |
| CurrencyPair.PrintParseRoundTrip | lib/include/CurrencyPair.h:32-68 | for a table of distinct upper-case names without separators, parsing a pair printed with '-' or '/', in either case, gives the pair back |
| CurrencyPair.ToStringParts | lib/include/CurrencyPair.h:59-68 | the printed text is the two names, each in the requested case, around the separator |
| CurrencyPair.ParseSixLetters | lib/include/CurrencyPair.h:43-45 | six separator-free letters parse as their two halves |
| CurrencyPair.ParseSeparated | lib/include/CurrencyPair.h:35-42 | two names joined by '-' or '/' parse as the two names |
| CurrencyPair.BtcUsdExample | tests/SimulatorTest.cpp:24-28 | `CurrencyPair(BTC, USD).toString()` is "BTC-USD" |
| Accounts.Account.SetAvailable | lib/include/Account.h:86-89 | only the available amount changes, to the given non-negative value, and a valid account stays valid |
| Accounts.Account.SetHold | lib/include/Account.h:99-102 | only the held amount changes, to the given non-negative value, and a valid account stays valid |
| Accounts.BalanceBounds | lib/include/Account.h:91-93 | the balance of an account whose setters' asserts held is non-negative and at least each of its parts |
| Accounts.ReleaseKeepsBalance | lib/include/Account.h:86-102 | moving part of the held amount back to available through the two setters keeps the balance and validity |
| Accounts.FirstOverOne | lib/src/ExchangeAccounts.cpp:87-91 | the position of the first share above one, every share before it being at most one |
| Accounts.StoreSharesAtMostOne | lib/src/ExchangeAccounts.cpp:87-94 | storing shares that passed the check leaves every stored share at most one |
| Accounts.StoreSharesKeys | lib/src/ExchangeAccounts.cpp:93 | a currency has a share after storing iff it had one before or an entry's name looks up to it |
| Accounts.ExchangeAccounts.constructor | lib/include/ExchangeAccounts.h:27-30 | a wallet built without a share object holds no accounts and no shares |
| Accounts.ExchangeAccounts.AddAccount | lib/src/ExchangeAccounts.cpp:31-34 | for a currency without an account, the account is stored under its currency and nothing else changes |
| Accounts.ExchangeAccounts.RemoveAccount | lib/src/ExchangeAccounts.cpp:36-39 | for an existing account, exactly that currency's entry is erased |
| Accounts.ExchangeAccounts.ModifyAccount | lib/src/ExchangeAccounts.cpp:77-79 | the account is stored under its currency, replacing any previous one |
| Accounts.ExchangeAccounts.GetAccountShare | lib/src/ExchangeAccounts.cpp:97-101 | the stored share, or 1 when the currency has none, so never above one when the stored shares are not |
| Accounts.ExchangeAccounts.ProcessShares | lib/src/ExchangeAccounts.cpp:81-95 | without a share object nothing changes; otherwise the shares before the first one above one are stored in order, and the result is the share error iff such a share exists |
| Accounts.ExchangeAccounts.StoreEntries | lib/src/ExchangeAccounts.cpp:87-94 | the loop stores the entries up to the first share above one and reports whether it met one |
| Accounts.AddThenRemove | lib/src/ExchangeAccounts.cpp:31-39 | adding an account for a new currency and removing it restores the accounts |
| Arguments.AdmitsKeepsPlainAlone | lib/include/utils/Argument.h:75-88 | adding a secondary admitted by the intended rule keeps "" from standing beside another secondary |
| Arguments.AsWrittenAdmitsPlainBesideOther | lib/include/utils/Argument.h:80-84 | the asserts as written let "" in after "rj", after which "" stands beside it; the intended rule refuses it |
| Arguments.Argument.constructor | lib/include/utils/Argument.h:59-66 | for a long name starting with "--", the argument keeps both names and holds the one given secondary with its description and switch flag |
| Arguments.Argument.AddSecondaryArgAsWritten | lib/include/utils/Argument.h:75-88 | under the two asserts as written, the secondary is stored with its properties and nothing else changes |
| Arguments.Argument.AddSecondaryArg | lib/include/utils/Argument.h:75-88 | the secondary is stored with its properties, and the argument stays valid ("" stays alone) |
| Arguments.HasSecondaryArgsMeaning | lib/include/utils/Argument.h:99-101 | an argument has secondaries iff "" is not among them, and otherwise "" is its only secondary |
| Arguments.IsSwitchAsWritten | lib/include/utils/Argument.h:103-106 | the flag of a known secondary; an unknown one fails the assertion |
| Arguments.Step | lib/include/utils/Argument.h:164-241 | a step that goes on advances past the token it started at and stays within the line; an unknown secondary is reported invalid, the intended outcome (see Findings) |
| Arguments.ParseStep | lib/include/utils/Argument.h:164-243 | processing from a token is that token's calls followed by processing from the next token, or only its calls when it ends processing |
| Arguments.KnownArgumentTokens | lib/include/utils/Argument.h:183-211 | a known name goes on iff its secondary is known and the tokens it wants are there; it then consumes exactly those and makes one call with that secondary and input; otherwise it makes no call, and ends as an invalid argument iff the secondary token is present but unknown, else as an incomplete one |
| Arguments.UnknownSecondary | lib/include/utils/Argument.h:199-210 | an unknown secondary token: `isSwitch` as written fails its assertion, while the step reports the invalid argument with that secondary |
| Arguments.CombinedRightToLeft | lib/include/utils/Argument.h:215-237 | a combined switch is valid iff each letter after the dash names a plain switch, and then it makes one call per letter, from the last letter to the first |
| Arguments.LinkedAfterAdd | lib/include/utils/Argument.h:155-158 | mapping both names of a new valid argument to it keeps every name mapped to an argument whose long and short names both map to it |
| Arguments.ArgumentParser.constructor | lib/include/utils/Argument.h:126 | an empty parser |
| Arguments.ArgumentParser.AddArguments | lib/include/utils/Argument.h:150-161 | when both names map to the same argument or to none: a new argument under both names, or the secondary added to their argument; names of other arguments keep theirs |
| Arguments.ArgumentParser.AddNew | lib/include/utils/Argument.h:155-158 | a fresh argument with the one secondary is stored under both names, and no other name changes |
| Arguments.ArgumentParser.AddToExisting | lib/include/utils/Argument.h:159-160 | the secondary is added to the names' argument, every other argument keeps its secondaries |
| Arguments.ArgumentParser.RunCombined | lib/include/utils/Argument.h:215-237 | the loop over the letters, last to first, makes the calls and gives the validity of the combined switch |
| Arguments.ArgumentParser.StepAt | lib/include/utils/Argument.h:165-241 | the loop body at one token does what one step of processing does, with the intended outcome for an unknown secondary |
| Arguments.ArgumentParser.ProcessArguments | lib/include/utils/Argument.h:163-243 | the calls made, in order, and how processing ends, are those of processing the whole line, with the intended outcome for an unknown secondary |
| Orders.TriggerTypeSymmetry | lib/src/Order.cpp:27-35 | only a market order gets the CURRENT trigger; a buy limit gets MIN and a sell limit MAX; reversing the direction, or a limit for a stop, exchanges MIN and MAX |
| Orders.Adjusted | lib/src/Order.cpp:120-127 | the adjusted amount is the smaller of the amount and the hold |
| Orders.Order.constructor | lib/src/Order.cpp:24-46 | under the asserted positive amount, price and trigger and the asserted side of the trigger, the order keeps its fields, gets the trigger type of its direction and type, is not discarded, has nothing cancelled and no id |
| Orders.Order.AdjustAmount | lib/src/Order.cpp:120-127 | only the amount changes, to the adjusted amount, and a valid order stays valid for a non-negative hold |
| Orders.Order.CancelLimitOrder | lib/src/Order.cpp:85-108 | the amount is adjusted to the held currency's hold; with a hold below 0.000001 nothing else changes; otherwise the adjusted amount becomes the cancelled amount, the amount becomes 0, and a virtual wallet moves it from hold to available; the account's balance never changes |
| Orders.Order.Discard | lib/src/Order.cpp:110-118 | an order executed completely is left alone; any other becomes discarded |
| Exchanges.CancelledMembers | lib/src/exchanges/Exchange.cpp:405-427 | an order is cancelled iff it is a pending limit order of the pair in the requested direction whose cancellation the exchange accepts |
| Exchanges.Exchange.CheckIfIncludedInTradingPairs | lib/src/exchanges/Exchange.cpp:324-331 | true iff some traded pair has the currency as its base or its quote |
| Exchanges.Exchange.CancelLimitOrders | lib/src/exchanges/Exchange.cpp:399-431 | only the cancelled orders grow, by the selected orders whose cancellation succeeds, each of the trigger type of its direction; the result is true iff every selected cancellation succeeds |
| Exchanges.CancelStep | lib/src/exchanges/Exchange.cpp:409-427 | one pending order adds itself to the cancelled orders iff selected and accepted, and fails the result iff selected and refused |
| Exchanges.CancelledTriggers | lib/src/exchanges/Exchange.cpp:416-422 | out of classified orders, the cancelled buys have the MIN trigger and the cancelled sells MAX, so the asserts hold |
| Triggers.IntervalTrigger.constructor | lib/include/triggers/IntervalTrigger.h:21 | the trigger keeps its interval, with no event fired yet |
| Triggers.IntervalTrigger.Init | lib/src/triggers/IntervalTrigger.cpp:15-19 | the previous event time becomes the current time |
| Triggers.IntervalTrigger.CheckForEvent | lib/src/triggers/IntervalTrigger.cpp:21-27 | fires iff the current time has reached the previous event time plus the interval, and then advances that time by exactly one interval, never past the current time |
| Triggers.CatchUp | lib/src/triggers/IntervalTrigger.cpp:21-27 | with n whole intervals between the previous event time and now, more than n checks at that instant fire exactly n times |
| Triggers.TickTrigger.constructor | lib/include/triggers/TickTrigger.h:21 | no tick count is recorded |
| Triggers.TickTrigger.Init | lib/src/triggers/TickTrigger.cpp:17-30 | each history's tick count is recorded under its trading pair, in order, so every pair of the histories is recorded |
| Triggers.TickTrigger.CheckForEvent | lib/src/triggers/TickTrigger.cpp:32-52 | for recorded pairs, every history's count is recorded in order, and the trigger fires iff some history brings a count that differs from the one recorded before it and is at least two |
| Triggers.StoreCountsKeys | lib/src/triggers/TickTrigger.cpp:28 | recording counts keeps every recorded pair and adds the pairs of the histories |
| Triggers.UnchangedCountsDoNothing | lib/src/triggers/TickTrigger.cpp:44-48 | when every count equals the recorded one, nothing is recorded anew and no history brings a new tick |
| Triggers.DistinctPairsCompareWithRecorded | lib/src/triggers/TickTrigger.cpp:44-47 | with one history per pair, a history brings a new tick iff its count differs from the recorded one and is at least two |
| Triggers.StoreCountsElsewhere | lib/src/triggers/TickTrigger.cpp:44-45 | a pair no history names keeps its recorded count, or stays unrecorded |
| Triggers.CandleTrigger.constructor | lib/include/triggers/CandleTrigger.h:21 | no candle count is recorded |
| Triggers.CandleTrigger.Init | lib/src/triggers/CandleTrigger.cpp:17-35 | each history's pair starts afresh from that history's candle counts per interval |
| Triggers.CandleTrigger.CheckForEvent | lib/src/triggers/CandleTrigger.cpp:37-69 | for recorded pairs and intervals, every changed count is recorded in order, and the trigger fires iff some count differs from the one recorded before it and is at least two |
| Triggers.UnchangedDurationsDoNothing | lib/src/triggers/CandleTrigger.cpp:50-63 | counts per interval equal to the recorded ones change nothing and bring no new candle |
| Triggers.UnchangedCandlesDoNothing | lib/src/triggers/CandleTrigger.cpp:56 | when every pair's count per interval equals the recorded one, a check records nothing anew and no history brings a new candle, so the trigger does not fire |
| Triggers.CandleTrigger.StoreHistory | lib/src/triggers/CandleTrigger.cpp:50-65 | the loop over one history's counts changes only that pair's counts, and reports whether one of them is new and at least two |
| Triggers.NewCandleInUnfold | lib/src/triggers/CandleTrigger.cpp:46-64 | a history brings a new candle iff one of its counts is new with respect to its pair's counts recorded before it |
| Triggers.RecordedKeysStay | lib/src/triggers/CandleTrigger.cpp:45 | the pairs asserted to be recorded stay recorded while earlier histories are stored |
| Triggers.StoreCandlesKeys | lib/src/triggers/CandleTrigger.cpp:46-59 | storing candle counts keeps every recorded pair |
| Triggers.GrowingCountsNeverDecrease | lib/src/triggers/CandleTrigger.cpp:56-59 | when changed counts only grow, as the debug assertion expects, no recorded interval is lost and none of its counts decreases |
| Gemini.DetermineSide | lib/src/exchanges/Gemini.cpp:380-411 | the factor is 1 or -1, and 1 exactly for a sell taken or a buy made |
| Gemini.MakerRolesExchange | lib/src/exchanges/Gemini.cpp:387-405 | for two orders the rules can tell apart, exactly one of them is the maker, whichever reports |
| Gemini.BothReportsAgree | lib/src/exchanges/Gemini.cpp:380-411 | the two reports of one buy-against-sell trade give it the same sign |
| Gemini.ExecutionOptionsDecide | lib/src/exchanges/Gemini.cpp:391-400 | between two limit orders, maker-or-cancel makes and immediate-or-cancel (against an order without maker-or-cancel) takes, whatever the ids; without either option the smaller id makes |
| Gdax.RouteTable | lib/src/exchanges/GDAX.cpp:640-653 | the three level-2 types go to the level-2 handler, "heartbeat", "ticker" and "match" each to their own, the five other order-channel types to the orders handler ("match" never), and every other type is ignored |
| Gdax.MatchSize | lib/src/exchanges/GDAX.cpp:796 | the size is negated for a sell and kept otherwise |
| Gdax.MatchSizeSign | lib/src/exchanges/GDAX.cpp:796 | a positive size becomes negative exactly for a sell, with its magnitude kept |
| Gdax.TooManyCandlesMeaning | lib/src/exchanges/GDAX.cpp:490-493 | for a forward range and a positive granularity, the request is refused iff the range spans at least 201 whole candles |
| Gdax.ApplyChangesAppend | lib/src/exchanges/GDAX.cpp:900-907 | applying two batches of changes is applying their concatenation |
| Gdax.OtherSidesIgnored | lib/src/exchanges/GDAX.cpp:901-906 | changes that are neither "buy" nor "sell" leave the book as it is |
| Gdax.BuyChangesSetBids | lib/src/exchanges/GDAX.cpp:901-903 | buy changes of non-zero size leave the asks alone, and a price has a bid level afterwards iff it had one or a change names it |
| Gdax.ProcessLevel2 | lib/src/exchanges/GDAX.cpp:861-917 | a snapshot leaves the book its bid levels, then its ask levels, applied to an empty book; an l2update applies its changes in order to the book; the book stays valid |
| Gdax.AddBidLevels | lib/src/exchanges/GDAX.cpp:879-882 | the loop sets the snapshot's bid levels in order |
| Gdax.AddAskLevels | lib/src/exchanges/GDAX.cpp:884-887 | the loop sets the snapshot's ask levels in order |
| Gdax.AddChanges | lib/src/exchanges/GDAX.cpp:900-907 | the loop applies each change in order: a bid level for "buy", an ask level for "sell", nothing otherwise |
| Controllers.RaisedIsMax | lib/src/Controller.cpp:770-777 | the raised controller time is at least the old one and every exchange's time, and is one of them |
| Controllers.Controller.constructor | lib/src/Controller.cpp:23-51 | every exchange starts with an empty price table, the start time is adjusted to the minimum interval (end time and history moved alike) and the controller time starts there |
| Controllers.Controller.GetControllerTime | lib/src/Controller.cpp:765-777 | only the controller time changes: raised to each exchange's time (its simulation time unless the mode is real), and returned |
| Controllers.Controller.AdjustTimeAndCheckForIntervalEvents | lib/src/Controller.cpp:928-946 | the controller time is raised and then steps, first to the next multiple of the interval, then by whole intervals, while the quantized tick time is a whole interval ahead; the steps are the interval events, in order, one interval apart, none after the quantized tick time, and the controller time ends within an interval of it |
| Controllers.Controller.AdjustStartTime | lib/src/Controller.cpp:914-926 | the start time becomes a multiple of the interval, moved forward by less than one interval and not at all when already aligned, and end time and history move by the same amount |
| Controllers.Controller.GetCurrentPrice | lib/src/Controller.cpp:755-763 | the latest price of the exchange and currency, or -1 when either has none |
| Controllers.Controller.CheckIfCurrentRunEnded | lib/src/Controller.cpp:686-698 | true iff every exchange's time (simulation time unless the mode is real) has reached the end time |
| Controllers.MultipleHasNoRemainder | lib/src/Controller.cpp:916-917 | a whole number of intervals leaves no remainder |
| Controllers.IntervalEventsAligned | lib/src/Controller.cpp:936-944 | interval events that start at the multiple after a time and follow each other by one interval all fall on multiples of the interval |
| Controllers.NextMultiple | lib/src/Controller.cpp:941-942 | one interval after a multiple of the interval is another multiple |
| Controllers.AbsentPriceIsNegative | lib/src/Controller.cpp:755-763 | with no negative price stored, the price is negative iff the exchange or the currency has none |
| Controllers.ReplayPending | lib/src/Controller.cpp:1033-1057 | a replay that succeeds leaves an order pending iff it was pending and no line is about it, or the last line about it places it |
| Controllers.ReplayLineEffect | lib/src/Controller.cpp:1037-1057 | a line that applies leaves its order pending iff it places it, and changes nothing for other orders |
| Controllers.ReplayOrderLog | lib/src/Controller.cpp:1022-1058 | without an order log nothing is pending; otherwise the lines are replayed in order from no pending order, failing at the first line with a wrong field count, a placed order placed again, a cancelled order not pending or an unknown status |
| TradeAlgos.GcdDivides | lib/src/tradeAlgos/TradeAlgo.cpp:186 | on non-negative arguments the gcd is non-negative, zero only for two zeros, and otherwise divides both |
| TradeAlgos.GcdGreatest | lib/src/tradeAlgos/TradeAlgo.cpp:186 | every positive common divisor of two non-negative numbers divides their gcd |
| TradeAlgos.FoldIsGcd | lib/src/tradeAlgos/TradeAlgo.cpp:180-187 | folding positive intervals from zero gives zero for none, and otherwise a positive value dividing each of them |
| TradeAlgos.FoldIsGreatest | lib/src/tradeAlgos/TradeAlgo.cpp:180-187 | every positive common divisor of the intervals divides their fold |
| TradeAlgos.MinIntervalIsGcd | lib/src/tradeAlgos/TradeAlgo.cpp:177-201 | over positive intervals, the minimum interval is zero iff there are no candle intervals and no interval triggers, and otherwise the greatest common divisor of the candle intervals and the interval triggers' intervals |
| TradeAlgos.DedupDistinct | lib/src/tradeAlgos/TradeAlgo.cpp:90-91 | the deduplicated list holds no element twice |
| TradeAlgos.DedupFirstSeen | lib/src/tradeAlgos/TradeAlgo.cpp:105-116 | deduplicated callbacks keep the order of their first occurrences |
| TradeAlgos.MaturedByEvent | lib/src/tradeAlgos/TradeAlgo.cpp:71-92 | an interval event matures exactly NEW_INTERVAL when the algorithm has an interval trigger and nothing otherwise; any other event never matures NEW_INTERVAL |
| TradeAlgos.MaturedKinds | lib/src/tradeAlgos/TradeAlgo.cpp:71-92 | the matured kinds are distinct and are exactly the kinds of the triggers the event checks |
| TradeAlgos.CallbackList | lib/src/tradeAlgos/TradeAlgo.cpp:97-119 | the callbacks called are distinct, are exactly those of the triggers that fired, and come in the order first met trigger after trigger |
| TradeAlgos.CheckTriggers | lib/src/tradeAlgos/TradeAlgo.cpp:71-92 | a trigger fired iff the event checks its kind and it answered true, and the matured kinds are the checked kinds each kept once in order |
| TradeAlgos.AlreadyAdded | lib/src/tradeAlgos/TradeAlgo.cpp:107-114 | the search finds the callback iff it was added |
| TradeAlgos.CollectCallbacks | lib/src/tradeAlgos/TradeAlgo.cpp:97-119 | the collected callbacks are those of the fired triggers, trigger after trigger, each kept at its first occurrence |
| TradeAlgos.AddCallbacks | lib/src/tradeAlgos/TradeAlgo.cpp:105-117 | adding one trigger's callbacks to a deduplicated list gives the deduplication of the callbacks so far |
| TradeAlgos.RunningMeanBounded | lib/src/tradeAlgos/TradeAlgo.cpp:134-135 | the truncated running mean stays within any bounds holding the previous mean and the new sample |
| TradeAlgos.FirstMeanIsSample | lib/src/tradeAlgos/TradeAlgo.cpp:134-135 | the mean of the first sample is that sample |
| TradeAlgos.MaxSeenBounds | lib/src/tradeAlgos/TradeAlgo.cpp:132 | the kept maximum is at least every sample and is one of them or zero |
| TradeAlgos.SummaryStep | lib/src/tradeAlgos/TradeAlgo.cpp:130-144 | one more sample keeps the statistics a summary of the samples: count, a mean between the smallest sample and the maximum, and the maximum |
| TradeAlgos.TradeAlgo.constructor | lib/src/tradeAlgos/TradeAlgo.cpp:27-38 | no triggers and every count, mean and maximum zero |
| TradeAlgos.TradeAlgo.InitTrigger | lib/src/tradeAlgos/TradeAlgo.cpp:162-166 | the trigger, with its callbacks, is appended and nothing else changes |
| TradeAlgos.TradeAlgo.GetMinInterval | lib/src/tradeAlgos/TradeAlgo.cpp:177-201 | the candle intervals folded first, then the interval triggers' intervals, each zero accumulator replaced by the next interval and otherwise combined by the gcd |
| TradeAlgos.TradeAlgo.CheckForEvent | lib/src/tradeAlgos/TradeAlgo.cpp:56-145 | the matured kinds and the callbacks called are those above; the check statistics take the check time as one more sample, the callback statistics take the callback time only when some callback is called, and the statistics keep summarising their samples |
| TradeAlgos.TradeAlgo.RecordCheck | lib/src/tradeAlgos/TradeAlgo.cpp:130-135 | only the check statistics change: one more check, the running mean and the maximum updated |
| TradeAlgos.TradeAlgo.RecordEvent | lib/src/tradeAlgos/TradeAlgo.cpp:139-144 | only the callback statistics change: one more event, the running mean and the maximum updated |
| TradeAlgos.DedupElements | lib/src/tradeAlgos/TradeAlgo.cpp:90-91 | deduplication keeps exactly the elements of its input |
| TradeAlgos.FiredCallbacksMembers | lib/src/tradeAlgos/TradeAlgo.cpp:104-105 | a callback is among those of the fired triggers iff some fired trigger has it |
| DataTypes.SameIsEquality | lib/include/DataTypes.h:30-41 | `==` holds iff date, time and id all agree, and `!=` is its negation |
| DataTypes.LessIsStrictOrder | lib/include/DataTypes.h:36-38 | `<` is irreflexive, asymmetric and transitive |
| DataTypes.GreaterMirrorsLess | lib/include/DataTypes.h:24-38 | `>` and `>=` are `<` and `<=` with their arguments exchanged |
| DataTypes.GreaterTransitive | lib/include/DataTypes.h:24-26 | `>` is transitive |
| DataTypes.LessEqWeakensLess | lib/include/DataTypes.h:27-38 | `<` and `==` each imply `<=`, and `==` implies `>=` |
| DataTypes.NotTotal | lib/include/DataTypes.h:24-38 | an earlier key with a larger id is neither below, above nor equal to the other |
| DataTypes.LessEqNotAntisymmetric | lib/include/DataTypes.h:30-35 | two spellings of one moment with one id are each `<=` the other without being `==` |
| Database.OccurrencesAppend | lib/src/Database.cpp:99-124 | the count of a character in a concatenation is the sum of its counts in the parts |
| Database.TableNameParts | lib/src/Database.cpp:62-66 | the table name is the base name, "_", the quote name, "_" and the exchange name, lower-cased on request, and then holds no capital letter |
| Database.CreateTableKey | lib/src/Database.cpp:69-93 | the create statement ends with the primary-key clause, which lists date and time, then the unique id when there is one |
| Database.PlaceholderCount | lib/src/Database.cpp:120-124 | n placeholders hold n question marks separated by n - 1 commas |
| Database.ColumnNamesCommas | lib/src/Database.cpp:113-116 | each field name without a comma adds exactly one comma to the column list |
| Database.InsertColumnsMatchValues | lib/src/Database.cpp:99-124 | with names without commas, the insert lists as many columns as it has placeholders: date, time, the unique id when there is one, and every field |
| Database.InsertEnding | lib/src/Database.cpp:124-129 | the insert ends with ") IF NOT EXISTS;" iff the existence check is asked for, and with ");" otherwise |
| Database.SelectBounds | lib/src/Database.cpp:137-155 | with a unique id the lower bound reads ">=" iff asked inclusive and the upper bound "<=" iff asked inclusive; without one the flags are ignored and the range is inclusive below, exclusive above |
| Database.CountTrueBounds | lib/src/Database.cpp:370-384 | the rows counted as added are at most the rows, and all of them iff every insert succeeded |
| Database.WidenMaxBounds | lib/src/Database.cpp:370-384 | the widened maximum is the old one or a successful row's key, is the old one or `>` it, and no successful row's key is `>` it |
| Database.WidenMinBounds | lib/src/Database.cpp:370-384 | the widened minimum is the old one or a successful row's key, is the old one or `<` it, and no successful row's key is `<` it |
| Database.FailedRowsIgnored | lib/src/Database.cpp:371-381 | the keys of rows whose insert failed do not affect the widened bounds |
| Database.Table.constructor | lib/src/Database.cpp:31-53 | the table is keySpace.name, with the create, insert (no existence check) and select (inclusive below, exclusive above) statements built for its fields and five primary-key fields with a unique id, three without |
| Database.Table.GenerateCreateTableQuery | lib/src/Database.cpp:69-93 | only the create statement changes, to the one built for the table |
| Database.Table.GenerateInsertQuery | lib/src/Database.cpp:96-134 | only the insert statement changes, to the one built for the table and the existence check |
| Database.Table.GenerateSelectQuery | lib/src/Database.cpp:137-155 | only the select statement changes, to the one built for the table and the two bounds |
| Database.Table.UpdateMetadata | lib/src/Database.cpp:359-406 | the result counts the successful inserts; with `checkIfExists` the stored bounds widen over the successful rows' keys and the entry count grows by the result, otherwise the metadata stay |
| Database.PlaceholderList | lib/src/Database.cpp:120-124 | the loop writes n "?," pairs, whose text without the last comma is the placeholder list |
| Volume.FromAmount | lib/include/utils/Volume.h:25-33 | a signed amount becomes a non-negative volume with at most one side non-zero |
| Volume.FromAmountRoundTrip | lib/include/utils/Volume.h:25-37 | buying minus selling gives the signed amount back, and the total volume is its magnitude |
| Volume.AddSubParts | lib/include/utils/Volume.h:55-67 | adding volumes adds their totals and their signed amounts, subtracting what was added gives the volume back, and non-negative volumes add to a non-negative one |
| Volume.EqualityKinds | lib/include/utils/Volume.h:100-121 | equal volumes have equal totals, but a volume can equal another's total amount without being equal to it |
| Volume.MixedVolumeExample | tests/BasicTest.cpp:85-98 | 1.3 plus -1.5 has buy volume 1.3 and sell volume 1.5, and equals the amounts 1.3, 1.5 and 2.8 as the test expects |

## Left out

- Network I/O is not modelled: REST and websocket transport, exchange authentication, and the order cancellation request itself. `Exchanges.Exchange.CancelLimitOrders` takes the set of order ids whose cancellation succeeds as a parameter.
- The Cassandra driver is not modelled: statement execution, result iteration, the delete query and loading the metadata object. `Database.Table.constructor` takes the stored row count and key bounds as parameters, where the source starts them at zero and reads them from the database.
- Threads, mutexes and the concurrent queue are not modelled; only the sequential logic is.
- Logging and the error macros are not modelled. An error that ends the program becomes an error value of a `Result`.
- A failed C++ `assert` becomes a precondition. A debug-only `ASSERT` is stated as a predicate, such as `Triggers.Grows`, and not enforced.
- Floating-point candle statistics are not modelled: mean, deviation, and open/high/low prices. Candles carry a timestamp, a closing price and a volume. The mean of a smaller candle, which sets the close of the candle it is merged into, is the parameter `mean` of the smaller-candle append. Prices and amounts are exact reals, so double rounding is not modelled.
- 64-bit integer overflow of timestamps and durations is not modelled. The one place where the width matters, the 39-bit millisecond field of the CoinAPI id, is written out as arithmetic modulo 2^39 (`CoinApiTick.BeforeEpochWraps`).
- The system `timegm`, `sscanf` and the format regex of the ISO parser are not modelled. Whether the format matched and whether `timegm` overflowed are parameters of `TimeUtils.IsoTimestamp`. The conversion itself is the repository's own `my_timegm` formula.
- C `round` on the fraction of a second is modelled as floor of x + 0.5. The two agree because the fraction is never negative.
- The random number generator of the hex-string generator is not modelled. The indices it would draw are the parameter `draws` of `StringUtils.HexGenerator.Generate`.
- The currency and exchange name tables are generated at build time. They are parameters (`table`) of the conversions.
- Callbacks are not invoked. The argument parser returns the list of calls it makes, and the trade algorithm returns the callbacks it collected.
- Trigger outcomes and clock readings are parameters of `TradeAlgos.TradeAlgo.CheckForEvent`. The wall-clock timing of checks and callbacks is given as sample durations. The algorithm's `init`, `registerIndicator`, CSV dumps and run-time statistics printing are not modelled.
- Tick and candle histories reach the triggers as their counts per trading pair, and per interval for candles. The 32-bit truncation of those counts is not modelled.
- `Triggers.IntervalTrigger.constructor` takes an initial previous-event time, where the source leaves it unset until `init`.
- The pending-order maps of the controller are iterated in an unspecified order in the source. `Controllers.ReplayOrderLog` takes the order log as lines already split into CSV fields; reading the file is I/O.
- The start-time range check of the controller is not modelled because it compares against the wall clock. Neither is the sleep until the adjusted start in `adjustStartTime`.
- `getBidList` and `getAskList` of the order book only copy the maps; they are not modelled.
- GDAX `processMatch` also overwrites the maker order id with the taker order id. That field is not read afterwards and is not modelled; only the sign of the size is. The re-population of an invalid quote over REST is not modelled.
- TradeAlgos.GcdDivides: stated for non-negative arguments only; every interval the algorithm folds is a positive duration.
- TradeAlgos.GcdGreatest: stated for non-negative arguments only, for the same reason.
- Arguments.ArgumentParser.AddArguments: requires the intended rule `Arguments.Admits` for secondary arguments. The as-written asserts are modelled by `Arguments.Argument.AddSecondaryArgAsWritten` (see Findings).
- TraderUtils.UuidHash: reads each piece as the value of its leading hex digits. The leading whitespace, '+' sign and "0x" prefix that the source's stream extraction also accepts are not modelled; on UUIDs made of hex digits the two agree (`TraderUtils.HexPrefixOfHexDigits`).
- TraderUtils.UuidHashOf: the same piece reading as `TraderUtils.UuidHash`, with the same stream-extraction cases not modelled.
- StringUtils.HexGenerator.Generate: its deterministic branch is the corrected base-six id of `StringUtils.BaseSixLetters`. The source's arithmetic, which can leave the hex alphabet, is `StringUtils.DeterministicAsWritten` (see Findings).
- Arguments.Step: reports a known argument followed by an unknown secondary as an invalid argument. The source's `isSwitch` assert fails first there; that is `Arguments.IsSwitchAsWritten` (see Findings).
- Arguments.ArgumentParser.StepAt: carries the outcome of `Arguments.Step` for an unknown secondary, where the source's assert fails.
- Arguments.ArgumentParser.ProcessArguments: carries the outcome of `Arguments.Step` for an unknown secondary, where the source's assert fails.
- CandlePeriod.CandlePeriod.AppendTick: models timestamps, the closing price and the volume of the candles it creates. It does not model the statistics the source also updates.

## Findings

| source | as written | input that shows it | evidently intended | confidence | as-written member | corrected member |
|---|---|---|---|---|---|---|
| lib/src/CandlePeriod.cpp:320-324 | `appendSmallerCandle` on an empty period stores the candle at its own timestamp, but later candles are placed at quantized starts | a 10-wide period, smaller interval 5, candles at 5 then 15: the period holds starts 5 and 10, which are not one interval apart | the first candle is placed at the quantized start of its interval, so the period stays a run of candles one interval apart | not executed | CandlePeriod.SmallerCandleAsWrittenExample | CandlePeriod.SmallerCandleCorrectedExample |
| lib/src/utils/StringUtils.cpp:50 | the deterministic identifier adds `offset / 6^(n-idx-1)` to 'a' without reducing it modulo 6 | offset 6, length 2 gives "bg"; 'g' is not a hex digit | each position is a base-6 digit, so every character is in 'a'..'f' and distinct offsets below 6^n give distinct strings | not executed | StringUtils.AsWrittenLeavesHexAlphabet | StringUtils.BaseSixLettersInjective |
| lib/src/CandlePeriod.cpp:278 | the deque constructor assigns the checked queue to a temporary copy made by `static_cast<deque<C>>(*this)` | any non-empty contiguous queue: the period stays empty while its first and last timestamps are set | the period holds the queue it was built from | not executed | CandlePeriod.CandlePeriod.FromCandlesAsWritten | CandlePeriod.CandlePeriod.FromCandles |
| lib/include/utils/Argument.h:75-88 | `addSecondaryArg` asserts that "" is absent once secondaries exist, but lets "" itself be added after another secondary | secondary "rj" then "": both asserts hold, and "" stands beside "rj" | "" is only admitted as the first and only secondary | not executed | Arguments.AsWrittenAdmitsPlainBesideOther | Arguments.AdmitsKeepsPlainAlone |
| lib/include/utils/Argument.h:199-210 | an unknown secondary token reaches `isSwitch`, whose assert fails before the invalid-argument error is reported | an argument with secondaries followed by a token that is none of them | the invalid-argument error is reported | not executed | Arguments.UnknownSecondary | Arguments.KnownArgumentTokens |
