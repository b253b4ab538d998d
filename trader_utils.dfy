/**
 * Utility routines of the trading bot: the portable `timegm` replacement,
 * trimming spaces around CSV fields, splitting a CSV line, hashing a UUID
 * down to a few bits by XOR, and splitting a millisecond timestamp into
 * a day number and a time of day.
 */
module TraderUtils {

  import opened Wrappers
  import StringUtils

  // ---------------------------------------------------------------------
  // my_timegm
  // ---------------------------------------------------------------------

  /** Days before the first of each month of a common year. */
  const CumDays: seq<int> := [0, 31, 59, 90, 120, 151, 181, 212, 243, 273, 304, 334]

  /** Gregorian leap year, written with the C remainder as the source does. */
  predicate IsLeap(year: int)
  {
    CMod(year, 4) == 0 && (CMod(year, 100) != 0 || CMod(year, 400) == 0)
  }

  /**
   * `my_timegm`: seconds since the Unix epoch of a broken-down UTC time.
   * `tmYear` counts from 1900 and `tmMon` from 0; months beyond 11 roll
   * into later years. A negative month would index before the month table,
   * so the source's callers must not pass one.
   */
  function MyTimegm(tmYear: int, tmMon: int, tmMday: int, tmHour: int, tmMin: int, tmSec: int, isDst: int): int
    requires tmMon >= 0
  {
    var year := 1900 + tmYear + CDiv(tmMon, 12);
    var mon := CMod(tmMon, 12);
    var days := (year - 1970) * 365 + CumDays[mon]
                + CDiv(year - 1968, 4) - CDiv(year - 1900, 100) + CDiv(year - 1600, 400)
                - (if IsLeap(year) && mon < 2 then 1 else 0)
                + tmMday - 1;
    ((days * 24 + tmHour) * 60 + tmMin) * 60 + tmSec - (if isDst == 1 then 3600 else 0)
  }

  // An independent calendar: whole years and months counted one by one.

  function YearLength(y: int): int { if IsLeap(y) then 366 else 365 }

  function MonthLength(y: int, m: int): int
  {
    if m == 1 then (if IsLeap(y) then 29 else 28)
    else if m == 3 || m == 5 || m == 8 || m == 10 then 30
    else 31
  }

  /** Days from 1970-01-01 to January 1st of year `y`. */
  function DaysBeforeYear(y: int): int
    requires y >= 1970
    decreases y
  {
    if y == 1970 then 0 else DaysBeforeYear(y - 1) + YearLength(y - 1)
  }

  /** Days from January 1st to the first of month `m` (0-based). */
  function DaysBeforeMonth(y: int, m: int): int
    requires 0 <= m <= 12
  {
    if m == 0 then 0 else DaysBeforeMonth(y, m - 1) + MonthLength(y, m - 1)
  }

  function CalendarSeconds(year: int, mon: int, mday: int, hour: int, min: int, sec: int): int
    requires year >= 1970 && 0 <= mon < 12
  {
    (((DaysBeforeYear(year) + DaysBeforeMonth(year, mon) + mday - 1) * 24 + hour) * 60 + min) * 60 + sec
  }

  /** For a non-negative `a`, `(a+1)/k - a/k` is one exactly when `k` divides `a+1`. */
  lemma StepDiv(a: int, k: int)
    requires a >= 0 && k > 0
    ensures (a + 1) / k - a / k == if (a + 1) % k == 0 then 1 else 0
  {
    var q, r := a / k, a % k;
    if r == k - 1 {
      DivUnique(a + 1, k, q + 1, 0);
    } else {
      DivUnique(a + 1, k, q, r + 1);
    }
  }

  function LeapTerms(y: int): int
  {
    CDiv(y - 1968, 4) - CDiv(y - 1900, 100) + CDiv(y - 1600, 400)
  }

  /** One of the three leap terms grows by one exactly when `k` divides the new year. */
  lemma TermStep(y: int, base: int, k: int)
    requires k > 0 && base >= 0 && y >= base && base % k == 0
    ensures CDiv(y + 1 - base, k) - CDiv(y - base, k) == if CMod(y + 1, k) == 0 then 1 else 0
  {
    StepDiv(y - base, k);
    CDivNatural(y - base, k);
    CDivNatural(y + 1 - base, k);
    CDivNatural(y + 1, k);
    var c := base / k;
    assert base == c * k;
    assert y + 1 - base == ((y + 1) / k - c) * k + (y + 1) % k by {
      assert y + 1 == (y + 1) / k * k + (y + 1) % k;
      assert ((y + 1) / k - c) * k == (y + 1) / k * k - c * k;
    }
    DivUnique(y + 1 - base, k, (y + 1) / k - c, (y + 1) % k);
  }

  lemma LeapTermsStep(y: int)
    requires y >= 1970
    ensures LeapTerms(y + 1) - LeapTerms(y) == if IsLeap(y + 1) then 1 else 0
  {
    TermStep(y, 1968, 4);
    TermStep(y, 1900, 100);
    TermStep(y, 1600, 400);
    DivisorChain(y + 1);
  }

  /** A multiple of 400 is a multiple of 100, and a multiple of 100 one of 4. */
  lemma DivisorChain(x: int)
    requires x >= 0
    ensures CMod(x, 400) == 0 ==> CMod(x, 100) == 0
    ensures CMod(x, 100) == 0 ==> CMod(x, 4) == 0
  {
    CDivNatural(x, 400);
    CDivNatural(x, 100);
    CDivNatural(x, 4);
    if x % 400 == 0 {
      DivUnique(x, 100, x / 400 * 4, 0);
    }
    if x % 100 == 0 {
      DivUnique(x, 4, x / 100 * 25, 0);
    }
  }

  /** The closed form for whole years used by `my_timegm` counts the same days. */
  lemma {:induction false} YearFormula(y: int)
    requires y >= 1970
    ensures (y - 1970) * 365 + LeapTerms(y) - (if IsLeap(y) then 1 else 0) == DaysBeforeYear(y)
    decreases y
  {
    if y == 1970 {
      assert LeapTerms(1970) == 0;
    } else {
      YearFormula(y - 1);
      LeapTermsStep(y - 1);
    }
  }

  /** The month table plus the leap correction agrees with month-by-month counting. */
  lemma {:induction false} MonthFormula(y: int, m: int)
    requires 0 <= m < 12
    ensures CumDays[m] + (if IsLeap(y) && m >= 2 then 1 else 0) == DaysBeforeMonth(y, m)
  {
    if m > 0 {
      MonthFormula(y, m - 1);
      assert m == 1 || m == 2 || m == 3 || m == 4 || m == 5 || m == 6 || m == 7 || m == 8 || m == 9 || m == 10 || m == 11;
    }
  }

  /**
   * `my_timegm` agrees with the day-by-day calendar for every in-range
   * month of a year from 1970 on: the leap-day correction is applied
   * only in January and February of a leap year.
   */
  lemma MyTimegmIsCalendar(year: int, tmYear: int, tmMon: int, tmMday: int, tmHour: int, tmMin: int, tmSec: int)
    requires year >= 1970 && tmYear == year - 1900 && 0 <= tmMon < 12
    ensures MyTimegm(tmYear, tmMon, tmMday, tmHour, tmMin, tmSec, 0)
         == CalendarSeconds(year, tmMon, tmMday, tmHour, tmMin, tmSec)
  {
    CDivNatural(tmMon, 12);
    assert CDiv(tmMon, 12) == 0 && CMod(tmMon, 12) == tmMon;
    YearFormula(year);
    MonthFormula(year, tmMon);
  }

  /** Daylight saving time moves the result back by one hour and nothing else. */
  lemma MyTimegmDst(tmYear: int, tmMon: int, tmMday: int, tmHour: int, tmMin: int, tmSec: int)
    requires tmMon >= 0
    ensures MyTimegm(tmYear, tmMon, tmMday, tmHour, tmMin, tmSec, 1)
         == MyTimegm(tmYear, tmMon, tmMday, tmHour, tmMin, tmSec, 0) - 3600
  {
  }

  // ---------------------------------------------------------------------
  // removeSpaces
  // ---------------------------------------------------------------------

  datatype Failure = OutOfRange

  function LeadingSpaces(s: string): (n: nat)
    ensures n <= |s|
  {
    if s == [] || s[0] != ' ' then 0 else 1 + LeadingSpaces(s[1..])
  }

  function TrailingSpaces(s: string): (n: nat)
    ensures n <= |s|
  {
    if s == [] || s[|s| - 1] != ' ' then 0 else 1 + TrailingSpaces(s[..|s| - 1])
  }

  lemma {:induction false} LeadingSpacesAre(s: string)
    ensures forall k :: 0 <= k < LeadingSpaces(s) ==> s[k] == ' '
    ensures LeadingSpaces(s) < |s| ==> s[LeadingSpaces(s)] != ' '
  {
    if s != [] && s[0] == ' ' {
      LeadingSpacesAre(s[1..]);
    }
  }

  lemma {:induction false} TrailingSpacesAre(s: string)
    ensures forall k :: |s| - TrailingSpaces(s) <= k < |s| ==> s[k] == ' '
    ensures TrailingSpaces(s) < |s| ==> s[|s| - 1 - TrailingSpaces(s)] != ' '
  {
    if s != [] && s[|s| - 1] == ' ' {
      TrailingSpacesAre(s[..|s| - 1]);
    }
  }

  /** What `removeSpaces` returns: the empty string as is, an all-space
    * string an out-of-range error, anything else without the spaces
    * around it. */
  function RemoveSpacesOf(word: string): Result<string, Failure>
  {
    if word == [] then Ok([])
    else if LeadingSpaces(word) == |word| then Err(OutOfRange)
    else
      var rest := word[LeadingSpaces(word)..];
      Ok(rest[..|rest| - TrailingSpaces(rest)])
  }

  /** The trimmed word is a slice of the input with only spaces around it,
    * and has no space at either end; an error comes exactly from a blank word. */
  lemma RemoveSpacesOfTrims(word: string)
    ensures RemoveSpacesOf(word).Err? <==> word != [] && forall k :: 0 <= k < |word| ==> word[k] == ' '
    ensures word == [] ==> RemoveSpacesOf(word) == Ok([])
    ensures RemoveSpacesOf(word).Ok? && word != [] ==>
      var r := RemoveSpacesOf(word).value;
      r != [] && r[0] != ' ' && r[|r| - 1] != ' ' &&
      exists i :: SpacedSlice(word, i, r)
  {
    LeadingSpacesAre(word);
    if word != [] && LeadingSpaces(word) < |word| {
      var i := LeadingSpaces(word);
      var rest := word[i..];
      TrailingSpacesAre(rest);
      var r := rest[..|rest| - TrailingSpaces(rest)];
      assert rest[0] != ' ';
      assert TrailingSpaces(rest) < |rest|;
      assert r == word[i..i + |r|];
      assert forall k :: i + |r| <= k < |word| ==> word[k] == rest[k - i];
      assert SpacedSlice(word, i, r);
    }
  }

  /** `r` sits at position `i` of `word` with nothing but spaces around it. */
  predicate SpacedSlice(word: string, i: int, r: string)
  {
    0 <= i <= |word| - |r| && word[i..i + |r|] == r &&
    (forall k :: 0 <= k < i ==> word[k] == ' ') &&
    (forall k :: i + |r| <= k < |word| ==> word[k] == ' ')
  }

  /** `removeSpaces` with its two loops: drop leading spaces, then, when
    * two or more characters are left, trailing ones. */
  method RemoveSpaces(word: string) returns (r: Result<string, Failure>)
    ensures r == RemoveSpacesOf(word)
  {
    if |word| == 0 {
      return Ok(word);
    }
    var w := word;
    ghost var dropped := 0;
    while w[0] == ' '
      invariant 0 <= dropped < |word| && w == word[dropped..]
      invariant forall k :: 0 <= k < dropped ==> word[k] == ' '
      decreases |w|
    {
      if |w| == 1 {
        LeadingSpacesExactly(word, |word|);
        return Err(OutOfRange);
      }
      w := w[1..];
      dropped := dropped + 1;
    }
    LeadingSpacesExactly(word, dropped);
    if |w| < 2 {
      TrailingSpacesExactly(w, |w|);
      assert w[..|w|] == w;
      return Ok(w);
    }
    ghost var rest := w;
    ghost var kept := |w|;
    while w[|w| - 1] == ' '
      invariant 0 < kept <= |rest| && w == rest[..kept]
      invariant forall k :: kept <= k < |rest| ==> rest[k] == ' '
      decreases |w|
    {
      w := w[..|w| - 1];
      kept := kept - 1;
    }
    TrailingSpacesExactly(rest, kept);
    return Ok(w);
  }

  /** Leading spaces are counted exactly: `i` spaces followed by the end or
    * by another character. */
  lemma {:induction false} LeadingSpacesExactly(s: string, i: nat)
    requires i <= |s| && forall k :: 0 <= k < i ==> s[k] == ' '
    requires i == |s| || s[i] != ' '
    ensures LeadingSpaces(s) == i
  {
    if i > 0 {
      LeadingSpacesExactly(s[1..], i - 1);
    }
  }

  lemma {:induction false} TrailingSpacesExactly(s: string, kept: nat)
    requires kept <= |s| && forall k :: kept <= k < |s| ==> s[k] == ' '
    requires kept == 0 || s[kept - 1] != ' '
    ensures TrailingSpaces(s) == |s| - kept
  {
    if kept < |s| {
      TrailingSpacesExactly(s[..|s| - 1], kept);
    }
  }

  // ---------------------------------------------------------------------
  // parseCSVLine
  // ---------------------------------------------------------------------

  /** The raw fields of a CSV line after the partial field `cur`: every comma
    * closes a field, and whatever follows the last comma is one more field. */
  function CsvFieldsFrom(s: string, cur: string): (fs: seq<string>)
    ensures |fs| >= 1
  {
    if s == [] then [cur]
    else if s[0] == ',' then [cur] + CsvFieldsFrom(s[1..], [])
    else CsvFieldsFrom(s[1..], cur + [s[0]])
  }

  function CsvFields(line: string): seq<string> { CsvFieldsFrom(line, []) }

  function Count(s: string, c: char): nat
  {
    if s == [] then 0 else (if s[0] == c then 1 else 0) + Count(s[1..], c)
  }

  /** A line with `n` commas has `n + 1` fields, none holding a comma, and
    * joining them with commas gives the line back. */
  lemma {:induction false} CsvFieldsFromShape(s: string, cur: string)
    requires ',' !in cur
    ensures |CsvFieldsFrom(s, cur)| == Count(s, ',') + 1
    ensures forall f :: f in CsvFieldsFrom(s, cur) ==> ',' !in f
    ensures StringUtils.Join(CsvFieldsFrom(s, cur), ',') == cur + s
  {
    if s == [] {
      assert cur + s == cur;
    } else if s[0] == ',' {
      var rest := CsvFieldsFrom(s[1..], []);
      CsvFieldsFromShape(s[1..], []);
      assert ([cur] + rest)[1..] == rest;
      assert [] + s[1..] == s[1..];
      assert cur + s == cur + [','] + s[1..];
    } else {
      CsvFieldsFromShape(s[1..], cur + [s[0]]);
      assert cur + [s[0]] + s[1..] == cur + s;
    }
  }

  lemma CsvFieldsShape(line: string)
    ensures |CsvFields(line)| == Count(line, ',') + 1
    ensures forall f :: f in CsvFields(line) ==> ',' !in f
    ensures StringUtils.Join(CsvFields(line), ',') == line
  {
    CsvFieldsFromShape(line, []);
    assert [] + line == line;
  }

  /** Trim every field, left to right; one blank field raises the error. */
  function TrimAll(fields: seq<string>): (r: Result<seq<string>, Failure>)
    ensures r.Ok? ==> |r.value| == |fields|
  {
    if fields == [] then Ok([])
    else match RemoveSpacesOf(fields[0])
      case Err(e) => Err(e)
      case Ok(v) =>
        match TrimAll(fields[1..])
        case Err(e) => Err(e)
        case Ok(t) => Ok([v] + t)
  }

  lemma {:induction false} TrimAllAppend(xs: seq<string>, x: string)
    ensures TrimAll(xs + [x]) ==
      if TrimAll(xs).Err? || RemoveSpacesOf(x).Err? then Err(OutOfRange)
      else Ok(TrimAll(xs).value + [RemoveSpacesOf(x).value])
  {
    if xs == [] {
      assert xs + [x] == [x];
      if RemoveSpacesOf(x).Ok? {
        assert [x][1..] == [];
        assert [RemoveSpacesOf(x).value] + [] == [] + [RemoveSpacesOf(x).value];
      }
    } else {
      assert (xs + [x])[0] == xs[0];
      assert (xs + [x])[1..] == xs[1..] + [x];
      TrimAllAppend(xs[1..], x);
      if TrimAll(xs).Ok? && RemoveSpacesOf(x).Ok? {
        var v := RemoveSpacesOf(xs[0]).value;
        var t := TrimAll(xs[1..]).value;
        assert TrimAll(xs).value == [v] + t;
        assert [v] + (t + [RemoveSpacesOf(x).value]) == ([v] + t) + [RemoveSpacesOf(x).value];
      }
    }
  }

  lemma {:induction false} TrimAllErrPrefix(xs: seq<string>, ys: seq<string>)
    requires TrimAll(xs).Err?
    ensures TrimAll(xs + ys).Err?
  {
    if RemoveSpacesOf(xs[0]).Ok? {
      assert (xs + ys)[1..] == xs[1..] + ys;
      TrimAllErrPrefix(xs[1..], ys);
    }
  }

  /** One character of the loop of `parseCSVLine`: a comma closes the field
    * begun at `start`, any other character extends it. */
  lemma CsvStep(line: string, start: nat, i: nat, done: seq<string>)
    requires start <= i < |line|
    requires done + CsvFieldsFrom(line[i..], line[start..i]) == CsvFields(line)
    ensures line[i] == ',' ==> done + [line[start..i]] + CsvFieldsFrom(line[i + 1..], line[i + 1..i + 1]) == CsvFields(line)
    ensures line[i] != ',' ==> done + CsvFieldsFrom(line[i + 1..], line[start..i + 1]) == CsvFields(line)
  {
    assert line[i..][1..] == line[i + 1..];
    assert line[i + 1..i + 1] == [];
    assert line[start..i] + [line[i]] == line[start..i + 1];
  }

  /** The loop of `parseCSVLine` over the characters: every comma closes a
    * field, which is trimmed and appended; it stops at the first blank field.
    * Without one, what is left after the last comma starts at `start`. */
  method CsvFieldsLoop(data: seq<string>, line: string) returns (acc: seq<string>, start: nat, failed: bool, ghost done: seq<string>)
    ensures failed ==> TrimAll(CsvFields(line)).Err?
    ensures !failed ==> start <= |line| && done + [line[start..]] == CsvFields(line)
                        && TrimAll(done).Ok? && acc == data + TrimAll(done).value
  {
    acc, start, failed, done := data, 0, false, [];
    var i := 0;
    while i < |line|
      invariant 0 <= start <= i <= |line|
      invariant done + CsvFieldsFrom(line[i..], line[start..i]) == CsvFields(line)
      invariant TrimAll(done).Ok? && acc == data + TrimAll(done).value
    {
      CsvStep(line, start, i, done);
      if line[i] == ',' {
        var sub := line[start..i];
        var t := RemoveSpaces(sub);
        TrimAllAppend(done, sub);
        if t.Err? {
          TrimAllErrPrefix(done + [sub], CsvFieldsFrom(line[i + 1..], []));
          assert line[i + 1..i + 1] == [];
          return acc, start, true, done;
        }
        acc := acc + [t.value];
        done := done + [sub];
        start := i + 1;
      }
      i := i + 1;
    }
    assert line[start..i] == line[start..] && line[i..] == [];
  }

  /**
   * `parseCSVLine`: appends the trimmed fields of `line` to `data` and
   * reports the new size. A blank field makes `removeSpaces` throw; the
   * exception leaves the call, which the model reports as an error.
   */
  method ParseCsvLine(data: seq<string>, line: string) returns (r: Result<seq<string>, Failure>, n: int)
    ensures TrimAll(CsvFields(line)).Err? ==> r.Err?
    ensures TrimAll(CsvFields(line)).Ok? ==> r == Ok(data + TrimAll(CsvFields(line)).value)
    ensures r.Ok? ==> n == |r.value| == |data| + Count(line, ',') + 1
  {
    CsvFieldsShape(line);
    var acc, start, failed, done := CsvFieldsLoop(data, line);
    if failed {
      return Err(OutOfRange), 0;
    }
    var sub := line[start..];
    var t := RemoveSpaces(sub);
    TrimAllAppend(done, sub);
    if t.Err? {
      return Err(OutOfRange), 0;
    }
    assert data + TrimAll(done).value + [t.value] == data + (TrimAll(done).value + [t.value]);
    acc := acc + [t.value];
    return Ok(acc), |acc|;
  }


  // ---------------------------------------------------------------------
  // getUUIDHash
  // ---------------------------------------------------------------------

  function Pow2(k: nat): (p: nat)
    ensures p >= 1
  {
    if k == 0 then 1 else 2 * Pow2(k - 1)
  }

  lemma Pow2Sixteen()
    ensures Pow2(16) == 65536
  {
    assert Pow2(4) == 16;
    assert Pow2(8) == 256;
    assert Pow2(12) == 4096;
  }

  /** Bitwise exclusive or of two naturals, bit by bit from the lowest. */
  function Xor(a: nat, b: nat): nat
  {
    if a == 0 then b
    else if b == 0 then a
    else 2 * Xor(a / 2, b / 2) + (a % 2 + b % 2) % 2
  }

  /** XOR never sets a bit above the operands' highest bit. */
  lemma {:induction false} XorBound(a: nat, b: nat, k: nat)
    requires a < Pow2(k) && b < Pow2(k)
    ensures Xor(a, b) < Pow2(k)
  {
    if a != 0 && b != 0 {
      XorBound(a / 2, b / 2, k - 1);
    }
  }

  lemma {:induction false} XorSelf(a: nat)
    ensures Xor(a, a) == 0
  {
    if a != 0 {
      XorSelf(a / 2);
    }
  }

  predicate IsHexDigit(c: char)
  {
    '0' <= c <= '9' || 'a' <= c <= 'f' || 'A' <= c <= 'F'
  }

  function HexDigit(c: char): (v: nat)
    requires IsHexDigit(c)
    ensures v < 16
  {
    if '0' <= c <= '9' then c as int - '0' as int
    else if 'a' <= c <= 'f' then c as int - 'a' as int + 10
    else c as int - 'A' as int + 10
  }

  /** Number of leading hexadecimal digits. */
  function HexRun(s: string): (n: nat)
    ensures n <= |s| && forall k :: 0 <= k < n ==> IsHexDigit(s[k])
  {
    if s == [] || !IsHexDigit(s[0]) then 0 else 1 + HexRun(s[1..])
  }

  function HexValue(s: string): nat
    requires forall k :: 0 <= k < |s| ==> IsHexDigit(s[k])
  {
    if s == [] then 0 else 16 * HexValue(s[..|s| - 1]) + HexDigit(s[|s| - 1])
  }

  /** `ss << hex << chunk; ss >> value` on a piece that starts with a hex
    * digit or with none: the value of the leading hex digits, 0 when there
    * are none. The leading whitespace, sign and "0x" prefix the stream
    * extraction would also accept are not modelled. */
  function HexPrefixValue(s: string): nat
  {
    HexValue(s[..HexRun(s)])
  }

  /** A piece made of hex digits only is read whole. */
  lemma {:induction false} HexPrefixOfHexDigits(s: string)
    requires forall k :: 0 <= k < |s| ==> IsHexDigit(s[k])
    ensures HexRun(s) == |s|
    ensures HexPrefixValue(s) == HexValue(s)
    decreases |s|
  {
    if s != [] {
      HexPrefixOfHexDigits(s[1..]);
      assert s[..HexRun(s)] == s;
    }
  }

  lemma {:induction false} HexValueBound(s: string)
    requires forall k :: 0 <= k < |s| ==> IsHexDigit(s[k])
    ensures HexValue(s) < Pow2(4 * |s|)
  {
    if s != [] {
      HexValueBound(s[..|s| - 1]);
      var m := 4 * (|s| - 1);
      assert Pow2(m + 4) == 2 * Pow2(m + 3);
      assert Pow2(m + 3) == 2 * Pow2(m + 2);
      assert Pow2(m + 2) == 2 * Pow2(m + 1);
      assert Pow2(m + 1) == 2 * Pow2(m);
    }
  }

  lemma {:induction false} Pow2Monotone(i: nat, j: nat)
    requires i <= j
    ensures Pow2(i) <= Pow2(j)
  {
    if i < j {
      Pow2Monotone(i, j - 1);
    }
  }

  /** Length of the pieces a UUID part is cut into for a hash of `bits` bits. */
  function ChunkLength(bits: int): (n: nat)
    ensures n >= 1
    decreases if bits > 0 then bits else 0
  {
    if bits > 2 then 1 + ChunkLength(bits / 2) else 1
  }

  /** Length of the next piece of `s`: `len` characters, or what is left. */
  function PieceLength(s: string, len: nat): nat
  {
    if |s| <= len then |s| else len
  }

  /** XOR into `h` the values of the pieces of `s`, `len` characters each
    * (the last may be shorter), from left to right. */
  function XorPieces(h: nat, s: string, len: nat): nat
    requires len >= 1
    decreases |s|
  {
    if s == [] then h
    else XorPieces(Xor(h, HexPrefixValue(s[..PieceLength(s, len)])), s[PieceLength(s, len)..], len)
  }

  /** The same over every '-'-separated part of the UUID, in order. */
  function XorParts(h: nat, parts: seq<string>, len: nat): nat
    requires len >= 1
    decreases |parts|
  {
    if parts == [] then h else XorParts(XorPieces(h, parts[0], len), parts[1..], len)
  }

  /** The value of `getUUIDHash(uuid, bits)`. It fits in four bits per piece
    * character: for a 16-bit hash the pieces are 4 hex digits long and the
    * value is below 2^16. */
  function UuidHashOf(uuid: string, bits: int): (h: nat)
    ensures h < Pow2(4 * ChunkLength(bits))
    ensures bits == 16 ==> ChunkLength(bits) == 4 && h < 65536
  {
    XorPartsBound(0, StringUtils.Tokens(uuid, '-'), ChunkLength(bits));
    assert ChunkLength(16) == 4;
    Pow2Sixteen();
    XorParts(0, StringUtils.Tokens(uuid, '-'), ChunkLength(bits))
  }

  lemma PieceBound(s: string, len: nat)
    requires len >= 1
    ensures HexPrefixValue(s[..PieceLength(s, len)]) < Pow2(4 * len)
  {
    var c := s[..PieceLength(s, len)];
    HexValueBound(c[..HexRun(c)]);
    Pow2Monotone(4 * HexRun(c), 4 * len);
  }

  lemma {:induction false} XorPiecesBound(h: nat, s: string, len: nat)
    requires len >= 1 && h < Pow2(4 * len)
    ensures XorPieces(h, s, len) < Pow2(4 * len)
    decreases |s|
  {
    if s != [] {
      PieceBound(s, len);
      XorBound(h, HexPrefixValue(s[..PieceLength(s, len)]), 4 * len);
      XorPiecesBound(Xor(h, HexPrefixValue(s[..PieceLength(s, len)])), s[PieceLength(s, len)..], len);
    }
  }

  lemma {:induction false} XorPartsBound(h: nat, parts: seq<string>, len: nat)
    requires len >= 1 && h < Pow2(4 * len)
    ensures XorParts(h, parts, len) < Pow2(4 * len)
    decreases |parts|
  {
    if parts != [] {
      XorPiecesBound(h, parts[0], len);
      XorPartsBound(XorPieces(h, parts[0], len), parts[1..], len);
    }
  }

  /** The loop that sizes the pieces: halve the bit count until it is at most 2. */
  method ChunkLengthOf(bits: int) returns (len: nat)
    ensures len == ChunkLength(bits)
  {
    len := 1;
    var remaining := bits;
    while remaining > 2
      invariant len + ChunkLength(remaining) - 1 == ChunkLength(bits)
      decreases remaining
    {
      remaining := remaining / 2;
      len := len + 1;
    }
  }

  /** One step of the inner loop: the piece at `idx` is the first piece of the rest. */
  lemma XorPieceStep(h: nat, part: string, idx: nat, len: nat, chunk: string)
    requires len >= 1 && idx < |part|
    requires chunk == if idx + len <= |part| then part[idx..idx + len] else part[idx..]
    ensures XorPieces(h, part[idx..], len) == XorPieces(Xor(h, HexPrefixValue(chunk)), part[idx + |chunk|..], len)
  {
    var rest := part[idx..];
    assert chunk == rest[..PieceLength(rest, len)];
    assert part[idx + |chunk|..] == rest[PieceLength(rest, len)..];
  }

  /** The inner loop of `getUUIDHash`: fold the pieces of one part into `h`. */
  method XorPart(h0: nat, part: string, len: nat) returns (h: nat)
    requires len >= 1
    ensures h == XorPieces(h0, part, len)
  {
    h := h0;
    var idx := 0;
    while idx < |part|
      invariant 0 <= idx <= |part|
      invariant XorPieces(h, part[idx..], len) == XorPieces(h0, part, len)
      decreases |part| - idx
    {
      var chunk := if idx + len <= |part| then part[idx..idx + len] else part[idx..];
      XorPieceStep(h, part, idx, len, chunk);
      h, idx := Xor(h, HexPrefixValue(chunk)), idx + |chunk|;
    }
  }

  /**
   * `getUUIDHash`: cut each '-'-separated part of the UUID into pieces of
   * `ChunkLength(bits)` characters and XOR their hexadecimal values.
   */
  method UuidHash(uuid: string, bits: int) returns (h: nat)
    ensures h == UuidHashOf(uuid, bits)
    ensures h < Pow2(4 * ChunkLength(bits))
    ensures bits == 16 ==> h < 65536
  {
    var len := ChunkLengthOf(bits);
    var parts := StringUtils.Split(uuid, '-');
    h := 0;
    var p := 0;
    while p < |parts|
      invariant 0 <= p <= |parts|
      invariant XorParts(h, parts[p..], len) == XorParts(0, parts, len)
    {
      assert parts[p..][0] == parts[p] && parts[p..][1..] == parts[p + 1..];
      h := XorPart(h, parts[p], len);
      p := p + 1;
    }
  }

  // ---------------------------------------------------------------------
  // getDateFromTimeStamp / getTimeFromTimeStamp
  // ---------------------------------------------------------------------

  const MillisPerDay: int := 86_400_000

  /** Day number of a millisecond timestamp, narrowed to 32 unsigned bits. */
  function DateFromTimestamp(ms: int): int
  {
    CDiv(ms, MillisPerDay) % 0x1_0000_0000
  }

  /** Time of day of a millisecond timestamp, in nanoseconds. */
  function TimeFromTimestamp(ms: int): int
  {
    1_000_000 * CMod(ms, MillisPerDay)
  }

  /** A timestamp within the 32-bit day range splits into a day and a time of
    * day that recombine to it; the time of day is below one day. */
  lemma DateTimeSplit(ms: int)
    requires 0 <= ms < 0x1_0000_0000 * MillisPerDay
    ensures 0 <= TimeFromTimestamp(ms) < 1_000_000 * MillisPerDay
    ensures DateFromTimestamp(ms) * MillisPerDay + TimeFromTimestamp(ms) / 1_000_000 == ms
  {
    CDivNatural(ms, MillisPerDay);
    var q := ms / MillisPerDay;
    if q >= 0x1_0000_0000 {
      MulMonotone(q, 0x1_0000_0000, MillisPerDay);
      assert false;
    }
  }
}
