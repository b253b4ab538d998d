/**
 * A currency pair: a base and a quote currency. It is printed as the two
 * currency names around a separator, and parsed from text split on '-',
 * else on '/', else as two names of three letters each.
 */
module CurrencyPair {

  import opened Wrappers
  import StringUtils
  import EnumTables

  /** Base and quote as currency enumeration values. */
  datatype Pair = Pair(base: int, quote: int)

  /** The error raised for text that is no currency pair. */
  datatype PairError = InvalidPair

  /** The currency named `name`, looked up in the currency name table. */
  function CurrencyOf(table: seq<string>, name: string): int
  {
    EnumTables.Lookup(table, EnumTables.CurrencyOffset, name)
  }

  /** The text `fromString` can index: splitting on the chosen delimiter gives
    * at least two tokens (a shorter split would be read past its end). */
  predicate Indexable(s: string)
  {
    ('-' in s ==> |StringUtils.Tokens(s, '-')| >= 2)
    && ('-' !in s && '/' in s ==> |StringUtils.Tokens(s, '/')| >= 2)
  }

  /**
   * `fromString(text)`: with a '-' the first two '-'-separated tokens name
   * base and quote; otherwise with a '/' the first two '/'-separated ones;
   * otherwise six characters split three and three; anything else throws
   * `invalid_argument`.
   */
  function FromString(table: seq<string>, s: string): (r: Result<Pair, PairError>)
    requires Indexable(s)
    ensures r.Err? <==> '-' !in s && '/' !in s && |s| != 6
    ensures '-' in s ==> r == Ok(Pair(CurrencyOf(table, StringUtils.Tokens(s, '-')[0]),
                                      CurrencyOf(table, StringUtils.Tokens(s, '-')[1])))
    ensures '-' !in s && '/' !in s && |s| == 6 ==> r == Ok(Pair(CurrencyOf(table, s[..3]), CurrencyOf(table, s[3..])))
  {
    if '-' in s then
      var parts := StringUtils.Tokens(s, '-');
      Ok(Pair(CurrencyOf(table, parts[0]), CurrencyOf(table, parts[1])))
    else if '/' in s then
      var parts := StringUtils.Tokens(s, '/');
      Ok(Pair(CurrencyOf(table, parts[0]), CurrencyOf(table, parts[1])))
    else if |s| == 6 then
      Ok(Pair(CurrencyOf(table, s[0..3]), CurrencyOf(table, s[3..6])))
    else Err(InvalidPair)
  }

  /** `toString(separator, lower)`: base name, separator, quote name, the whole
    * lower-cased on request. */
  function ToString(table: seq<string>, p: Pair, separator: string, lower: bool): (s: string)
    requires EnumTables.CurrencyOffset <= p.base < EnumTables.CurrencyOffset + |table|
    requires EnumTables.CurrencyOffset <= p.quote < EnumTables.CurrencyOffset + |table|
    ensures |s| == |table[p.base + 1]| + |separator| + |table[p.quote + 1]|
    ensures !lower ==> s[..|table[p.base + 1]|] == table[p.base + 1]
                       && s[|s| - |table[p.quote + 1]|..] == table[p.quote + 1]
  {
    var text := EnumTables.EnumToString(table, EnumTables.CurrencyOffset, p.base, false) + separator
                + EnumTables.EnumToString(table, EnumTables.CurrencyOffset, p.quote, false);
    if lower then ToLower(text) else text
  }

  /** `==`: both currencies agree. */
  predicate Same(a: Pair, b: Pair) { a.quote == b.quote && a.base == b.base }

  /** Pair equality is the equality of the two fields, in either order of testing. */
  lemma SameIsEquality(a: Pair, b: Pair)
    ensures Same(a, b) <==> a == b
    ensures Same(a, b) <==> Same(b, a)
  {
  }

  /** A currency table whose names are distinct, upper case, non-empty and
    * free of the two separators. */
  predicate PlainTable(table: seq<string>)
  {
    EnumTables.UniqueUpper(table)
    && forall i :: 0 <= i < |table| ==> table[i] != [] && '-' !in table[i] && '/' !in table[i]
  }

  /** Printing a pair of table currencies with '-' or '/' (or with no separator
    * when both names have three letters), in either case, and parsing the text
    * gives the pair back. */
  lemma PrintParseRoundTrip(table: seq<string>, p: Pair, separator: string, lower: bool)
    requires PlainTable(table)
    requires -1 <= p.base < |table| - 1 && -1 <= p.quote < |table| - 1
    requires separator == "-" || separator == "/"
             || (separator == "" && |table[p.base + 1]| == 3 && |table[p.quote + 1]| == 3)
    ensures Indexable(ToString(table, p, separator, lower))
    ensures FromString(table, ToString(table, p, separator, lower)) == Ok(p)
  {
    var b := EnumTables.EnumToString(table, EnumTables.CurrencyOffset, p.base, lower);
    var q := EnumTables.EnumToString(table, EnumTables.CurrencyOffset, p.quote, lower);
    ToStringParts(table, p, separator, lower);
    EnumTables.NameRoundTrip(table, EnumTables.CurrencyOffset, p.base, lower);
    EnumTables.NameRoundTrip(table, EnumTables.CurrencyOffset, p.quote, lower);
    SeparatorsSurviveCase(table[p.base + 1], lower);
    SeparatorsSurviveCase(table[p.quote + 1], lower);
    if separator == "" {
      ParseSixLetters(table, b, q);
    } else {
      ParseSeparated(table, b, q, separator[0]);
    }
  }

  /** The printed text is the two names, each in the requested case, around
    * the separator. */
  lemma ToStringParts(table: seq<string>, p: Pair, separator: string, lower: bool)
    requires -1 <= p.base < |table| - 1 && -1 <= p.quote < |table| - 1
    requires separator == "-" || separator == "/" || separator == ""
    ensures ToString(table, p, separator, lower)
            == EnumTables.EnumToString(table, EnumTables.CurrencyOffset, p.base, lower) + separator
               + EnumTables.EnumToString(table, EnumTables.CurrencyOffset, p.quote, lower)
  {
    var a, c := table[p.base + 1], table[p.quote + 1];
    assert ToString(table, p, separator, lower) == if lower then ToLower(a + separator + c) else a + separator + c;
    CaseOfConcat(a, separator, c, lower);
    if lower {
      assert EnumTables.EnumToString(table, EnumTables.CurrencyOffset, p.base, lower) == ToLower(a);
      assert EnumTables.EnumToString(table, EnumTables.CurrencyOffset, p.quote, lower) == ToLower(c);
    }
  }

  /** Two three-letter names without separators, glued together, parse as the
    * six-letter form. */
  lemma ParseSixLetters(table: seq<string>, b: string, q: string)
    requires |b| == 3 && |q| == 3
    requires '-' !in b && '/' !in b && '-' !in q && '/' !in q
    ensures Indexable(b + "" + q)
    ensures FromString(table, b + "" + q) == Ok(Pair(CurrencyOf(table, b), CurrencyOf(table, q)))
  {
    var s := b + "" + q;
    assert s[..3] == b && s[3..] == q;
    assert forall i :: 0 <= i < |s| ==> s[i] == (if i < 3 then b[i] else q[i - 3]);
  }

  /** Two names joined by a separator absent from both parse by splitting on
    * it; with '/' the text holds no '-'. */
  lemma ParseSeparated(table: seq<string>, b: string, q: string, d: char)
    requires d == '-' || d == '/'
    requires '-' !in b && '/' !in b && '-' !in q && '/' !in q && q != []
    ensures Indexable(b + [d] + q)
    ensures FromString(table, b + [d] + q) == Ok(Pair(CurrencyOf(table, b), CurrencyOf(table, q)))
  {
    var s := b + [d] + q;
    assert s == StringUtils.Join([b, q], d);
    StringUtils.JoinSplit([b, q], d);
    assert s[|b|] == d;
    if d == '/' {
      assert forall i :: 0 <= i < |s| ==> s[i] == (if i < |b| then b[i] else if i == |b| then '/' else q[i - |b| - 1]);
    }
  }

  /** Lower-casing never creates a separator. */
  lemma SeparatorsSurviveCase(name: string, lower: bool)
    requires '-' !in name && '/' !in name
    ensures '-' !in (if lower then ToLower(name) else name)
    ensures '/' !in (if lower then ToLower(name) else name)
  {
    if lower {
      var l := ToLower(name);
      forall i | 0 <= i < |l|
        ensures l[i] != '-' && l[i] != '/'
      {
        assert name[i] != '-' && name[i] != '/';
      }
    }
  }

  /** Lower-casing the joined text is joining the lower-cased parts, and the
    * separators "-" and "/" are left as they are. */
  lemma CaseOfConcat(a: string, sep: string, b: string, lower: bool)
    requires sep == "-" || sep == "/" || sep == ""
    ensures (if lower then ToLower(a + sep + b) else a + sep + b)
            == (if lower then ToLower(a) else a) + sep + (if lower then ToLower(b) else b)
  {
    if lower {
      ToLowerConcat(a + sep, b);
      ToLowerConcat(a, sep);
      assert ToLower(sep) == sep;
    }
  }

  /** `CurrencyPair(BTC, USD).toString() == "BTC-USD"`, for a table holding
    * "BTC" and "USD". */
  lemma BtcUsdExample(table: seq<string>, btc: int, usd: int)
    requires -1 <= btc < |table| - 1 && -1 <= usd < |table| - 1
    requires table[btc + 1] == "BTC" && table[usd + 1] == "USD"
    ensures ToString(table, Pair(btc, usd), "-", false) == "BTC-USD"
  {
  }
}
