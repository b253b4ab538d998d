/**
 * Conversions between the currency and exchange enumerations and their
 * names. Each enumeration has a generated table of upper-case names whose
 * first entry names the enumeration's lowest value (`UNDEF` = -1 for
 * currencies, `NOEXCHANGE` = -2 for exchanges), so a value is the index of
 * its name plus that offset. The tables themselves are generated at build
 * time and are parameters here.
 */
module EnumTables {

  import opened Wrappers

  /** `currency_t::UNDEF`, the value of the first currency name. */
  const CurrencyOffset: int := -1

  /** `exchange_t::NOEXCHANGE`, the value of the first exchange name. */
  const ExchangeOffset: int := -2

  /** The name of enumeration value `value`: the table entry at `value - offset`,
    * lower-cased on request. The source asserts that the index is in range. */
  function EnumToString(table: seq<string>, offset: int, value: int, lower: bool): (s: string)
    requires offset <= value < offset + |table|
    ensures ToUpper(s) == ToUpper(table[value - offset])
    ensures !lower ==> s == table[value - offset]
    ensures lower ==> |s| == |table[value - offset]| && forall i :: 0 <= i < |s| ==> !('A' <= s[i] <= 'Z')
  {
    var name := table[value - offset];
    assert forall i :: 0 <= i < |name| ==> UpperChar(LowerChar(name[i])) == UpperChar(name[i]);
    if lower then ToLower(name) else name
  }

  /** The last index of `key` in `table`, or -1 when it is not there. */
  function LastIndex(table: seq<string>, key: string): (i: int)
    ensures -1 <= i < |table|
    ensures i >= 0 ==> table[i] == key
    ensures forall j :: i < j < |table| ==> table[j] != key
    ensures i == -1 <==> key !in table
    decreases |table|
  {
    if table == [] then -1
    else if table[|table| - 1] == key then |table| - 1
    else
      var i := LastIndex(table[..|table| - 1], key);
      assert forall j :: i < j < |table| - 1 ==> table[..|table| - 1][j] == table[j];
      i
  }

  /** The value named by `name`, matched in upper case against the table from
    * its end; the offset itself (the first, "undefined" value) when no entry
    * matches. */
  function Lookup(table: seq<string>, offset: int, name: string): int
  {
    var i := LastIndex(table, ToUpper(name));
    if i < 0 then offset else offset + i
  }

  /**
   * `sStringToCurrency` / `sStringToExchange`: upper-case the name and walk
   * the table from its last entry down to its first, stopping at the first
   * match. Without one, the result is the lowest value.
   */
  method StringToEnum(table: seq<string>, offset: int, name: string) returns (v: int)
    ensures v == Lookup(table, offset, name)
    ensures offset <= v < offset + |table| || (v == offset && |table| == 0)
    ensures ToUpper(name) !in table ==> v == offset
    ensures ToUpper(name) in table ==> table[v - offset] == ToUpper(name)
  {
    var key := ToUpper(name);
    v := offset;
    var idx := |table| - 1;
    while idx > -1
      invariant -1 <= idx < |table|
      invariant forall j :: idx < j < |table| ==> table[j] != key
    {
      if table[idx] == key {
        v := idx + offset;
        return;
      }
      idx := idx - 1;
    }
  }

  /** The lookup does not depend on the case of the name. */
  lemma LookupIgnoresCase(table: seq<string>, offset: int, name: string)
    ensures Lookup(table, offset, ToLower(name)) == Lookup(table, offset, name)
    ensures Lookup(table, offset, ToUpper(name)) == Lookup(table, offset, name)
  {
    UpperForgetsCase(name);
  }

  /** A table whose names are upper case and pairwise distinct. */
  predicate UniqueUpper(table: seq<string>)
  {
    (forall i :: 0 <= i < |table| ==> IsUpper(table[i]))
    && forall i, j :: 0 <= i < j < |table| ==> table[i] != table[j]
  }

  /** Over a table of distinct upper-case names, looking up a value's name, in
    * either case, gives the value back. */
  lemma NameRoundTrip(table: seq<string>, offset: int, value: int, lower: bool)
    requires UniqueUpper(table) && offset <= value < offset + |table|
    ensures Lookup(table, offset, EnumToString(table, offset, value, lower)) == value
  {
    var k := value - offset;
    var name := EnumToString(table, offset, value, lower);
    ToUpperIdempotent(table[k]);
    assert ToUpper(name) == table[k];
    var i := LastIndex(table, table[k]);
    if i != k {
      assert false;
    }
  }

  /** A name missing from the table gives the lowest value: `UNDEF` for a
    * currency, `NOEXCHANGE` for an exchange. */
  lemma UnknownNameIsUndefined(table: seq<string>, name: string)
    requires ToUpper(name) !in table
    ensures Lookup(table, CurrencyOffset, name) == -1
    ensures Lookup(table, ExchangeOffset, name) == -2
  {
  }

  /** A currency object with its cached conversion rate to US dollars. */
  class Currency {
    var currency: int
    var usdConv: real

    /** `Currency(currency)`: the rate is left unset until `getValueUSD`. */
    constructor (currency: int)
      ensures this.currency == currency
    {
      this.currency := currency;
    }

    /** `getValueUSD()`: every branch, listed currencies and others alike,
      * sets the rate to 1. */
    method GetValueUsd() returns (v: real)
      modifies this`usdConv
      ensures usdConv == 1.0 && v == usdConv
    {
      usdConv := 1.0;
      v := usdConv;
    }
  }
}
