/**
 * The store of one kind of row (ticks, candlesticks, ...) in a Cassandra
 * table. Each row is keyed by date, time and, for kinds that have one, a
 * unique id; the CQL statements to create the table, insert a row and select
 * a key range are built as text from the row kind's column list; after a batch
 * of inserts the table's metadata counts the inserted rows and widens its
 * smallest and largest key over them.
 */
module Database {

  import opened Wrappers
  import DataTypes
  import EnumTables
  import CurrencyPair

  /** A column: its name and its CQL type. */
  type Field = (string, string)

  /** The number of occurrences of `c` in `s`. */
  function Occurrences(s: string, c: char): nat
    decreases |s|
  {
    if s == [] then 0 else Occurrences(s[..|s| - 1], c) + (if s[|s| - 1] == c then 1 else 0)
  }

  /** Occurrences add up over a concatenation. */
  lemma {:induction false} OccurrencesAppend(a: string, b: string, c: char)
    ensures Occurrences(a + b, c) == Occurrences(a, c) + Occurrences(b, c)
    decreases |b|
  {
    if b == [] {
      assert a + b == a;
    } else {
      assert (a + b)[..|a + b| - 1] == a + b[..|b| - 1];
      OccurrencesAppend(a, b[..|b| - 1], c);
    }
  }

  /** Text without `c` has no occurrence of it. */
  lemma {:induction false} OccurrencesAbsent(s: string, c: char)
    requires c !in s
    ensures Occurrences(s, c) == 0
    decreases |s|
  {
    if s != [] {
      assert s[..|s| - 1] + [s[|s| - 1]] == s;
      OccurrencesAbsent(s[..|s| - 1], c);
    }
  }

  // ---------------------------------------------------------------------
  // Table name
  // ---------------------------------------------------------------------

  /** `getTableName(exchange, pair, lower)`: the pair printed around "_",
    * then "_" and the exchange name, lower-cased on request. */
  function TableName(currencies: seq<string>, exchanges: seq<string>, exchange: int, pair: CurrencyPair.Pair,
                     lower: bool): string
    requires EnumTables.CurrencyOffset <= pair.base < EnumTables.CurrencyOffset + |currencies|
    requires EnumTables.CurrencyOffset <= pair.quote < EnumTables.CurrencyOffset + |currencies|
    requires EnumTables.ExchangeOffset <= exchange < EnumTables.ExchangeOffset + |exchanges|
  {
    CurrencyPair.ToString(currencies, pair, "_", lower) + "_"
    + EnumTables.EnumToString(exchanges, EnumTables.ExchangeOffset, exchange, lower)
  }

  /** The table name is base, quote and exchange names joined by "_", and
    * with `lower` the same text lower-cased, so it has no capital letter. */
  lemma TableNameParts(currencies: seq<string>, exchanges: seq<string>, exchange: int, pair: CurrencyPair.Pair,
                       lower: bool)
    requires EnumTables.CurrencyOffset <= pair.base < EnumTables.CurrencyOffset + |currencies|
    requires EnumTables.CurrencyOffset <= pair.quote < EnumTables.CurrencyOffset + |currencies|
    requires EnumTables.ExchangeOffset <= exchange < EnumTables.ExchangeOffset + |exchanges|
    ensures var plain := currencies[pair.base + 1] + "_" + currencies[pair.quote + 1] + "_" + exchanges[exchange + 2];
            TableName(currencies, exchanges, exchange, pair, lower) == if lower then ToLower(plain) else plain
    ensures lower ==> forall i :: 0 <= i < |TableName(currencies, exchanges, exchange, pair, lower)| ==>
                        !('A' <= TableName(currencies, exchanges, exchange, pair, lower)[i] <= 'Z')
  {
    var b, q, e := currencies[pair.base + 1], currencies[pair.quote + 1], exchanges[exchange + 2];
    var pairText := b + "_" + q;
    assert CurrencyPair.ToString(currencies, pair, "_", lower) == if lower then ToLower(pairText) else pairText;
    if lower {
      ToLowerConcat(pairText, "_");
      ToLowerConcat(pairText + "_", e);
      assert "_" + e == "_" + e;
      assert (pairText + "_") + e == b + "_" + q + "_" + e;
      assert ToLower("_") == "_";
    }
  }

  // ---------------------------------------------------------------------
  // CQL statements
  // ---------------------------------------------------------------------

  /** `query` followed by the definition ", name type" of each field. */
  function WithColumnDefs(query: string, fields: seq<Field>): string
    decreases |fields|
  {
    if fields == [] then query
    else
      var last := fields[|fields| - 1];
      WithColumnDefs(query, fields[..|fields| - 1]) + ", " + last.0 + " " + last.1
  }

  /** `columns` followed by the name ", name" of each field. */
  function WithColumnNames(columns: string, fields: seq<Field>): string
    decreases |fields|
  {
    if fields == [] then columns else WithColumnNames(columns, fields[..|fields| - 1]) + ", " + fields[|fields| - 1].0
  }

  /** Whether the row kind has a unique id besides its time. */
  predicate HasUniqueId(uniqueId: Field) { uniqueId.0 != "" }

  /** The primary key clause: date, time and the unique id when there is one. */
  function KeyClause(uniqueId: Field): string
  {
    var key := ", PRIMARY KEY (date, time ";
    (if HasUniqueId(uniqueId) then key + ", " + uniqueId.0 else key) + "))"
  }

  /** The columns a create statement defines, in order: date, time, the
    * unique id if any, then the fields. */
  function CreateColumns(table: string, uniqueId: Field, fields: seq<Field>): string
  {
    var head := "CREATE TABLE IF NOT EXISTS " + table + " (date int, time bigint";
    WithColumnDefs(if HasUniqueId(uniqueId) then head + ", " + uniqueId.0 + " " + uniqueId.1 + " " else head, fields)
  }

  /** The statement `generateCreateTableQuery` builds. */
  function CreateTableQuery(table: string, uniqueId: Field, fields: seq<Field>): string
  {
    CreateColumns(table, uniqueId, fields) + KeyClause(uniqueId)
  }

  /** The create statement ends with its primary key, which is date and time
    * followed by the unique id exactly when the row kind has one. */
  lemma CreateTableKey(table: string, uniqueId: Field, fields: seq<Field>)
    ensures var q := CreateTableQuery(table, uniqueId, fields);
            |q| >= |KeyClause(uniqueId)| && q[|q| - |KeyClause(uniqueId)|..] == KeyClause(uniqueId)
    ensures !HasUniqueId(uniqueId) ==> KeyClause(uniqueId) == ", PRIMARY KEY (date, time ))"
    ensures HasUniqueId(uniqueId) ==> KeyClause(uniqueId) == ", PRIMARY KEY (date, time , " + uniqueId.0 + "))"
  {
    var c := CreateColumns(table, uniqueId, fields);
    assert (c + KeyClause(uniqueId))[|c|..] == KeyClause(uniqueId);
  }

  /** The number of columns of an insert: date, time, the unique id if any
    * and the fields. */
  function ColumnCount(uniqueId: Field, fields: seq<Field>): nat
  {
    2 + (if HasUniqueId(uniqueId) then 1 else 0) + |fields|
  }

  /** The column list of an insert. */
  function InsertColumns(uniqueId: Field, fields: seq<Field>): string
  {
    WithColumnNames(if HasUniqueId(uniqueId) then " (date, time" + ", " + uniqueId.0 else " (date, time", fields)
  }

  /** `n` placeholders separated by commas. */
  function Placeholders(n: nat): string
    requires n >= 1
  {
    if n == 1 then "?" else Placeholders(n - 1) + ",?"
  }

  /** The end of an insert, with or without the existence check. */
  function InsertTail(checkForExistence: bool): string
  {
    if checkForExistence then ") IF NOT EXISTS;" else ");"
  }

  /** The statement `generateInsertQuery(checkForExistence)` builds. */
  function InsertQuery(table: string, uniqueId: Field, fields: seq<Field>, checkForExistence: bool): string
  {
    "INSERT INTO " + table + InsertColumns(uniqueId, fields) + ") VALUES ("
    + Placeholders(ColumnCount(uniqueId, fields)) + InsertTail(checkForExistence)
  }

  /** `n` placeholders hold `n` question marks and `n - 1` commas. */
  lemma {:induction false} PlaceholderCount(n: nat)
    requires n >= 1
    ensures Occurrences(Placeholders(n), '?') == n
    ensures Occurrences(Placeholders(n), ',') == n - 1
  {
    if n > 1 {
      PlaceholderCount(n - 1);
      OccurrencesAppend(Placeholders(n - 1), ",?", '?');
      OccurrencesAppend(Placeholders(n - 1), ",?", ',');
      assert ",?"[..1] == ",";
    }
  }

  /** Field names without commas add one comma per field. */
  lemma {:induction false} ColumnNamesCommas(columns: string, fields: seq<Field>)
    requires forall i :: 0 <= i < |fields| ==> ',' !in fields[i].0
    ensures Occurrences(WithColumnNames(columns, fields), ',') == Occurrences(columns, ',') + |fields|
    decreases |fields|
  {
    if fields != [] {
      var n := |fields| - 1;
      var prev := WithColumnNames(columns, fields[..n]);
      ColumnNamesCommas(columns, fields[..n]);
      OccurrencesAppend(prev + ", ", fields[n].0, ',');
      OccurrencesAppend(prev, ", ", ',');
      OccurrencesAbsent(fields[n].0, ',');
      assert ", "[..1] == ",";
    }
  }

  /** An insert binds one value per listed column: with column names free of
    * commas, the column list names as many columns as there are
    * placeholders. */
  lemma InsertColumnsMatchValues(uniqueId: Field, fields: seq<Field>)
    requires ',' !in uniqueId.0
    requires forall i :: 0 <= i < |fields| ==> ',' !in fields[i].0
    ensures Occurrences(InsertColumns(uniqueId, fields), ',') + 1 == ColumnCount(uniqueId, fields)
    ensures Occurrences(Placeholders(ColumnCount(uniqueId, fields)), '?') == ColumnCount(uniqueId, fields)
  {
    var start := " (date, time";
    var columns := if HasUniqueId(uniqueId) then start + ", " + uniqueId.0 else start;
    ColumnNamesCommas(columns, fields);
    PlaceholderCount(ColumnCount(uniqueId, fields));
    OccurrencesAppend(" (date", ", time", ',');
    OccurrencesAbsent(" (date", ',');
    OccurrencesAppend(",", " time", ',');
    OccurrencesAbsent(" time", ',');
    assert " (date" + ", time" == start;
    assert "," + " time" == ", time";
    if HasUniqueId(uniqueId) {
      OccurrencesAppend(start + ", ", uniqueId.0, ',');
      OccurrencesAppend(start, ", ", ',');
      OccurrencesAbsent(uniqueId.0, ',');
      assert ", "[..1] == ",";
    }
  }

  /** An insert ends with "IF NOT EXISTS;" exactly when the existence check
    * is asked for, and with ");" otherwise. */
  lemma InsertEnding(table: string, uniqueId: Field, fields: seq<Field>, checkForExistence: bool)
    ensures var q := InsertQuery(table, uniqueId, fields, checkForExistence);
            |q| >= 16 && (q[|q| - 16..] == ") IF NOT EXISTS;" <==> checkForExistence)
            && (!checkForExistence ==> q[|q| - 2..] == ");")
  {
    var head := "INSERT INTO " + table + InsertColumns(uniqueId, fields) + ") VALUES ("
                + Placeholders(ColumnCount(uniqueId, fields));
    var tail := InsertTail(checkForExistence);
    var q := head + tail;
    assert |head| >= 14;
    assert q[|q| - |tail|..] == tail;
    if !checkForExistence {
      assert q[|q| - 2] == ')';
      assert q[|q| - 16..][14] == ')';
    }
  }

  /** The lower bound of a select over (time, id) pairs. */
  function LowerBound(table: string, uniqueId: Field, greaterEqual: bool): string
  {
    var head := "SELECT * FROM " + table + " WHERE date = ? AND (time," + uniqueId.0 + ") >";
    if greaterEqual then head + "=" else head
  }

  /** The statement `generateSelectQuery(greaterEqual, lessEqual)` builds:
    * with a unique id a range over (time, id) pairs whose bounds are
    * inclusive on request, else a fixed half-open range of times. */
  function SelectQuery(table: string, uniqueId: Field, greaterEqual: bool, lessEqual: bool): string
  {
    if HasUniqueId(uniqueId) then
      var upper := LowerBound(table, uniqueId, greaterEqual) + " (?,?) AND (time," + uniqueId.0 + ") <";
      (if lessEqual then upper + "=" else upper) + " (?,?)"
    else "SELECT * FROM " + table + " WHERE date = ? AND time >= ? AND time < ?"
  }

  /** With a unique id the lower bound reads ">=" iff `greaterEqual` and the
    * upper bound "<=" iff `lessEqual`; without one the flags are ignored and
    * the range is the default one, inclusive below and exclusive above. */
  lemma SelectBounds(table: string, uniqueId: Field, greaterEqual: bool, lessEqual: bool)
    ensures HasUniqueId(uniqueId) ==>
              var q := SelectQuery(table, uniqueId, greaterEqual, lessEqual);
              var at := |"SELECT * FROM " + table + " WHERE date = ? AND (time," + uniqueId.0 + ") >"|;
              |q| > at && |q| >= 8 && q[at - 1] == '>' && (q[at] == '=' <==> greaterEqual)
              && q[|q| - (if lessEqual then 8 else 7)] == '<' && (q[|q| - 7] == '=' <==> lessEqual)
    ensures !HasUniqueId(uniqueId) ==>
              SelectQuery(table, uniqueId, greaterEqual, lessEqual) == SelectQuery(table, uniqueId, true, false)
  {
    if HasUniqueId(uniqueId) {
      var head := "SELECT * FROM " + table + " WHERE date = ? AND (time," + uniqueId.0 + ")";
      var lower := head + " >";
      assert lower[|lower| - 1] == '>';
      var bound := LowerBound(table, uniqueId, greaterEqual);
      var middle := " (?,?) AND (time," + uniqueId.0 + ") <";
      var rest := middle + (if lessEqual then "=" else "") + " (?,?)";
      assert rest[0] == ' ';
      var upper := bound + middle;
      var endText := (if lessEqual then "=" else "") + " (?,?)";
      var q := SelectQuery(table, uniqueId, greaterEqual, lessEqual);
      assert q == upper + endText;
      assert q[|q| - |endText| - 1] == upper[|upper| - 1] == '<';
      assert q == bound + rest;
    }
  }

  // ---------------------------------------------------------------------
  // Metadata
  // ---------------------------------------------------------------------

  /** The number of successful inserts. */
  function CountTrue(results: seq<bool>): nat
    decreases |results|
  {
    if results == [] then 0 else CountTrue(results[..|results| - 1]) + (if results[|results| - 1] then 1 else 0)
  }

  /** The largest key after the rows: a successful row's key replaces the
    * current one when it is `>` it. */
  function WidenMax(m: DataTypes.PrimaryKey, keys: seq<DataTypes.PrimaryKey>, results: seq<bool>): DataTypes.PrimaryKey
    requires |results| == |keys|
    decreases |keys|
  {
    if keys == [] then m
    else
      var n := |keys| - 1;
      var prev := WidenMax(m, keys[..n], results[..n]);
      if results[n] && DataTypes.Greater(keys[n], prev) then keys[n] else prev
  }

  /** The smallest key after the rows: a successful row's key replaces the
    * current one when it is `<` it. */
  function WidenMin(m: DataTypes.PrimaryKey, keys: seq<DataTypes.PrimaryKey>, results: seq<bool>): DataTypes.PrimaryKey
    requires |results| == |keys|
    decreases |keys|
  {
    if keys == [] then m
    else
      var n := |keys| - 1;
      var prev := WidenMin(m, keys[..n], results[..n]);
      if results[n] && DataTypes.Less(keys[n], prev) then keys[n] else prev
  }

  /** At most every row succeeds, and all do exactly when no result is false. */
  lemma {:induction false} CountTrueBounds(results: seq<bool>)
    ensures CountTrue(results) <= |results|
    ensures CountTrue(results) == |results| <==> forall i :: 0 <= i < |results| ==> results[i]
    decreases |results|
  {
    if results != [] {
      var n := |results| - 1;
      CountTrueBounds(results[..n]);
      if !forall i :: 0 <= i < n ==> results[..n][i] {
        var i :| 0 <= i < n && !results[..n][i];
        assert !results[i];
      }
    }
  }

  /** The widened maximum is the old one or the key of a successful row, it
    * is the old one or `>` it, and no successful row's key is `>` it. */
  lemma {:induction false} WidenMaxBounds(m: DataTypes.PrimaryKey, keys: seq<DataTypes.PrimaryKey>, results: seq<bool>)
    requires |results| == |keys|
    ensures var r := WidenMax(m, keys, results);
            (r == m || exists i :: 0 <= i < |keys| && results[i] && r == keys[i])
            && (r == m || DataTypes.Greater(r, m))
            && forall i :: 0 <= i < |keys| && results[i] ==> !DataTypes.Greater(keys[i], r)
    decreases |keys|
  {
    if keys != [] {
      var n := |keys| - 1;
      var prev := WidenMax(m, keys[..n], results[..n]);
      WidenMaxBounds(m, keys[..n], results[..n]);
      var r := WidenMax(m, keys, results);
      if prev != m {
        var i :| 0 <= i < n && results[..n][i] && prev == keys[..n][i];
        assert results[i] && prev == keys[i];
      }
      forall i | 0 <= i < |keys| && results[i]
        ensures !DataTypes.Greater(keys[i], r)
      {
        if i < n {
          assert results[..n][i] && keys[..n][i] == keys[i];
          DataTypes.GreaterTransitive(keys[i], r, prev);
        } else if r == prev {
        } else {
          DataTypes.LessIsStrictOrder(r, r, r);
        }
      }
      DataTypes.GreaterTransitive(r, prev, m);
    }
  }

  /** The widened minimum is the old one or the key of a successful row, it
    * is the old one or `<` it, and no successful row's key is `<` it. */
  lemma {:induction false} WidenMinBounds(m: DataTypes.PrimaryKey, keys: seq<DataTypes.PrimaryKey>, results: seq<bool>)
    requires |results| == |keys|
    ensures var r := WidenMin(m, keys, results);
            (r == m || exists i :: 0 <= i < |keys| && results[i] && r == keys[i])
            && (r == m || DataTypes.Less(r, m))
            && forall i :: 0 <= i < |keys| && results[i] ==> !DataTypes.Less(keys[i], r)
    decreases |keys|
  {
    if keys != [] {
      var n := |keys| - 1;
      var prev := WidenMin(m, keys[..n], results[..n]);
      WidenMinBounds(m, keys[..n], results[..n]);
      var r := WidenMin(m, keys, results);
      if prev != m {
        var i :| 0 <= i < n && results[..n][i] && prev == keys[..n][i];
        assert results[i] && prev == keys[i];
      }
      forall i | 0 <= i < |keys| && results[i]
        ensures !DataTypes.Less(keys[i], r)
      {
        if i < n {
          assert results[..n][i] && keys[..n][i] == keys[i];
          DataTypes.LessIsStrictOrder(keys[i], r, prev);
        } else if r == prev {
        } else {
          DataTypes.LessIsStrictOrder(r, r, r);
        }
      }
      DataTypes.LessIsStrictOrder(r, prev, m);
    }
  }

  /** Failed rows play no part: rows that differ only where the insert
    * failed widen the keys alike. */
  lemma {:induction false} FailedRowsIgnored(m: DataTypes.PrimaryKey, keys: seq<DataTypes.PrimaryKey>,
                                             other: seq<DataTypes.PrimaryKey>, results: seq<bool>)
    requires |results| == |keys| == |other|
    requires forall i :: 0 <= i < |keys| && results[i] ==> keys[i] == other[i]
    ensures WidenMax(m, keys, results) == WidenMax(m, other, results)
    ensures WidenMin(m, keys, results) == WidenMin(m, other, results)
    decreases |keys|
  {
    if keys != [] {
      var n := |keys| - 1;
      FailedRowsIgnored(m, keys[..n], other[..n], results[..n]);
    }
  }

  /** A table of one kind of row, with the statements built for it and the
    * metadata kept about it. */
  class Table {
    const tableName: string
    const uniqueId: Field
    const fields: seq<Field>
    const primaryKeyFields: int
    var createTableCql: string
    var insertCql: string
    var selectCql: string
    var minEntryKey: DataTypes.PrimaryKey
    var maxEntryKey: DataTypes.PrimaryKey
    var numEntries: int

    /** `Database(keySpace, name, ..)`: the table `keySpace.name` with its
      * default statements; the metadata are those stored for the table. */
    constructor(keySpace: string, name: string, uniqueId: Field, fields: seq<Field>,
                minEntryKey: DataTypes.PrimaryKey, maxEntryKey: DataTypes.PrimaryKey, numEntries: int)
      ensures tableName == keySpace + "." + name && this.uniqueId == uniqueId && this.fields == fields
      ensures createTableCql == CreateTableQuery(tableName, uniqueId, fields)
      ensures insertCql == InsertQuery(tableName, uniqueId, fields, false)
      ensures selectCql == SelectQuery(tableName, uniqueId, true, false)
      ensures primaryKeyFields == if HasUniqueId(uniqueId) then 5 else 3
      ensures this.minEntryKey == minEntryKey && this.maxEntryKey == maxEntryKey && this.numEntries == numEntries
    {
      tableName := keySpace + "." + name;
      this.uniqueId := uniqueId;
      this.fields := fields;
      primaryKeyFields := if uniqueId.0 != "" then 5 else 3;
      this.minEntryKey, this.maxEntryKey, this.numEntries := minEntryKey, maxEntryKey, numEntries;
      new;
      GenerateCreateTableQuery();
      GenerateInsertQuery(false);
      GenerateSelectQuery(true, false);
    }

    /** `generateCreateTableQuery()`. */
    method GenerateCreateTableQuery()
      modifies this`createTableCql
      ensures createTableCql == CreateTableQuery(tableName, uniqueId, fields)
    {
      var query := "CREATE TABLE IF NOT EXISTS " + tableName + " (date int, time bigint";
      if uniqueId.0 != "" {
        query := query + ", " + uniqueId.0 + " " + uniqueId.1 + " ";
      }
      ghost var head := query;
      var i := 0;
      while i < |fields|
        invariant 0 <= i <= |fields|
        invariant query == WithColumnDefs(head, fields[..i])
      {
        assert fields[..i + 1][..i] == fields[..i];
        query := query + ", " + fields[i].0 + " " + fields[i].1;
        i := i + 1;
      }
      assert fields[..i] == fields;
      var key := ", PRIMARY KEY (date, time ";
      if uniqueId.0 != "" {
        key := key + ", " + uniqueId.0;
      }
      key := key + "))";
      createTableCql := query + key;
    }

    /** `generateInsertQuery(checkForExistence)`: the columns, then a "?,"
      * per column, of which the last comma is overwritten by the end of the
      * statement. */
    method GenerateInsertQuery(checkForExistence: bool)
      modifies this`insertCql
      ensures insertCql == InsertQuery(tableName, uniqueId, fields, checkForExistence)
    {
      var numFields := 0;
      var columns := " (date, time";
      if uniqueId.0 != "" {
        columns := columns + ", " + uniqueId.0;
        numFields := numFields + 1;
      }
      numFields := numFields + 2;
      ghost var head := columns;
      var i := 0;
      while i < |fields|
        invariant 0 <= i <= |fields|
        invariant columns == WithColumnNames(head, fields[..i])
        invariant numFields == (if uniqueId.0 != "" then 3 else 2) + i
      {
        assert fields[..i + 1][..i] == fields[..i];
        columns := columns + ", " + fields[i].0;
        numFields := numFields + 1;
        i := i + 1;
      }
      assert fields[..i] == fields;
      var values := PlaceholderList(numFields);
      var tail := if checkForExistence then ") IF NOT EXISTS;" else ");";
      insertCql := "INSERT INTO " + tableName + columns + ") VALUES (" + values[..|values| - 1] + tail;
    }

    /** `generateSelectQuery(greaterEqual, lessEqual)`. */
    method GenerateSelectQuery(greaterEqual: bool, lessEqual: bool)
      modifies this`selectCql
      ensures selectCql == SelectQuery(tableName, uniqueId, greaterEqual, lessEqual)
    {
      if uniqueId.0 != "" {
        var bound := "SELECT * FROM " + tableName + " WHERE date = ? AND (time," + uniqueId.0 + ") >";
        if greaterEqual {
          bound := bound + "=";
        }
        var upper := bound + " (?,?) AND (time," + uniqueId.0 + ") <";
        if lessEqual {
          upper := upper + "=";
        }
        selectCql := upper + " (?,?)";
      } else {
        selectCql := "SELECT * FROM " + tableName + " WHERE date = ? AND time >= ? AND time < ?";
      }
    }

    /** `updateMetadata(rows, results, checkIfExists)`: counts the rows
      * whose insert succeeded and widens the smallest and largest key over
      * them; the metadata take the new keys and count only when
      * `checkIfExists`. */
    method UpdateMetadata(keys: seq<DataTypes.PrimaryKey>, results: seq<bool>, checkIfExists: bool)
      returns (added: nat)
      requires |results| == |keys|
      modifies this`minEntryKey, this`maxEntryKey, this`numEntries
      ensures added == CountTrue(results)
      ensures checkIfExists ==> minEntryKey == WidenMin(old(minEntryKey), keys, results)
                                && maxEntryKey == WidenMax(old(maxEntryKey), keys, results)
                                && numEntries == old(numEntries) + added
      ensures !checkIfExists ==> minEntryKey == old(minEntryKey) && maxEntryKey == old(maxEntryKey)
                                 && numEntries == old(numEntries)
    {
      var minKey, maxKey := minEntryKey, maxEntryKey;
      added := 0;
      var i := 0;
      while i < |keys|
        invariant 0 <= i <= |keys|
        invariant added == CountTrue(results[..i])
        invariant minKey == WidenMin(minEntryKey, keys[..i], results[..i])
        invariant maxKey == WidenMax(maxEntryKey, keys[..i], results[..i])
      {
        assert keys[..i + 1][..i] == keys[..i] && results[..i + 1][..i] == results[..i];
        if results[i] {
          added := added + 1;
          var current := keys[i];
          if DataTypes.Greater(current, maxKey) {
            maxKey := current;
          }
          if DataTypes.Less(current, minKey) {
            minKey := current;
          }
        }
        i := i + 1;
      }
      assert keys[..i] == keys && results[..i] == results;
      if checkIfExists {
        var existing := numEntries;
        if existing == 0 || minKey != minEntryKey {
          minEntryKey := minKey;
        }
        if existing == 0 || maxKey != maxEntryKey {
          maxEntryKey := maxKey;
        }
        if added > 0 {
          numEntries := existing + added;
        }
      }
    }
  }

  /** The loop writing "?," once per column. */
  method PlaceholderList(n: nat) returns (values: string)
    requires n >= 1
    ensures |values| == 2 * n && values[..|values| - 1] == Placeholders(n)
  {
    values := "";
    var k := 0;
    while k < n
      invariant 0 <= k <= n && |values| == 2 * k
      invariant k >= 1 ==> values == Placeholders(k) + ","
    {
      if k >= 1 {
        assert values + "?," == Placeholders(k + 1) + ",";
      }
      values := values + "?,";
      k := k + 1;
    }
    assert values[..|values| - 1] == Placeholders(n);
  }
}
