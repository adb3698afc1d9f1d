/**
 * Column classification, key selection and SQL value literals: the static helpers
 * the table builder and the SQL builders share.
 */
module Utils {
  import opened Wrappers
  import opened Seqs
  import opened Text
  import opened Utf8
  import opened Dtos

  // ---------------------------------------------------------------------------
  // Entities and identity columns
  // ---------------------------------------------------------------------------

  const EntityColumnNames: seq<string> := ["Code", "Name", "Description"]

  predicate IsEntityColumn(c: ColumnInfo) {
    ContainsIgnoreCase(EntityColumnNames, c.columnName)
  }

  /**
   * A table is an entity when it has an identity column and exactly three of its
   * columns are named Code, Name or Description (in any letter case).
   */
  function IsEntity(columns: seq<ColumnInfo>): (r: bool)
    ensures r <==> (exists i :: 0 <= i < |columns| && columns[i].isIdentity)
                   && |Filter(IsEntityColumn, columns)| == 3
  {
    (exists i :: 0 <= i < |columns| && columns[i].isIdentity)
      && Count(IsEntityColumn, columns) == |EntityColumnNames|
  }

  /** The entity column names, folded to lower case. */
  predicate IsEntityName(name: string) {
    Lower(name) in {"code", "name", "description"}
  }

  /** A column is an entity column exactly when its lower-cased name is code, name or description. */
  lemma EntityColumnByName(c: ColumnInfo)
    ensures IsEntityColumn(c) <==> IsEntityName(c.columnName)
  {
    assert Lower("Code") == "code";
    assert Lower("Name") == "name";
    assert Lower("Description") == "description";
    if IsEntityName(c.columnName) {
      var n := Lower(c.columnName);
      if n == "code" {
        assert EqualsIgnoreCase(EntityColumnNames[0], c.columnName);
      } else if n == "name" {
        assert EqualsIgnoreCase(EntityColumnNames[1], c.columnName);
      } else {
        assert EqualsIgnoreCase(EntityColumnNames[2], c.columnName);
      }
    }
  }

  /**
   * IsEntity counts positions: a table is an entity exactly when it has an identity
   * column and three of its columns carry an entity name, so a name that appears twice
   * counts twice and a missing one is not required.
   */
  lemma IsEntityByPositions(columns: seq<ColumnInfo>)
    ensures IsEntity(columns) <==>
      (exists i :: 0 <= i < |columns| && columns[i].isIdentity)
        && |set i | 0 <= i < |columns| && IsEntityName(columns[i].columnName)| == 3
  {
    CountIndices(IsEntityColumn, columns);
    forall i | 0 <= i < |columns| {
      EntityColumnByName(columns[i]);
    }
    assert IndicesWhere(IsEntityColumn, columns) == set i | 0 <= i < |columns| && IsEntityName(columns[i].columnName);
  }

  /** A column that is neither identity nor entity does not change whether a table is an entity. */
  lemma {:induction false} EntityIgnoresOtherColumns(columns: seq<ColumnInfo>, c: ColumnInfo)
    requires !c.isIdentity && !IsEntityColumn(c)
    ensures IsEntity(columns + [c]) == IsEntity(columns)
  {
    CountConcat(IsEntityColumn, columns, [c]);
    assert [c][1..] == [];
    var all := columns + [c];
    if exists i :: 0 <= i < |all| && all[i].isIdentity {
      var i :| 0 <= i < |all| && all[i].isIdentity;
      assert i < |columns| && columns[i].isIdentity;
    }
    if exists i :: 0 <= i < |columns| && columns[i].isIdentity {
      var i :| 0 <= i < |columns| && columns[i].isIdentity;
      assert all[i].isIdentity;
    }
  }

  /** Every column with an entity name adds one to the count, even one whose name is already there. */
  lemma {:induction false} EntityColumnCountsAgain(columns: seq<ColumnInfo>, c: ColumnInfo)
    requires IsEntityColumn(c)
    ensures |Filter(IsEntityColumn, columns + [c])| == |Filter(IsEntityColumn, columns)| + 1
  {
    CountConcat(IsEntityColumn, columns, [c]);
    assert [c][1..] == [];
  }

  /** The seven spellings of an identity column for a table, compared ignoring case. */
  function IdentityColumnNames(table: string): (r: seq<string>)
    ensures |r| == 7 && r[0] == "id"
    ensures table + "id" in r && table + "_id" in r && ToSnakeCase(table) + "_id" in r
    ensures "id" + table in r && "id_" + table in r && "id_" + ToSnakeCase(table) in r
  {
    var snake := ToSnakeCase(table);
    ["id", "id" + table, table + "id", "id_" + table, table + "_id", "id_" + snake, snake + "_id"]
  }

  predicate IsIdentityColumnName(table: string, columnName: string) {
    ContainsIgnoreCase(IdentityColumnNames(table), columnName)
  }

  /**
   * A column names the identity of `table` exactly when, ignoring case, it is `id`,
   * `id` before or after the table name (with or without `_`), or `id_` before or
   * `_id` after the table name in snake_case: `Id`, `OrderLineId` and `order_line_id`
   * all name the identity of table `OrderLine`.
   */
  lemma IdentityColumnNameForms(table: string, columnName: string)
    ensures IsIdentityColumnName(table, columnName) <==>
      || EqualsIgnoreCase(columnName, "id")
      || EqualsIgnoreCase(columnName, "id" + table)
      || EqualsIgnoreCase(columnName, table + "id")
      || EqualsIgnoreCase(columnName, "id_" + table)
      || EqualsIgnoreCase(columnName, table + "_id")
      || EqualsIgnoreCase(columnName, "id_" + ToSnakeCase(table))
      || EqualsIgnoreCase(columnName, ToSnakeCase(table) + "_id")
  {
    var names := IdentityColumnNames(table);
    if IsIdentityColumnName(table, columnName) {
      var i :| 0 <= i < |names| && EqualsIgnoreCase(names[i], columnName);
      assert i in {0, 1, 2, 3, 4, 5, 6};
    }
    if EqualsIgnoreCase(columnName, "id") { assert EqualsIgnoreCase(names[0], columnName); }
    if EqualsIgnoreCase(columnName, "id" + table) { assert EqualsIgnoreCase(names[1], columnName); }
    if EqualsIgnoreCase(columnName, table + "id") { assert EqualsIgnoreCase(names[2], columnName); }
    if EqualsIgnoreCase(columnName, "id_" + table) { assert EqualsIgnoreCase(names[3], columnName); }
    if EqualsIgnoreCase(columnName, table + "_id") { assert EqualsIgnoreCase(names[4], columnName); }
    if EqualsIgnoreCase(columnName, "id_" + ToSnakeCase(table)) { assert EqualsIgnoreCase(names[5], columnName); }
    if EqualsIgnoreCase(columnName, ToSnakeCase(table) + "_id") { assert EqualsIgnoreCase(names[6], columnName); }
  }

  /** Marks a column as identity when the catalog says so or when it is a primary key named like one. */
  predicate IsIdentity(column: ColumnInfo) {
    column.isIdentity || (IsIdentityColumnName(column.table, column.columnName) && column.isPK)
  }

  /**
   * A foreign key that is flagged as an extension, or that is a non-identity primary
   * key named like the table's identity column.
   */
  predicate IsExtension(column: ColumnInfo)
    ensures IsExtension(column) ==> column.isFK
  {
    column.isFK
      && (column.isExtension
          || (!column.isIdentity && IsIdentityColumnName(column.table, column.columnName) && column.isPK))
  }

  // ---------------------------------------------------------------------------
  // snake_case
  // ---------------------------------------------------------------------------

  function SnakeTail(s: string): (r: string)
    ensures forall i :: 0 <= i < |r| ==> !IsUpper(r[i])
    ensures '_' !in s ==> |r| >= |s|
  {
    if s == [] then []
    else (if IsUpper(s[0]) then ['_', LowerChar(s[0])] else [s[0]]) + SnakeTail(s[1..])
  }

  /**
   * `OrderLine` becomes `order_line`... except that the first character keeps its case:
   * every upper-case letter after the first position becomes `_` and its lower case.
   * Empty text and text that already contains `_` come back unchanged.
   */
  function ToSnakeCase(text: string): (r: string)
    ensures |r| >= |text|
    ensures text == [] || '_' in text ==> r == text
    ensures text != [] && '_' !in text ==> r[0] == text[0] && forall i :: 1 <= i < |r| ==> !IsUpper(r[i])
  {
    if text == [] || '_' in text then text else [text[0]] + SnakeTail(text[1..])
  }

  predicate NotUnderscore(c: char) {
    c != '_'
  }

  /** SnakeTail adds one character, an underscore, per upper-case letter. */
  lemma {:induction false} SnakeTailLength(s: string)
    ensures |SnakeTail(s)| == |s| + Count(IsUpper, s)
  {
    if s != [] {
      SnakeTailLength(s[1..]);
    }
  }

  /** Dropping the underscores SnakeTail adds leaves the text in lower case. */
  lemma {:induction false} SnakeTailLower(s: string)
    requires '_' !in s
    ensures Filter(NotUnderscore, SnakeTail(s)) == Lower(s)
  {
    if s != [] {
      SnakeTailLower(s[1..]);
      var t := SnakeTail(s[1..]);
      assert Lower(s) == [LowerChar(s[0])] + Lower(s[1..]);
      if IsUpper(s[0]) {
        var w := ['_', LowerChar(s[0])] + t;
        assert w[1..] == [LowerChar(s[0])] + t;
        assert ([LowerChar(s[0])] + t)[1..] == t;
        assert Filter(NotUnderscore, w) == Filter(NotUnderscore, w[1..]);
      } else {
        var w := [s[0]] + t;
        assert w[1..] == t;
      }
    }
  }

  /** Each underscore SnakeTail adds is followed by the lower-case letter it stands before. */
  lemma {:induction false} SnakeTailUnderscores(s: string)
    requires '_' !in s
    ensures var r := SnakeTail(s);
      forall i :: 0 <= i < |r| && r[i] == '_' ==> i + 1 < |r| && IsLower(r[i + 1])
  {
    if s != [] {
      SnakeTailUnderscores(s[1..]);
      var t := SnakeTail(s[1..]);
      if IsUpper(s[0]) {
        var w := ['_', LowerChar(s[0])] + t;
        assert SnakeTail(s) == w;
        forall i | 0 <= i < |w| && w[i] == '_'
          ensures i + 1 < |w| && IsLower(w[i + 1])
        {
          if i >= 2 {
            assert SnakeTail(s[1..])[i - 2] == w[i] == '_';
            assert IsLower(SnakeTail(s[1..])[i - 1]);
            assert w[i + 1] == t[i - 1];
          } else {
            assert i == 0;
          }
        }
      } else {
        var w := [s[0]] + t;
        assert SnakeTail(s) == w;
        assert s[0] in s;
        forall i | 0 <= i < |w| && w[i] == '_'
          ensures i + 1 < |w| && IsLower(w[i + 1])
        {
          if i >= 1 {
            assert SnakeTail(s[1..])[i - 1] == w[i] == '_';
            assert IsLower(SnakeTail(s[1..])[i]);
            assert w[i + 1] == t[i];
          }
        }
      }
    }
  }

  /**
   * ToSnakeCase on a name without `_`: the first character stays, dropping the
   * underscores from the rest leaves the rest in lower case, and there is one
   * underscore per upper-case letter after the first character, each followed by
   * that letter in lower case.
   */
  lemma SnakeCaseShape(text: string)
    requires text != [] && '_' !in text
    ensures var r := ToSnakeCase(text);
      && r[0] == text[0]
      && Filter(NotUnderscore, r[1..]) == Lower(text[1..])
      && |r| == |text| + Count(IsUpper, text[1..])
      && forall i :: 0 <= i < |r| && r[i] == '_' ==> 1 <= i && i + 1 < |r| && IsLower(r[i + 1])
  {
    var r := ToSnakeCase(text);
    SnakeTailLength(text[1..]);
    SnakeTailLower(text[1..]);
    SnakeTailUnderscores(text[1..]);
    assert r[1..] == SnakeTail(text[1..]);
    forall i | 0 <= i < |r| && r[i] == '_'
      ensures 1 <= i && i + 1 < |r| && IsLower(r[i + 1])
    {
      assert r[i] == SnakeTail(text[1..])[i - 1];
    }
  }

  function FromSnakeTail(s: string): string
    decreases |s|
  {
    if s == [] then []
    else if s[0] == '_' && |s| >= 2 then [UpperChar(s[1])] + FromSnakeTail(s[2..])
    else [s[0]] + FromSnakeTail(s[1..])
  }

  /** Reads a name written by ToSnakeCase back: `_x` after the first character is `X`. */
  function FromSnakeCase(s: string): string {
    if s == [] then [] else [s[0]] + FromSnakeTail(s[1..])
  }

  lemma {:induction false} FromSnakeTailInverse(s: string)
    requires '_' !in s
    ensures FromSnakeTail(SnakeTail(s)) == s
  {
    if s != [] {
      var t := SnakeTail(s[1..]);
      FromSnakeTailInverse(s[1..]);
      if IsUpper(s[0]) {
        var w := ['_', LowerChar(s[0])] + t;
        assert w[0] == '_' && w[1] == LowerChar(s[0]) && w[2..] == t;
      } else {
        var w := [s[0]] + t;
        assert w[0] == s[0] && w[1..] == t;
      }
      assert s == [s[0]] + s[1..];
    }
  }

  /** On names without `_`, ToSnakeCase loses nothing: FromSnakeCase undoes it. */
  lemma SnakeCaseRoundTrip(text: string)
    requires '_' !in text
    ensures FromSnakeCase(ToSnakeCase(text)) == text
  {
    if text != [] {
      FromSnakeTailInverse(text[1..]);
      var r := ToSnakeCase(text);
      assert r[1..] == SnakeTail(text[1..]);
      assert text == [text[0]] + text[1..];
    }
  }

  // ---------------------------------------------------------------------------
  // Column lists
  // ---------------------------------------------------------------------------

  const TimeColumnNames: seq<string> := ["InsDateTime", "UpdDateTime", "CreatedAt", "UpdatedAt"]
  const UpdateTimeColumnNames: seq<string> := ["UpdDateTime", "UpdatedAt"]
  const CreationTimeColumnNames: seq<string> := ["InsDateTime", "CreatedAt"]

  predicate IsUpdateTime(column: ColumnInfo) {
    ContainsIgnoreCase(UpdateTimeColumnNames, column.columnName)
  }

  predicate IsCreationTime(column: ColumnInfo) {
    ContainsIgnoreCase(CreationTimeColumnNames, column.columnName)
  }

  /** The time-stamp columns are exactly the update-time and the creation-time ones. */
  lemma TimeColumnsSplit(column: ColumnInfo)
    ensures ContainsIgnoreCase(TimeColumnNames, column.columnName)
      <==> IsUpdateTime(column) || IsCreationTime(column)
  {
    var n := column.columnName;
    if ContainsIgnoreCase(TimeColumnNames, n) {
      var i :| 0 <= i < 4 && EqualsIgnoreCase(TimeColumnNames[i], n);
      if i == 0 { assert EqualsIgnoreCase(CreationTimeColumnNames[0], n); }
      else if i == 1 { assert EqualsIgnoreCase(UpdateTimeColumnNames[0], n); }
      else if i == 2 { assert EqualsIgnoreCase(CreationTimeColumnNames[1], n); }
      else { assert EqualsIgnoreCase(UpdateTimeColumnNames[1], n); }
    }
    if IsUpdateTime(column) {
      var i :| 0 <= i < 2 && EqualsIgnoreCase(UpdateTimeColumnNames[i], n);
      assert EqualsIgnoreCase(TimeColumnNames[2 * i + 1], n);
    }
    if IsCreationTime(column) {
      var i :| 0 <= i < 2 && EqualsIgnoreCase(CreationTimeColumnNames[i], n);
      assert EqualsIgnoreCase(TimeColumnNames[2 * i], n);
    }
  }

  /** Columns a caller supplies: not identity (unless an extension) and not a time stamp. */
  predicate FilterParametersOnly(column: ColumnInfo) {
    (!IsIdentity(column) || IsExtension(column))
      && !ContainsIgnoreCase(TimeColumnNames, column.columnName)
  }

  /** The lower-case spellings of the four time-stamp column names. */
  lemma LowerTimeColumnNames()
    ensures Lower(UpdateTimeColumnNames[0]) == "upddatetime" && Lower(UpdateTimeColumnNames[1]) == "updatedat"
    ensures Lower(CreationTimeColumnNames[0]) == "insdatetime" && Lower(CreationTimeColumnNames[1]) == "createdat"
  {
    assert Lower(UpdateTimeColumnNames[0]) == "upddatetime";
    assert Lower(UpdateTimeColumnNames[1]) == "updatedat";
    assert Lower(CreationTimeColumnNames[0]) == "insdatetime";
    assert Lower(CreationTimeColumnNames[1]) == "createdat";
  }

  /** An update-time column is one named `UpdDateTime` or `UpdatedAt`, in any mix of cases. */
  lemma UpdateTimeByName(column: ColumnInfo)
    ensures IsUpdateTime(column) <==> Lower(column.columnName) in {"upddatetime", "updatedat"}
  {
    LowerTimeColumnNames();
    var n := column.columnName;
    if Lower(n) == "upddatetime" { assert EqualsIgnoreCase(UpdateTimeColumnNames[0], n); }
    if Lower(n) == "updatedat" { assert EqualsIgnoreCase(UpdateTimeColumnNames[1], n); }
  }

  /** A creation-time column is one named `InsDateTime` or `CreatedAt`, in any mix of cases. */
  lemma CreationTimeByName(column: ColumnInfo)
    ensures IsCreationTime(column) <==> Lower(column.columnName) in {"insdatetime", "createdat"}
  {
    LowerTimeColumnNames();
    var n := column.columnName;
    if Lower(n) == "insdatetime" { assert EqualsIgnoreCase(CreationTimeColumnNames[0], n); }
    if Lower(n) == "createdat" { assert EqualsIgnoreCase(CreationTimeColumnNames[1], n); }
  }

  /** No column is both an update-time and a creation-time column. */
  lemma TimeKindsExclusive(column: ColumnInfo)
    ensures !(IsUpdateTime(column) && IsCreationTime(column))
  {
    UpdateTimeByName(column);
    CreationTimeByName(column);
  }

  /**
   * A column is an identity when the catalog flags it, or when it is a primary key named
   * `id`, `id`/`id_` before the table name (or its snake_case), or `id`/`_id` after it.
   */
  lemma IdentityByName(column: ColumnInfo)
    ensures IsIdentity(column) <==> column.isIdentity || (column.isPK && IsIdentityFormOf(column))
  {
    IdentityColumnNameForms(column.table, column.columnName);
  }

  /** One of the seven identity spellings of IdentityColumnNameForms for the column's own table. */
  predicate IsIdentityFormOf(column: ColumnInfo) {
      || EqualsIgnoreCase(column.columnName, "id")
      || EqualsIgnoreCase(column.columnName, "id" + column.table)
      || EqualsIgnoreCase(column.columnName, column.table + "id")
      || EqualsIgnoreCase(column.columnName, "id_" + column.table)
      || EqualsIgnoreCase(column.columnName, column.table + "_id")
      || EqualsIgnoreCase(column.columnName, "id_" + ToSnakeCase(column.table))
      || EqualsIgnoreCase(column.columnName, ToSnakeCase(column.table) + "_id")
  }

  /**
   * The columns a caller supplies: identities only when they extend another table, and
   * never a time stamp. A catalog identity that is not a foreign key is never supplied;
   * a plain column (neither key nor identity) is supplied exactly when it is no time stamp.
   */
  lemma ParameterColumns(column: ColumnInfo)
    ensures FilterParametersOnly(column)
      <==> (!IsIdentity(column) || IsExtension(column)) && !IsUpdateTime(column) && !IsCreationTime(column)
    ensures column.isIdentity && !column.isFK ==> !FilterParametersOnly(column)
    ensures !column.isPK && !column.isIdentity
      ==> (FilterParametersOnly(column) <==> !IsUpdateTime(column) && !IsCreationTime(column))
  {
    TimeColumnsSplit(column);
  }

  /** The catalog (or derived) identity flag. */
  predicate IsIdentityColumn(c: ColumnInfo) {
    c.isIdentity
  }

  predicate IsKeyCandidate(c: ColumnInfo) {
    FilterParametersOnly(c) && ((c.isPK && !c.isIdentity) || c.isUK)
  }

  predicate IsUniqueKey(c: ColumnInfo) {
    c.isUK
  }

  predicate IsIdentityOrExtension(c: ColumnInfo) {
    c.isIdentity || c.isExtension
  }

  /**
   * The columns that identify a row for MERGE: supplied non-identity primary keys and
   * unique keys; failing that, any unique key; failing that, identity or extension columns.
   */
  function FilterIdentifierColumns(columns: seq<ColumnInfo>): (r: seq<ColumnInfo>)
    ensures Subseq(r, columns)
    ensures Filter(IsKeyCandidate, columns) != [] ==> r == Filter(IsKeyCandidate, columns)
    ensures Filter(IsKeyCandidate, columns) == [] && Filter(IsUniqueKey, columns) != []
      ==> r == Filter(IsUniqueKey, columns)
    ensures Filter(IsKeyCandidate, columns) == [] && Filter(IsUniqueKey, columns) == []
      ==> r == Filter(IsIdentityOrExtension, columns)
    ensures (exists i :: 0 <= i < |columns| && IsIdentityOrExtension(columns[i])) ==> r != []
  {
    var keys := Filter(IsKeyCandidate, columns);
    var uniques := Filter(IsUniqueKey, columns);
    if keys != [] then
      FilterIsSubseq(IsKeyCandidate, columns);
      keys
    else if uniques != [] then
      FilterIsSubseq(IsUniqueKey, columns);
      uniques
    else
      FilterIsSubseq(IsIdentityOrExtension, columns);
      var r := Filter(IsIdentityOrExtension, columns);
      assert (exists i :: 0 <= i < |columns| && IsIdentityOrExtension(columns[i])) ==> r != [] by {
        if i :| 0 <= i < |columns| && IsIdentityOrExtension(columns[i]) {
          assert columns[i] in r;
        }
      }
      r
  }

  /** The table's columns whose names are listed as identifier columns, in column order. */
  function GetIdentifierColumns(tableInfo: TableInfo): (r: seq<ColumnInfo>)
    ensures Subseq(r, tableInfo.columns)
    ensures forall c :: c in r <==> c in tableInfo.columns && c.columnName in tableInfo.identifierColumns
  {
    FilterIsSubseq((c: ColumnInfo) => c.columnName in tableInfo.identifierColumns, tableInfo.columns);
    Filter((c: ColumnInfo) => c.columnName in tableInfo.identifierColumns, tableInfo.columns)
  }

  predicate IsInsertable(c: ColumnInfo) {
    !c.isIdentity
  }

  predicate IsUpdateable(c: ColumnInfo) {
    !c.isIdentity && !c.isExtension && !IsCreationTime(c)
  }

  /** Exactly the non-identity columns, in order. */
  function FilterInsertableColumns(columns: seq<ColumnInfo>): (r: seq<ColumnInfo>)
    ensures Subseq(r, columns)
    ensures forall c :: c in r <==> c in columns && !c.isIdentity
  {
    FilterIsSubseq(IsInsertable, columns);
    Filter(IsInsertable, columns)
  }

  /** The insertable columns minus extensions and creation time stamps, in order. */
  function FilterUpdateableColumns(columns: seq<ColumnInfo>): (r: seq<ColumnInfo>)
    ensures Subseq(r, FilterInsertableColumns(columns))
    ensures forall c :: c in r <==> c in FilterInsertableColumns(columns) && !c.isExtension && !IsCreationTime(c)
  {
    FilterStrongerIsSubseq(IsUpdateable, IsInsertable, columns);
    Filter(IsUpdateable, columns)
  }

  // ---------------------------------------------------------------------------
  // SQL literals
  // ---------------------------------------------------------------------------

  /**
   * The culture-dependent conversions of the runtime: each renders the parsed value
   * of a text, or gives None when the text does not parse.
   */
  datatype Conversions = Conversions(
    int64: string -> Option<string>,
    decimal: string -> Option<string>,
    double: string -> Option<string>,
    timeSpan: string -> Option<string>,
    dateTimeOffset: string -> Option<string>,
    dateTime: string -> Option<string>)

  function Quote(s: string): string {
    "'" + s + "'"
  }

  /** `'` becomes `''`: the SQL escape of a quote inside a string literal. */
  function DoubleQuotes(s: string): string {
    ReplaceAll(s, "'", "''")
  }

  function ConvertOrFail(convert: string -> Option<string>, dataType: DataType, value: string): Outcome<string> {
    match convert(value)
    case None => Failure(ConversionFailed(dataType, value))
    case Some(text) => Success(text)
  }

  function QuoteOrNull(convert: string -> Option<string>, value: string): string {
    match convert(value)
    case None => "NULL"
    case Some(text) => Quote(text)
  }

  /** The SQL literal of a value of the given type; fails where the runtime's Convert throws. */
  function ParamValueToString(conv: Conversions, dataType: DataType, value: Option<string>): (r: Outcome<string>)
    ensures value.None? ==> r == Success("NULL")
    ensures r.Failure? ==> value.Some? && dataType in {Integer, Decimal, Float}
    ensures dataType == Boolean && value.Some? ==>
      r.Success? && r.value in {"1", "0"} && (r.value == "1" <==> value.value == "1" || Lower(value.value) == "true")
  {
    match value
    case None => Success("NULL")
    case Some(v) =>
      match dataType
      case Boolean => Success(if v == "1" || Lower(v) == "true" then "1" else "0")
      case Integer => ConvertOrFail(conv.int64, dataType, v)
      case Decimal => ConvertOrFail(conv.decimal, dataType, v)
      case Float => ConvertOrFail(conv.double, dataType, v)
      case TimeOnly => Success(QuoteOrNull(conv.timeSpan, v))
      case Binary => Success("0x" + Hex(Encode(v)))
      case DateTimeOffset => Success(QuoteOrNull(conv.dateTimeOffset, v))
      case DateTime => Success(QuoteOrNull(conv.dateTime, v))
      case String => Success(Quote(DoubleQuotes(v)))
      case Json => Success(Quote(DoubleQuotes(v)))
      case Xml => Success(Quote(DoubleQuotes(v)))
      case Guid => Success(Quote(v))
      case Char => Success(Quote(v))
      case Undefined => Success(Quote(v))
  }

  /**
   * The SQL value for a column: time-stamp columns always take the server clock, a
   * parenthesised value is a sub-query passed through, anything else is a literal.
   */
  function GetValueSql(conv: Conversions, column: ColumnInfo, value: Option<string>): (r: Outcome<string>)
    ensures IsUpdateTime(column) || IsCreationTime(column) ==> r == Success("sysdatetimeoffset()")
    ensures (!IsUpdateTime(column) && !IsCreationTime(column) && value.Some?
             && StartsWith(value.value, "(") && EndsWith(value.value, ")")) ==> r == Success(value.value)
    ensures r.Failure? ==> r == ParamValueToString(conv, column.dataType, value)
    ensures (!IsUpdateTime(column) && !IsCreationTime(column)
             && !(value.Some? && StartsWith(value.value, "(") && EndsWith(value.value, ")")))
      ==> r == ParamValueToString(conv, column.dataType, value)
  {
    if IsUpdateTime(column) || IsCreationTime(column) then Success("sysdatetimeoffset()")
    else if value.Some? && StartsWith(value.value, "(") && EndsWith(value.value, ")") then Success(value.value)
    else ParamValueToString(conv, column.dataType, value)
  }

  /** Reads a hexadecimal binary literal back into the text whose UTF-8 bytes it holds. */
  function BinaryLiteralText(literal: string): Option<string> {
    if |literal| < 2 || literal[..2] != "0x" then None
    else match Unhex(literal[2..])
      case None => None
      case Some(bytes) => Decode(bytes)
  }

  /** A binary literal is `0x` and two hex digits per UTF-8 byte, and it decodes to the value. */
  lemma BinaryRoundTrip(conv: Conversions, v: string)
    ensures ParamValueToString(conv, Binary, Some(v)).Success?
    ensures var lit := ParamValueToString(conv, Binary, Some(v)).value;
      |lit| == 2 + 2 * |Encode(v)| && BinaryLiteralText(lit) == Some(v)
  {
    var lit := "0x" + Hex(Encode(v));
    assert lit[..2] == "0x" && lit[2..] == Hex(Encode(v));
    UnhexHex(Encode(v));
    DecodeEncode(v);
  }

  /** Undoes quote doubling; None when a quote stands alone (the literal would end there). */
  function UndoubleQuotes(s: string): Option<string>
    decreases |s|
  {
    if s == [] then Some([])
    else if s[0] == '\'' then
      if |s| >= 2 && s[1] == '\'' then
        match UndoubleQuotes(s[2..])
        case None => None
        case Some(rest) => Some("'" + rest)
      else None
    else
      match UndoubleQuotes(s[1..])
      case None => None
      case Some(rest) => Some([s[0]] + rest)
  }

  /** The text of a quoted SQL string literal, or None when it is not one. */
  function UnquoteLiteral(literal: string): Option<string> {
    if |literal| >= 2 && literal[0] == '\'' && literal[|literal| - 1] == '\'' then
      UndoubleQuotes(literal[1..|literal| - 1])
    else None
  }

  lemma {:induction false} UndoubleDouble(s: string)
    ensures UndoubleQuotes(DoubleQuotes(s)) == Some(s)
    decreases |s|
  {
    if s != [] {
      ReplaceCharCons(s[0], s[1..], '\'', "''");
      assert s == [s[0]] + s[1..];
      UndoubleDouble(s[1..]);
      var d := DoubleQuotes(s);
      var t := DoubleQuotes(s[1..]);
      if s[0] == '\'' {
        assert d == "''" + t && d[2..] == t;
      } else {
        assert d == [s[0]] + t && d[1..] == t;
      }
    }
  }

  /** String, Json and Xml literals escape every quote: unquoting gives the value back. */
  lemma QuotedLiteralRoundTrip(conv: Conversions, dataType: DataType, v: string)
    requires dataType in {String, Json, Xml}
    ensures ParamValueToString(conv, dataType, Some(v)).Success?
    ensures UnquoteLiteral(ParamValueToString(conv, dataType, Some(v)).value) == Some(v)
  {
    var lit := Quote(DoubleQuotes(v));
    assert lit[1..|lit| - 1] == DoubleQuotes(v);
    UndoubleDouble(v);
  }

  /** Guid, Char and untyped values are quoted as they are: a quote inside closes the literal early. */
  lemma UnescapedLiteral(conv: Conversions, dataType: DataType)
    requires dataType in {Guid, Char, Undefined}
    ensures forall v :: ParamValueToString(conv, dataType, Some(v)) == Success("'" + v + "'")
    ensures ParamValueToString(conv, dataType, Some("'")) == Success("'''")
    ensures UnquoteLiteral("'''") == None
  {
    assert Quote("'") == "'''";
    assert "'''"[1..2] == "'";
  }

  // ---------------------------------------------------------------------------
  // Column types
  // ---------------------------------------------------------------------------

  /** The type of a normalised database type name. */
  function TypeOfName(name: string): (r: DataType)
    ensures r !in {Json, Xml, Guid}
    ensures r == Undefined <==> name !in KnownTypeNames
  {
    if name in {"TCode", "TName", "TDescription", "nvarchar", "varchar", "nchar"} then String
    else if name == "char" then Char
    else if name in {"TActive", "bit"} then Boolean
    else if name == "time" then TimeOnly
    else if name in {"TDateTime", "datetimeoffset", "datetimeoffset2"} then DateTimeOffset
    else if name in {"date", "datetime2", "smalldatetime"} then DateTime
    else if name in {"bigint", "int", "tinyint", "smallint"} then Integer
    else if name in {"real", "float"} then Float
    else if name in {"numeric", "decimal"} then Decimal
    else if name in {"varbinary", "binary"} then Binary
    else Undefined
  }

  const KnownTypeNames: set<string> := {
    "TCode", "TName", "TDescription", "nvarchar", "varchar", "nchar", "char", "TActive", "bit",
    "time", "TDateTime", "datetimeoffset", "datetimeoffset2", "date", "datetime2", "smalldatetime",
    "bigint", "int", "tinyint", "smallint", "real", "float", "numeric", "decimal", "varbinary", "binary"}

  /** Drops brackets and the `Common.` prefix of user-defined types, then trims. */
  function NormalizeTypeName(dbType: string): string {
    Trim(ReplaceAll(ReplaceAll(ReplaceAll(dbType, "[", ""), "]", ""), "Common.", ""))
  }

  /** The column type of a database type name; a missing name is Undefined. */
  function GetType(dbType: Option<string>): (r: DataType)
    ensures dbType.None? ==> r == Undefined
    ensures r !in {Json, Xml, Guid}
  {
    match dbType
    case None => Undefined
    case Some(t) => TypeOfName(NormalizeTypeName(t))
  }

  /** A type name without brackets, without `Common.` and without surrounding white space. */
  predicate IsPlainTypeName(n: string) {
    '[' !in n && ']' !in n && !Contains(n, "Common.")
      && (n == [] || (!IsWhiteSpace(n[0]) && !IsWhiteSpace(n[|n| - 1])))
  }

  lemma PlainIsTrimmed(n: string)
    requires IsPlainTypeName(n)
    ensures Trim(n) == n
  {
    if n != [] {
      TrimStartPadded("", n);
      TrimEndPadded(n, "");
      assert "" + n == n && n + "" == n;
    }
  }

  /** A plain name maps through the table unchanged. */
  lemma GetTypePlain(n: string)
    requires IsPlainTypeName(n)
    ensures GetType(Some(n)) == TypeOfName(n)
  {
    ContainsChar(n, '[');
    ContainsChar(n, ']');
    ReplaceAbsent(n, "[", "");
    ReplaceAbsent(n, "]", "");
    ReplaceAbsent(n, "Common.", "");
    PlainIsTrimmed(n);
  }

  lemma StripOpeningBracket(n: string)
    requires '[' !in n
    ensures ReplaceAll("[" + n + "]", "[", "") == n + "]"
  {
    ContainsChar(n, '[');
    ReplaceAbsent(n, "[", "");
    ReplaceCharConcat(n, "]", '[', "");
    ReplaceCharCons('[', n + "]", '[', "");
    assert "[" + n + "]" == ['['] + (n + "]");
    KeepWithoutChar("]", '[');
  }

  lemma StripClosingBracket(n: string)
    requires ']' !in n
    ensures ReplaceAll(n + "]", "]", "") == n
  {
    ContainsChar(n, ']');
    ReplaceAbsent(n, "]", "");
    ReplaceCharConcat(n, "]", ']', "");
    assert ReplaceAll("]", "]", "") == "";
    assert n + "" == n;
  }

  /** A bracketed name such as `[nvarchar]` has the type of the name inside the brackets. */
  lemma GetTypeBracketed(n: string)
    requires IsPlainTypeName(n)
    ensures GetType(Some("[" + n + "]")) == TypeOfName(n)
  {
    StripOpeningBracket(n);
    StripClosingBracket(n);
    ReplaceAbsent(n, "Common.", "");
    PlainIsTrimmed(n);
  }

  /** Every character of `Common.` is visible, so none of it is white space. */
  lemma CommonPrefixVisible(i: nat)
    requires i < |"Common."|
    ensures !IsWhiteSpace("Common."[i])
  {
  }

  /** The `Common.` schema prefix of a user-defined type is dropped. */
  lemma DropCommonPrefix(n: string)
    requires !Contains(n, "Common.")
    ensures ReplaceAll("Common." + n, "Common.", "") == n
  {
    var s := "Common." + n;
    assert s[..7] == "Common." && s[7..] == n;
    ReplaceAbsent(n, "Common.", "");
  }

  lemma CharNotInConcat(a: string, b: string, c: char)
    requires c !in a && c !in b
    ensures c !in a + b
  {
  }

  /** Removing a character that does not occur changes nothing. */
  lemma KeepWithoutChar(s: string, c: char)
    requires c !in s
    ensures ReplaceAll(s, [c], "") == s
  {
    ContainsChar(s, c);
    ReplaceAbsent(s, [c], "");
  }

  lemma CommonKeepsBrackets(n: string)
    requires '[' !in n && ']' !in n
    ensures ReplaceAll(ReplaceAll("Common." + n, "[", ""), "]", "") == "Common." + n
  {
    CharNotInConcat("Common.", n, '[');
    CharNotInConcat("Common.", n, ']');
    KeepWithoutChar("Common." + n, '[');
    KeepWithoutChar("Common." + n, ']');
  }

  lemma NormalizeCommon(n: string)
    requires IsPlainTypeName(n)
    ensures NormalizeTypeName("Common." + n) == n
  {
    CommonKeepsBrackets(n);
    DropCommonPrefix(n);
    PlainIsTrimmed(n);
  }

  /** A type of the `Common` schema, such as `Common.TCode`, has the type of its own name. */
  lemma GetTypeCommon(n: string)
    requires IsPlainTypeName(n)
    ensures GetType(Some("Common." + n)) == TypeOfName(n)
  {
    NormalizeCommon(n);
  }

  lemma OpenCommonBrackets(n: string)
    requires '[' !in n
    ensures ReplaceAll("[Common].[" + n + "]", "[", "") == "Common]." + (n + "]")
  {
    var rest := "Common]." + ("[" + n + "]");
    assert "[Common].[" + n + "]" == ['['] + rest;
    ReplaceCharCons('[', rest, '[', "");
    ReplaceCharConcat("Common].", "[" + n + "]", '[', "");
    KeepWithoutChar("Common].", '[');
    StripOpeningBracket(n);
  }

  lemma CloseCommonBrackets(n: string)
    requires ']' !in n
    ensures ReplaceAll("Common]." + (n + "]"), "]", "") == "Common." + n
  {
    assert "Common]." + (n + "]") == "Common" + ("]" + ("." + (n + "]")));
    ReplaceCharConcat("Common", "]" + ("." + (n + "]")), ']', "");
    KeepWithoutChar("Common", ']');
    ReplaceCharCons(']', "." + (n + "]"), ']', "");
    ReplaceCharCons('.', n + "]", ']', "");
    StripClosingBracket(n);
  }

  lemma NormalizeCommonBracketed(n: string)
    requires IsPlainTypeName(n)
    ensures NormalizeTypeName("[Common].[" + n + "]") == n
  {
    OpenCommonBrackets(n);
    CloseCommonBrackets(n);
    DropCommonPrefix(n);
    PlainIsTrimmed(n);
  }

  /** A fully bracketed type of the `Common` schema, such as `[Common].[TCode]`, too. */
  lemma GetTypeCommonBracketed(n: string)
    requires IsPlainTypeName(n)
    ensures GetType(Some("[Common].[" + n + "]")) == TypeOfName(n)
  {
    NormalizeCommonBracketed(n);
  }

  /** `Common.` is not found in a plain name padded with white space. */
  lemma PaddedHasNoCommon(w1: string, n: string, w2: string)
    requires IsNullOrWhiteSpace(w1) && IsNullOrWhiteSpace(w2) && !Contains(n, "Common.")
    ensures !Contains(w1 + n + w2, "Common.")
  {
    var s := w1 + n + w2;
    if Contains(s, "Common.") {
      var i := ContainsSomewhere(s, "Common.");
      if i < |w1| {
        assert s[i] == w1[i] == "Common."[0];
        CommonPrefixVisible(0);
      } else if i + 7 > |w1| + |n| {
        assert s[i + 6] == w2[i + 6 - |w1| - |n|] == "Common."[6];
        CommonPrefixVisible(6);
      } else {
        assert n[i - |w1|..i - |w1| + 7] == s[i..i + 7];
        ContainsAt(n, "Common.", i - |w1|);
      }
    }
  }

  lemma {:induction false} TrimStartPadded(w: string, s: string)
    requires IsNullOrWhiteSpace(w) && (s == [] || !IsWhiteSpace(s[0]))
    ensures TrimStart(w + s) == s
    decreases |w|
  {
    if w == [] {
      assert w + s == s;
    } else {
      assert (w + s)[0] == w[0] && (w + s)[1..] == w[1..] + s;
      TrimStartPadded(w[1..], s);
    }
  }

  lemma {:induction false} TrimEndPadded(s: string, w: string)
    requires IsNullOrWhiteSpace(w) && (s == [] || !IsWhiteSpace(s[|s| - 1]))
    ensures TrimEnd(s + w) == s
    decreases |w|
  {
    if w == [] {
      assert s + w == s;
    } else {
      var t := s + w;
      assert t[|t| - 1] == w[|w| - 1] && t[..|t| - 1] == s + w[..|w| - 1];
      TrimEndPadded(s, w[..|w| - 1]);
    }
  }

  lemma PaddedKeepsBrackets(w1: string, n: string, w2: string)
    requires '[' !in n && ']' !in n && IsNullOrWhiteSpace(w1) && IsNullOrWhiteSpace(w2)
    ensures ReplaceAll(ReplaceAll(w1 + n + w2, "[", ""), "]", "") == w1 + n + w2
  {
    var s := w1 + n + w2;
    assert forall c :: c in w1 || c in w2 ==> IsWhiteSpace(c);
    assert '[' !in s && ']' !in s;
    KeepWithoutChar(s, '[');
    KeepWithoutChar(s, ']');
  }

  lemma PaddedTrim(w1: string, n: string, w2: string)
    requires IsPlainTypeName(n) && IsNullOrWhiteSpace(w1) && IsNullOrWhiteSpace(w2)
    ensures Trim(w1 + n + w2) == n
  {
    if n == [] {
      TrimBlankPadded(w1, w2);
      assert w1 + n + w2 == w1 + w2;
    } else {
      TrimVisiblePadded(w1, n, w2);
    }
  }

  lemma TrimBlankPadded(w1: string, w2: string)
    requires IsNullOrWhiteSpace(w1) && IsNullOrWhiteSpace(w2)
    ensures Trim(w1 + w2) == []
  {
    assert forall i :: 0 <= i < |w1 + w2| ==> (w1 + w2)[i] in w1 || (w1 + w2)[i] in w2;
  }

  lemma TrimVisiblePadded(w1: string, n: string, w2: string)
    requires n != [] && !IsWhiteSpace(n[0]) && !IsWhiteSpace(n[|n| - 1])
    requires IsNullOrWhiteSpace(w1) && IsNullOrWhiteSpace(w2)
    ensures Trim(w1 + n + w2) == n
  {
    ConcatAssoc(w1, n, w2);
    TrimStartPadded(w1, n + w2);
    TrimEndPadded(n, w2);
  }

  lemma ConcatAssoc(a: string, b: string, c: string)
    ensures a + b + c == a + (b + c)
  {
  }

  lemma NormalizePadded(w1: string, n: string, w2: string)
    requires IsPlainTypeName(n) && IsNullOrWhiteSpace(w1) && IsNullOrWhiteSpace(w2)
    ensures NormalizeTypeName(w1 + n + w2) == n
  {
    PaddedKeepsBrackets(w1, n, w2);
    PaddedHasNoCommon(w1, n, w2);
    ReplaceAbsent(w1 + n + w2, "Common.", "");
    PaddedTrim(w1, n, w2);
  }

  /** Surrounding white space, as in ` nvarchar `, does not change the type. */
  lemma GetTypePadded(w1: string, n: string, w2: string)
    requires IsPlainTypeName(n) && IsNullOrWhiteSpace(w1) && IsNullOrWhiteSpace(w2)
    ensures GetType(Some(w1 + n + w2)) == TypeOfName(n)
  {
    NormalizePadded(w1, n, w2);
  }
}
