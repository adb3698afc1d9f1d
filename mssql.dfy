/**
 * The SQL Server dialect: the MERGE upsert of one record, the `[column] = value`
 * assignments it is built from, the sub-select that finds a row's identity, and
 * the lookup of one row by its identity value.
 */
module Mssql {
  import opened Wrappers
  import opened Seqs
  import opened Text
  import opened Dtos
  import opened Utils

  /** `[name]`: a quoted identifier. */
  function Bracket(name: string): (r: string)
    ensures |r| == |name| + 2 && r[0] == '[' && r[|r| - 1] == ']' && r[1..|r| - 1] == name
  {
    "[" + name + "]"
  }

  /** `T.[c] = S.[c]`: the target column paired with the source column of the same name. */
  function TargetSourcePair(c: string): string {
    "T." + Bracket(c) + " = S." + Bracket(c)
  }

  function SourceColumn(c: string): string {
    "S." + Bracket(c)
  }

  function MergeHeader(t: TableInfo): string {
    "MERGE INTO " + Bracket(t.schema) + "." + Bracket(t.table) + " AS T "
  }

  function SelectList(selectColumnsSql: seq<string>): string {
    "    " + Join(",\n    ", selectColumnsSql)
  }

  function OnClause(t: TableInfo): string {
    "ON " + Join(" AND ", Map(TargetSourcePair, t.identifierColumns))
  }

  function UpdateClause(t: TableInfo): string {
    "WHEN MATCHED THEN UPDATE SET " + Join(", ", Map(TargetSourcePair, t.updateableColumns))
  }

  /** The bracketed insert columns, one per insertable column in order. */
  function InsertItems(t: TableInfo): (r: seq<string>)
    ensures |r| == |t.insertableColumns|
    ensures forall i :: 0 <= i < |r| ==> r[i] == Bracket(t.insertableColumns[i])
  {
    Map(Bracket, t.insertableColumns)
  }

  /** The VALUES items: position by position, the insert column taken from the source `S`. */
  function ValueItems(t: TableInfo): (r: seq<string>)
    ensures |r| == |InsertItems(t)|
    ensures forall i :: 0 <= i < |r| ==> r[i] == "S." + InsertItems(t)[i]
  {
    Map(SourceColumn, t.insertableColumns)
  }

  function InsertClause(t: TableInfo): string {
    "WHEN NOT MATCHED THEN INSERT (" + Join(", ", InsertItems(t)) + ")"
  }

  function ValuesClause(t: TableInfo): string {
    "VALUES (" + Join(", ", ValueItems(t)) + ")"
  }

  /**
   * The MERGE statement for one record of table `t`, whose source row is the list
   * of `[column] = value` assignments `selectColumnsSql`.
   */
  function GetMergeSql(t: TableInfo, selectColumnsSql: seq<string>): string {
    Join("\n", [MergeHeader(t), "USING (SELECT", SelectList(selectColumnsSql), ") AS S ",
                OnClause(t), UpdateClause(t), InsertClause(t), ValuesClause(t), ";"])
  }

  /** The lines of the source select: one per assignment, each but the last ending in a comma. */
  function SelectLines(selectColumnsSql: seq<string>): (r: seq<string>)
    ensures |r| == if selectColumnsSql == [] then 1 else |selectColumnsSql|
    ensures forall i :: 0 <= i < |r| ==> StartsWith(r[i], "    ")
  {
    if selectColumnsSql == [] then ["    "]
    else if |selectColumnsSql| == 1 then ["    " + selectColumnsSql[0]]
    else ["    " + selectColumnsSql[0] + ","] + SelectLines(selectColumnsSql[1..])
  }

  /** The statement line by line, as a reader of the generated script sees it. */
  function MergeLines(t: TableInfo, selectColumnsSql: seq<string>): seq<string> {
    [MergeHeader(t), "USING (SELECT"] + SelectLines(selectColumnsSql)
      + [") AS S ", OnClause(t), UpdateClause(t), InsertClause(t), ValuesClause(t), ";"]
  }

  lemma {:induction false} SelectListLines(sel: seq<string>)
    ensures SelectList(sel) == Join("\n", SelectLines(sel))
  {
    if |sel| > 1 {
      var first := "    " + sel[0] + ",";
      var tail := SelectLines(sel[1..]);
      SelectListLines(sel[1..]);
      JoinConcat("\n", [first], tail);
      assert SelectList(sel) == first + "\n" + SelectList(sel[1..]);
    }
  }

  /** The statement is its lines joined by line feeds. */
  lemma MergeSqlIsLines(t: TableInfo, sel: seq<string>)
    ensures GetMergeSql(t, sel) == Join("\n", MergeLines(t, sel))
  {
    var head := [MergeHeader(t), "USING (SELECT"];
    var body := SelectLines(sel);
    var tail := [") AS S ", OnClause(t), UpdateClause(t), InsertClause(t), ValuesClause(t), ";"];
    var list := SelectList(sel);
    SelectListLines(sel);
    var whole := [MergeHeader(t), "USING (SELECT", list, ") AS S ",
                  OnClause(t), UpdateClause(t), InsertClause(t), ValuesClause(t), ";"];
    assert whole == head + ([list] + tail);
    JoinConcat("\n", head, [list] + tail);
    JoinConcat("\n", [list], tail);
    assert MergeLines(t, sel) == head + (body + tail);
    JoinConcat("\n", head, body + tail);
    JoinConcat("\n", body, tail);
  }

  /** No name and no assignment of the statement contains a line feed. */
  predicate SingleLineNames(t: TableInfo, sel: seq<string>) {
    '\n' !in t.schema && '\n' !in t.table
      && (forall c :: c in t.identifierColumns ==> '\n' !in c)
      && (forall c :: c in t.updateableColumns ==> '\n' !in c)
      && (forall c :: c in t.insertableColumns ==> '\n' !in c)
      && (forall s :: s in sel ==> '\n' !in s)
  }

  lemma JoinedNamesSingleLine(sep: string, f: string -> string, names: seq<string>)
    requires '\n' !in sep
    requires forall c :: c in names ==> '\n' !in f(c)
    ensures '\n' !in Join(sep, Map(f, names))
  {
    var items := Map(f, names);
    assert forall i :: 0 <= i < |items| ==> items[i] == f(names[i]) && names[i] in names;
    JoinAvoids(sep, items, '\n');
  }

  lemma {:induction false} SelectLinesSingleLine(sel: seq<string>)
    requires forall s :: s in sel ==> '\n' !in s
    ensures forall l :: l in SelectLines(sel) ==> '\n' !in l
  {
    if |sel| > 1 {
      SelectLinesSingleLine(sel[1..]);
      assert sel[0] in sel;
    } else if |sel| == 1 {
      assert sel[0] in sel;
    }
  }

  lemma PairsSingleLine(sep: string, names: seq<string>)
    requires '\n' !in sep && forall c :: c in names ==> '\n' !in c
    ensures '\n' !in Join(sep, Map(TargetSourcePair, names))
  {
    forall c | c in names
      ensures '\n' !in TargetSourcePair(c)
    {
      assert TargetSourcePair(c) == "T.[" + c + "] = S.[" + c + "]";
    }
    JoinedNamesSingleLine(sep, TargetSourcePair, names);
  }

  lemma InsertSingleLine(t: TableInfo)
    requires forall c :: c in t.insertableColumns ==> '\n' !in c
    ensures '\n' !in InsertClause(t) && '\n' !in ValuesClause(t)
  {
    forall c | c in t.insertableColumns
      ensures '\n' !in Bracket(c) && '\n' !in SourceColumn(c)
    {
      assert SourceColumn(c) == "S.[" + c + "]";
    }
    JoinedNamesSingleLine(", ", Bracket, t.insertableColumns);
    JoinedNamesSingleLine(", ", SourceColumn, t.insertableColumns);
  }

  lemma ClausesSingleLine(t: TableInfo, sel: seq<string>)
    requires SingleLineNames(t, sel)
    ensures '\n' !in MergeHeader(t) && '\n' !in OnClause(t) && '\n' !in UpdateClause(t)
    ensures '\n' !in InsertClause(t) && '\n' !in ValuesClause(t)
  {
    HeaderSingleLine(t);
    assert '\n' !in OnClause(t) by {
      PairsSingleLine(" AND ", t.identifierColumns);
    }
    assert '\n' !in UpdateClause(t) by {
      PairsSingleLine(", ", t.updateableColumns);
    }
    InsertSingleLine(t);
  }

  lemma HeaderSingleLine(t: TableInfo)
    requires '\n' !in t.schema && '\n' !in t.table
    ensures '\n' !in MergeHeader(t)
  {
    assert MergeHeader(t) == "MERGE INTO [" + t.schema + "].[" + t.table + "] AS T ";
  }

  /**
   * With single-line names, cutting the statement at line feeds gives exactly its
   * lines: header, `USING (SELECT`, one line per assignment, `) AS S `, the ON, UPDATE,
   * INSERT and VALUES clauses and the closing `;`.
   */
  lemma MergeSqlLines(t: TableInfo, sel: seq<string>)
    requires SingleLineNames(t, sel)
    ensures Split(GetMergeSql(t, sel), '\n') == MergeLines(t, sel)
  {
    MergeSqlIsLines(t, sel);
    ClausesSingleLine(t, sel);
    SelectLinesSingleLine(sel);
    var lines := MergeLines(t, sel);
    assert forall l :: l in lines ==> '\n' !in l;
    forall i | 0 <= i < |lines|
      ensures '\n' !in lines[i]
    {
      assert lines[i] in lines;
    }
    SplitJoin(lines, '\n');
  }

  predicate IsMatchedLine(line: string) {
    StartsWith(line, "WHEN MATCHED")
  }

  predicate IsNotMatchedLine(line: string) {
    StartsWith(line, "WHEN NOT MATCHED")
  }

  lemma ClauseLineKinds(t: TableInfo)
    ensures !IsMatchedLine(MergeHeader(t)) && !IsNotMatchedLine(MergeHeader(t))
    ensures !IsMatchedLine(OnClause(t)) && !IsNotMatchedLine(OnClause(t))
    ensures IsMatchedLine(UpdateClause(t)) && !IsNotMatchedLine(UpdateClause(t))
    ensures !IsMatchedLine(InsertClause(t)) && IsNotMatchedLine(InsertClause(t))
    ensures !IsMatchedLine(ValuesClause(t)) && !IsNotMatchedLine(ValuesClause(t))
  {
    FirstLetterKind(MergeHeader(t), 'M');
    FirstLetterKind(OnClause(t), 'O');
    FirstLetterKind(ValuesClause(t), 'V');
    UpdateKind(t);
    InsertKind(t);
  }

  /** A line that does not start with `W` is neither clause. */
  lemma FirstLetterKind(line: string, first: char)
    requires line != [] && line[0] == first && first != 'W'
    ensures !IsMatchedLine(line) && !IsNotMatchedLine(line)
  {
  }

  lemma UpdateKind(t: TableInfo)
    ensures IsMatchedLine(UpdateClause(t)) && !IsNotMatchedLine(UpdateClause(t))
  {
    assert UpdateClause(t)[..12] == "WHEN MATCHED";
    assert UpdateClause(t)[5] == 'M';
  }

  lemma InsertKind(t: TableInfo)
    ensures !IsMatchedLine(InsertClause(t)) && IsNotMatchedLine(InsertClause(t))
  {
    assert InsertClause(t)[..16] == "WHEN NOT MATCHED";
    assert InsertClause(t)[5] == 'N';
  }

  lemma CountCons<T(!new)>(p: T -> bool, x: T, s: seq<T>)
    ensures Count(p, [x] + s) == (if p(x) then 1 else 0) + Count(p, s)
  {
    assert ([x] + s)[1..] == s;
  }

  /** Counts the lines of a statement laid out like MERGE that satisfy `p`, given which fixed lines do. */
  lemma CountStatementLines(p: string -> bool, header: string, body: seq<string>, on: string,
                            update: string, insert: string, values: string)
    requires !p(header) && !p("USING (SELECT") && !p(") AS S ") && !p(on) && !p(values) && !p(";")
    requires Count(p, body) == 0
    ensures Count(p, [header, "USING (SELECT"] + body + [") AS S ", on, update, insert, values, ";"])
      == (if p(update) then 1 else 0) + (if p(insert) then 1 else 0)
  {
    var l6 := [values, ";"];
    var l5 := [insert] + l6;
    var l4 := [update] + l5;
    var l3 := [on] + l4;
    var tail := [") AS S "] + l3;
    var using := ["USING (SELECT"] + body;
    assert [header, "USING (SELECT"] + body + [") AS S ", on, update, insert, values, ";"]
      == [header] + (using + tail);
    CountCons(p, ";", []);
    CountCons(p, values, [";"]);
    CountCons(p, insert, l6);
    CountCons(p, update, l5);
    CountCons(p, on, l4);
    CountCons(p, ") AS S ", l3);
    CountCons(p, "USING (SELECT", body);
    CountConcat(p, using, tail);
    CountCons(p, header, using + tail);
  }

  /** Every pair of a joined list of `T.[c] = S.[c]` pairs occurs in the clause built around it. */
  lemma PairsListed(head: string, sep: string, names: seq<string>)
    ensures forall c :: c in names ==> Contains(head + Join(sep, Map(TargetSourcePair, names)), TargetSourcePair(c))
  {
    var pairs := Map(TargetSourcePair, names);
    var clause := head + Join(sep, pairs);
    forall c | c in names
      ensures Contains(clause, TargetSourcePair(c))
    {
      var k :| 0 <= k < |names| && names[k] == c;
      JoinContainsItem(sep, pairs, k);
      ContainsInfix(head, Join(sep, pairs), "");
      assert head + Join(sep, pairs) + "" == clause;
      ContainsTrans(clause, Join(sep, pairs), pairs[k]);
    }
  }

  /**
   * The ON clause matches target and source on every identifier column: it opens with
   * `ON ` and holds `T.[c] = S.[c]` for each of them (and nothing more without any).
   */
  lemma OnClauseMatchesIdentifiers(t: TableInfo)
    ensures StartsWith(OnClause(t), "ON ")
    ensures forall c :: c in t.identifierColumns ==> Contains(OnClause(t), TargetSourcePair(c))
    ensures t.identifierColumns == [] ==> OnClause(t) == "ON "
  {
    PairsListed("ON ", " AND ", t.identifierColumns);
  }

  /** The UPDATE branch sets every updateable column from the source row. */
  lemma UpdateClauseSetsUpdateable(t: TableInfo)
    ensures StartsWith(UpdateClause(t), "WHEN MATCHED THEN UPDATE SET ")
    ensures forall c :: c in t.updateableColumns ==> Contains(UpdateClause(t), TargetSourcePair(c))
    ensures t.updateableColumns == [] ==> UpdateClause(t) == "WHEN MATCHED THEN UPDATE SET "
  {
    PairsListed("WHEN MATCHED THEN UPDATE SET ", ", ", t.updateableColumns);
  }

  /** The nine parts of the statement, in the order they are joined. */
  function MergeParts(t: TableInfo, sel: seq<string>): (r: seq<string>)
    ensures |r| == 9 && GetMergeSql(t, sel) == Join("\n", r)
  {
    [MergeHeader(t), "USING (SELECT", SelectList(sel), ") AS S ",
     OnClause(t), UpdateClause(t), InsertClause(t), ValuesClause(t), ";"]
  }

  /** What a part of the statement contains, the statement contains. */
  lemma InStatement(t: TableInfo, sel: seq<string>, k: nat, part: string)
    requires k < 9 && Contains(MergeParts(t, sel)[k], part)
    ensures Contains(GetMergeSql(t, sel), part)
  {
    JoinContainsItem("\n", MergeParts(t, sel), k);
    ContainsTrans(GetMergeSql(t, sel), MergeParts(t, sel)[k], part);
  }

  /** Every value item `S.[c]` of an insertable column occurs in the VALUES clause. */
  lemma ValuesListed(t: TableInfo)
    ensures forall c :: c in t.insertableColumns ==> Contains(ValuesClause(t), SourceColumn(c))
  {
    var items := ValueItems(t);
    forall c | c in t.insertableColumns
      ensures Contains(ValuesClause(t), SourceColumn(c))
    {
      var k :| 0 <= k < |t.insertableColumns| && t.insertableColumns[k] == c;
      JoinContainsItem(", ", items, k);
      ContainsInfix("VALUES (", Join(", ", items), ")");
      ContainsTrans(ValuesClause(t), Join(", ", items), items[k]);
    }
  }

  /** Every assignment occurs in the source select. */
  lemma AssignmentsListed(sel: seq<string>)
    ensures forall a :: a in sel ==> Contains(SelectList(sel), a)
  {
    forall a | a in sel
      ensures Contains(SelectList(sel), a)
    {
      var k :| 0 <= k < |sel| && sel[k] == a;
      JoinContainsItem(",\n    ", sel, k);
      ContainsInfix("    ", Join(",\n    ", sel), "");
      assert "    " + Join(",\n    ", sel) + "" == SelectList(sel);
      ContainsTrans(SelectList(sel), Join(",\n    ", sel), a);
    }
  }

  /**
   * The statement covers the whole table: it matches on every identifier column,
   * updates every updateable column, inserts every insertable column from the source
   * row, and selects every assignment of the record.
   */
  lemma MergeSqlCoversColumns(t: TableInfo, sel: seq<string>)
    ensures forall c :: c in t.identifierColumns ==> Contains(GetMergeSql(t, sel), TargetSourcePair(c))
    ensures forall c :: c in t.updateableColumns ==> Contains(GetMergeSql(t, sel), TargetSourcePair(c))
    ensures forall c :: c in t.insertableColumns ==> Contains(GetMergeSql(t, sel), SourceColumn(c))
    ensures forall a :: a in sel ==> Contains(GetMergeSql(t, sel), a)
  {
    OnClauseMatchesIdentifiers(t);
    UpdateClauseSetsUpdateable(t);
    ValuesListed(t);
    AssignmentsListed(sel);
    forall c | c in t.identifierColumns
      ensures Contains(GetMergeSql(t, sel), TargetSourcePair(c))
    {
      InStatement(t, sel, 4, TargetSourcePair(c));
    }
    forall c | c in t.updateableColumns
      ensures Contains(GetMergeSql(t, sel), TargetSourcePair(c))
    {
      InStatement(t, sel, 5, TargetSourcePair(c));
    }
    forall c | c in t.insertableColumns
      ensures Contains(GetMergeSql(t, sel), SourceColumn(c))
    {
      InStatement(t, sel, 7, SourceColumn(c));
    }
    forall a | a in sel
      ensures Contains(GetMergeSql(t, sel), a)
    {
      InStatement(t, sel, 2, a);
    }
  }

  /** Exactly one line is the WHEN MATCHED clause and exactly one the WHEN NOT MATCHED clause. */
  lemma MergeHasOneClauseEach(t: TableInfo, sel: seq<string>)
    ensures Count(IsMatchedLine, MergeLines(t, sel)) == 1
    ensures Count(IsNotMatchedLine, MergeLines(t, sel)) == 1
  {
    var body := SelectLines(sel);
    assert Count(IsMatchedLine, body) == 0 && Count(IsNotMatchedLine, body) == 0 by {
      forall i | 0 <= i < |body|
        ensures body[i] == [] || body[i][0] != 'W'
      {
        assert StartsWith(body[i], "    ");
      }
      NoClauseAmong(body);
    }
    ClauseLineKinds(t);
    FirstLetterKind("USING (SELECT", 'U');
    FirstLetterKind(") AS S ", ')');
    FirstLetterKind(";", ';');
    assert Count(IsMatchedLine, MergeLines(t, sel)) == 1 by {
      CountStatementLines(IsMatchedLine, MergeHeader(t), body, OnClause(t), UpdateClause(t), InsertClause(t), ValuesClause(t));
    }
    assert Count(IsNotMatchedLine, MergeLines(t, sel)) == 1 by {
      CountStatementLines(IsNotMatchedLine, MergeHeader(t), body, OnClause(t), UpdateClause(t), InsertClause(t), ValuesClause(t));
    }
  }

  lemma {:induction false} NoClauseAmong(lines: seq<string>)
    requires forall i :: 0 <= i < |lines| ==> lines[i] == [] || lines[i][0] != 'W'
    ensures Count(IsMatchedLine, lines) == 0 && Count(IsNotMatchedLine, lines) == 0
  {
    if lines != [] {
      NoClauseAmong(lines[1..]);
    }
  }

  // ---------------------------------------------------------------------------
  // Assignments and identity sub-selects
  // ---------------------------------------------------------------------------

  /** `IS` only to compare with NULL in a condition; `=` everywhere else. */
  function ComparisonOperator(isCondition: bool, valueSql: string): (r: string)
    ensures r in {"IS", "="}
    ensures r == "IS" <==> isCondition && valueSql == "NULL"
  {
    if isCondition && valueSql == "NULL" then "IS" else "="
  }

  /** `prefix[column] op value`, where the value is the column's SQL value of `value`. */
  function GetAssignationValueSql(conv: Conversions, column: ColumnInfo, value: Option<string>,
                                  prefix: Option<string>, isCondition: bool): (r: Outcome<string>)
    ensures r.Success? <==> GetValueSql(conv, column, value).Success?
    ensures r.Success? ==>
      r.value == prefix.GetOr("") + Bracket(column.columnName) + " "
        + ComparisonOperator(isCondition, GetValueSql(conv, column, value).value) + " "
        + GetValueSql(conv, column, value).value
  {
    var valueSql :- GetValueSql(conv, column, value);
    Success(prefix.GetOr("") + Bracket(column.columnName) + " " + ComparisonOperator(isCondition, valueSql) + " " + valueSql)
  }

  /** A missing value of an ordinary column tests `IS NULL` in a condition and assigns `= NULL` otherwise. */
  lemma AssignNull(conv: Conversions, column: ColumnInfo, isCondition: bool)
    requires !IsUpdateTime(column) && !IsCreationTime(column)
    ensures GetAssignationValueSql(conv, column, None, None, isCondition)
      == Success(Bracket(column.columnName) + (if isCondition then " IS NULL" else " = NULL"))
  {
    assert GetValueSql(conv, column, None) == Success("NULL");
    var b := Bracket(column.columnName);
    var op := ComparisonOperator(isCondition, "NULL");
    assert "" + b + " " + op + " " + "NULL" == b + (" " + op + " NULL");
    assert " " + op + " NULL" == (if isCondition then " IS NULL" else " = NULL");
  }

  /** Outside a condition, a column is set with `=` to its SQL value. */
  lemma AssignValue(conv: Conversions, column: ColumnInfo, value: string)
    requires GetValueSql(conv, column, Some(value)) == Success(value)
    ensures GetAssignationValueSql(conv, column, Some(value), None, false)
      == Success(Bracket(column.columnName) + " = " + value)
  {
    var b := Bracket(column.columnName);
    assert "" + b + " " + "=" + " " + value == b + " = " + value;
  }

  /** In a condition, a value other than NULL is compared with `=`. */
  lemma CompareValue(conv: Conversions, column: ColumnInfo, value: string)
    requires GetValueSql(conv, column, Some(value)) == Success(value) && value != "NULL"
    ensures GetAssignationValueSql(conv, column, Some(value), None, true)
      == Success(Bracket(column.columnName) + " = " + value)
  {
    var b := Bracket(column.columnName);
    assert "" + b + " " + "=" + " " + value == b + " = " + value;
  }

  /** `SELECT identity FROM [schema].[table] WHERE c1 AND c2 ...` on one line. */
  function SelectIdentity(t: TableInfo, conditionColumns: seq<string>): (r: string)
    ensures StartsWith(r, "SELECT " + t.identityColumn.GetOr(""))
    ensures EndsWith(r, " FROM " + Bracket(t.schema) + "." + Bracket(t.table) + " WHERE " + Join(" AND ", conditionColumns))
    ensures |r| == |"SELECT " + t.identityColumn.GetOr("")|
      + |" FROM " + Bracket(t.schema) + "." + Bracket(t.table) + " WHERE " + Join(" AND ", conditionColumns)|
  {
    var head := "SELECT " + t.identityColumn.GetOr("");
    var tail := " FROM " + Bracket(t.schema) + "." + Bracket(t.table) + " WHERE " + Join(" AND ", conditionColumns);
    assert (head + tail)[..|head|] == head && (head + tail)[|head|..] == tail;
    head + tail
  }

  // ---------------------------------------------------------------------------
  // Reading one row
  // ---------------------------------------------------------------------------

  /**
   * A database server as far as the core sees it: the catalog of columns, and the
   * row (if any) of `[schema].[table]` whose column `column` equals the SQL value `valueSql`.
   */
  datatype Server = Server(
    catalog: seq<ColumnInfo>,
    selectRow: (string, string, string, string) -> Option<Row>)

  /** The row as read, with the identity value repeated under `__id` unless the column already is `__id`. */
  function WithIdAlias(row: Row, identityColumn: string): (r: Row)
    ensures Lower(identityColumn) != "__id" ==> "__id" in r && r["__id"] == RowValue(row, identityColumn)
    ensures forall k :: k in row && k != "__id" ==> k in r && r[k] == row[k]
  {
    if Lower(identityColumn) != "__id" then row["__id" := RowValue(row, identityColumn)] else row
  }

  /**
   * The row of table `t` whose identity column holds `identityValue`: fails when the
   * table has no identity column (or the value cannot be converted to the column's
   * type), and is None when no row matches.
   */
  function GetRecord(conv: Conversions, server: Server, t: TableInfo, identityValue: string): (r: Outcome<Option<Row>>)
    ensures r == Failure(IdentityColumnNotFound) <==> forall i :: 0 <= i < |t.columns| ==> !t.columns[i].isIdentity
    ensures r.Success? ==>
      && FindFirst(IsIdentityColumn, t.columns).Some?
      && var c := t.columns[FindFirst(IsIdentityColumn, t.columns).value];
         var valueSql := GetValueSql(conv, c, Some(identityValue));
         valueSql.Success?
         && var row := server.selectRow(t.schema, t.table, c.columnName, valueSql.value);
            (r.value.None? <==> row.None?) && (r.value.Some? ==> r.value.value == WithIdAlias(row.value, c.columnName))
    ensures FindFirst(IsIdentityColumn, t.columns).Some? ==>
      var c := t.columns[FindFirst(IsIdentityColumn, t.columns).value];
      var valueSql := GetValueSql(conv, c, Some(identityValue));
      (r.Success? <==> valueSql.Success?) && (r.Failure? ==> r == Failure(valueSql.error))
  {
    match FindFirst(IsIdentityColumn, t.columns)
    case None => Failure(IdentityColumnNotFound)
    case Some(i) =>
      var column := t.columns[i];
      var valueSql :- GetValueSql(conv, column, Some(identityValue));
      match server.selectRow(t.schema, t.table, column.columnName, valueSql)
      case None => Success(None)
      case Some(row) => Success(Some(WithIdAlias(row, column.columnName)))
  }
}
