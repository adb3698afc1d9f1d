/**
 * What a database context computes from its table list: the SQL value of every
 * column of a record (a foreign key that points at an edited dependency becomes a
 * sub-select of that dependency's identity), the MERGE statements of a record tree
 * (dependencies first), and the walk that completes a record tree from the rows
 * stored in the database.
 */
module Resolver {
  import opened Wrappers
  import opened Seqs
  import opened Text
  import opened Dtos
  import opened Utils
  import Mssql
  import opened Structure

  // ---------------------------------------------------------------------------
  // Column values
  // ---------------------------------------------------------------------------

  /** The dependency a foreign-key column of `record` resolves to, if it has a value. */
  function FkDependency(column: ColumnInfo, record: ItemData): (r: Option<ItemData>)
    ensures r.Some? ==> column.isFK && RowValue(record.columns, column.columnName).Some?
    ensures r.Some? ==> r.value in record.dependencies && r.value.parentColumn == Some(column.columnName)
    ensures var value := RowValue(record.columns, column.columnName);
      r.None? <==> (!column.isFK || value.None?
                    || forall i :: 0 <= i < |record.dependencies| ==>
                         !ItemData.DependencyMatches(record.dependencies[i], column.columnName, "__id", value))
    ensures r.Some? ==>
      var value := RowValue(record.columns, column.columnName);
      exists i :: 0 <= i < |record.dependencies| && r.value == record.dependencies[i]
        && ItemData.DependencyMatches(record.dependencies[i], column.columnName, "__id", value)
        && (forall j :: 0 <= j < i ==> !ItemData.DependencyMatches(record.dependencies[j], column.columnName, "__id", value))
  {
    var rowValue := RowValue(record.columns, column.columnName);
    if column.isFK && rowValue.Some? then record.GetDependency(column.columnName, "__id", rowValue) else None
  }

  /**
   * The value a column of `record` takes: its own value, or the parenthesised
   * identity sub-select of the dependency its foreign key points at.
   */
  function ColumnValue(conv: Conversions, tables: seq<TableInfo>, column: ColumnInfo, record: ItemData): Outcome<Option<string>>
    decreases record, 0
  {
    match FkDependency(column, record)
    case None => Success(RowValue(record.columns, column.columnName))
    case Some(dep) =>
      var sub :- SelectIdentity(conv, tables, dep);
      Success(Some("(" + sub + ")"))
  }

  /**
   * A column without a dependency takes its own value (null when missing); a foreign key
   * into a dependency takes `(SELECT ...)`, the parenthesised identity sub-select of that
   * dependency, and fails exactly when the sub-select does.
   */
  lemma ColumnValueCases(conv: Conversions, tables: seq<TableInfo>, column: ColumnInfo, record: ItemData)
    ensures var r := ColumnValue(conv, tables, column, record);
      && (FkDependency(column, record).None? ==> r == Success(RowValue(record.columns, column.columnName)))
      && (FkDependency(column, record).Some? ==>
            var sub := SelectIdentity(conv, tables, FkDependency(column, record).value);
            && (r.Success? <==> sub.Success?)
            && (r.Failure? ==> r.error == sub.error)
            && (r.Success? ==> r.value.Some? && StartsWith(r.value.value, "(SELECT ") && EndsWith(r.value.value, ")")))
  {
    var dep := FkDependency(column, record);
    if dep.Some? {
      var sub := SelectIdentity(conv, tables, dep.value);
      if sub.Success? {
        SelectIdentityOpens(conv, tables, dep.value);
        ParenthesisedSelect(sub.value);
      }
    }
  }

  /** An identity sub-select opens with `SELECT `. */
  lemma SelectIdentityOpens(conv: Conversions, tables: seq<TableInfo>, record: ItemData)
    requires SelectIdentity(conv, tables, record).Success?
    ensures StartsWith(SelectIdentity(conv, tables, record).value, "SELECT ")
  {
    var sub := SelectIdentity(conv, tables, record).value;
    var t := GetTableInfo(tables, record.schema, record.table).value;
    var head := "SELECT " + t.identityColumn.GetOr("");
    assert sub[..|head|] == head;
    assert sub[..7] == head[..7] == "SELECT ";
  }

  /** A select in parentheses opens with `(SELECT ` and closes with `)`. */
  lemma ParenthesisedSelect(sub: string)
    requires StartsWith(sub, "SELECT ")
    ensures StartsWith("(" + sub + ")", "(SELECT ") && EndsWith("(" + sub + ")", ")")
  {
    var v := "(" + sub + ")";
    assert v[..8] == "(" + sub[..7];
  }

  /** The assignment of one column of `record`: `[column] op value`. */
  function AssignationValue(conv: Conversions, tables: seq<TableInfo>, column: ColumnInfo, record: ItemData,
                            prefix: Option<string>, isCondition: bool): (r: Outcome<string>)
    decreases record, 1
    ensures r.Success? ==> StartsWith(r.value, prefix.GetOr("") + Mssql.Bracket(column.columnName) + " ")
  {
    var value :- ColumnValue(conv, tables, column, record);
    var a :- Mssql.GetAssignationValueSql(conv, column, value, prefix, isCondition);
    var head := prefix.GetOr("") + Mssql.Bracket(column.columnName) + " ";
    assert a[..|head|] == head;
    Success(a)
  }

  /** The assignments of a list of columns of `record`, in column order; the first failure wins. */
  function AssignationValues(conv: Conversions, tables: seq<TableInfo>, columns: seq<ColumnInfo>, record: ItemData,
                             prefix: Option<string>, isCondition: bool): Outcome<seq<string>>
    decreases record, 2
  {
    Traverse((c: ColumnInfo) => AssignationValue(conv, tables, c, record, prefix, isCondition), columns)
  }

  /** `SELECT identity FROM [schema].[table] WHERE ...` with one condition per identifier column of the record. */
  function SelectIdentity(conv: Conversions, tables: seq<TableInfo>, record: ItemData): (r: Outcome<string>)
    decreases record, 3
    ensures GetTableInfo(tables, record.schema, record.table).Failure? ==> r == Failure(TableNotFound)
    ensures r.Success? ==>
      var t := GetTableInfo(tables, record.schema, record.table).value;
      StartsWith(r.value, "SELECT " + t.identityColumn.GetOr(""))
    ensures GetTableInfo(tables, record.schema, record.table).Success? ==>
      var t := GetTableInfo(tables, record.schema, record.table).value;
      var conditions := AssignationValues(conv, tables, GetIdentifierColumns(t), record, None, true);
      && (conditions.Failure? ==> r == Failure(conditions.error))
      && (conditions.Success? ==> r == Success(Mssql.SelectIdentity(t, conditions.value)))
  {
    var t :- GetTableInfo(tables, record.schema, record.table);
    var conditions :- AssignationValues(conv, tables, GetIdentifierColumns(t), record, None, true);
    Success(Mssql.SelectIdentity(t, conditions))
  }

  /** One column's assignment, as a function of the column. */
  function AssignmentOf(conv: Conversions, tables: seq<TableInfo>, record: ItemData, prefix: Option<string>,
                        isCondition: bool): ColumnInfo -> Outcome<string> {
    (c: ColumnInfo) => AssignationValue(conv, tables, c, record, prefix, isCondition)
  }

  /**
   * One assignment per column, in column order, when every column has one; otherwise
   * the failure of the first column that has none.
   */
  lemma AssignationValuesInOrder(conv: Conversions, tables: seq<TableInfo>, columns: seq<ColumnInfo>,
                                 record: ItemData, prefix: Option<string>, isCondition: bool)
    ensures var r := AssignationValues(conv, tables, columns, record, prefix, isCondition);
      var f := AssignmentOf(conv, tables, record, prefix, isCondition);
      (r.Success? <==> AllSucceed(f, columns))
        && (r.Success? ==> Pointwise(f, columns, r.value))
        && (r.Failure? ==> exists i :: FirstFailure(f, columns, i, r.error))
  {
    TraverseInOrder(AssignmentOf(conv, tables, record, prefix, isCondition), columns);
  }

  /** A column whose value is a plain value (no foreign key into an edited dependency) passes it on. */
  lemma PlainValuePassedOn(conv: Conversions, tables: seq<TableInfo>, column: ColumnInfo, record: ItemData,
                           prefix: Option<string>, isCondition: bool)
    requires FkDependency(column, record).None?
    ensures AssignationValue(conv, tables, column, record, prefix, isCondition)
      == Mssql.GetAssignationValueSql(conv, column, RowValue(record.columns, column.columnName), prefix, isCondition)
  {
  }

  /**
   * A foreign key that points at an edited dependency is set to the parenthesised
   * identity sub-select of that dependency, which the value rules pass through as is.
   */
  lemma FkValueIsSubSelect(conv: Conversions, tables: seq<TableInfo>, column: ColumnInfo, record: ItemData,
                           dep: ItemData, sub: string)
    requires FkDependency(column, record) == Some(dep)
    requires SelectIdentity(conv, tables, dep) == Success(sub)
    requires !IsUpdateTime(column) && !IsCreationTime(column)
    ensures AssignationValue(conv, tables, column, record, None, false)
      == Success(Mssql.Bracket(column.columnName) + " = " + "(" + sub + ")")
  {
    var v := "(" + sub + ")";
    SubSelectPassesThrough(conv, column, sub);
    Mssql.AssignValue(conv, column, v);
    assert ColumnValue(conv, tables, column, record) == Success(Some(v));
    assert AssignationValue(conv, tables, column, record, None, false)
      == Mssql.GetAssignationValueSql(conv, column, Some(v), None, false);
    var b := Mssql.Bracket(column.columnName);
    assert b + " = " + v == b + " = " + "(" + sub + ")";
  }

  /**
   * In the conditions that find a row's identity, such a foreign key is compared with
   * `=` to the same sub-select: a parenthesised text is never `NULL`.
   */
  lemma FkConditionIsSubSelect(conv: Conversions, tables: seq<TableInfo>, column: ColumnInfo, record: ItemData,
                               dep: ItemData, sub: string)
    requires FkDependency(column, record) == Some(dep)
    requires SelectIdentity(conv, tables, dep) == Success(sub)
    requires !IsUpdateTime(column) && !IsCreationTime(column)
    ensures AssignationValue(conv, tables, column, record, None, true)
      == Success(Mssql.Bracket(column.columnName) + " = " + "(" + sub + ")")
  {
    var v := "(" + sub + ")";
    SubSelectPassesThrough(conv, column, sub);
    assert v[0] == '(' && "NULL"[0] == 'N';
    Mssql.CompareValue(conv, column, v);
    assert ColumnValue(conv, tables, column, record) == Success(Some(v));
    assert AssignationValue(conv, tables, column, record, None, true)
      == Mssql.GetAssignationValueSql(conv, column, Some(v), None, true);
    var b := Mssql.Bracket(column.columnName);
    assert b + " = " + v == b + " = " + "(" + sub + ")";
  }

  lemma SubSelectPassesThrough(conv: Conversions, column: ColumnInfo, sub: string)
    requires !IsUpdateTime(column) && !IsCreationTime(column)
    ensures GetValueSql(conv, column, Some("(" + sub + ")")) == Success("(" + sub + ")")
  {
    var v := "(" + sub + ")";
    assert v[..1] == "(";
    assert v[|v| - 1..] == ")";
  }

  // ---------------------------------------------------------------------------
  // MERGE statements of a record tree
  // ---------------------------------------------------------------------------

  /** The MERGE statement of one record, from all the columns of its table. */
  function MergeSqlFor(conv: Conversions, tables: seq<TableInfo>, record: ItemData): (r: Outcome<string>)
    ensures GetTableInfo(tables, record.schema, record.table).Failure? ==> r == Failure(TableNotFound)
    ensures r.Success? ==>
      var t := GetTableInfo(tables, record.schema, record.table).value;
      exists sel :: |sel| == |t.columns| && r.value == Mssql.GetMergeSql(t, sel)
    ensures GetTableInfo(tables, record.schema, record.table).Success? ==>
      var t := GetTableInfo(tables, record.schema, record.table).value;
      var sel := AssignationValues(conv, tables, t.columns, record, None, false);
      && (sel.Failure? ==> r == Failure(sel.error))
      && (sel.Success? ==>
            && r == Success(Mssql.GetMergeSql(t, sel.value))
            && Pointwise(AssignmentOf(conv, tables, record, None, false), t.columns, sel.value))
  {
    var t :- GetTableInfo(tables, record.schema, record.table);
    var sel :- AssignationValues(conv, tables, t.columns, record, None, false);
    AssignationValuesInOrder(conv, tables, t.columns, record, None, false);
    Success(Mssql.GetMergeSql(t, sel))
  }

  /** The MERGE statement of a record, as a function of the record. */
  function MergeOf(conv: Conversions, tables: seq<TableInfo>): ItemData -> Outcome<string> {
    (d: ItemData) => MergeSqlFor(conv, tables, d)
  }

  /**
   * The statements a record tree emits, `merge` giving the statement of one record:
   * nothing for a record that is not being edited (nor for anything below it);
   * otherwise the statements of every dependency, in order, then the record's own.
   */
  function MergeStatements(merge: ItemData -> Outcome<string>, record: ItemData): (r: Outcome<seq<string>>)
    decreases record, |record.dependencies| + 1
    ensures !record.isEdition ==> r == Success([])
    ensures record.isEdition && r.Success? ==>
      |r.value| >= 1 && merge(record) == Success(r.value[|r.value| - 1])
  {
    if !record.isEdition then Success([])
    else
      var before :- DependencyStatements(merge, record, |record.dependencies|);
      var own :- merge(record);
      Success(before + [own])
  }

  /** The statements of the first `n` dependencies of `record`, one after the other. */
  function DependencyStatements(merge: ItemData -> Outcome<string>, record: ItemData, n: nat): Outcome<seq<string>>
    requires n <= |record.dependencies|
    decreases record, n
  {
    if n == 0 then Success([])
    else
      var before :- DependencyStatements(merge, record, n - 1);
      var last :- MergeStatements(merge, record.dependencies[n - 1]);
      Success(before + last)
  }

  /** The records of a tree that are written: the edited ones whose ancestors are all edited, in post-order. */
  function EditedNodes(record: ItemData): (r: seq<ItemData>)
    decreases record, |record.dependencies| + 1
    ensures !record.isEdition ==> r == []
    ensures record.isEdition ==> |r| >= 1 && r[|r| - 1] == record
    ensures forall i :: 0 <= i < |r| ==> r[i].isEdition
  {
    if !record.isEdition then [] else EditedNodesOf(record, |record.dependencies|) + [record]
  }

  function EditedNodesOf(record: ItemData, n: nat): (r: seq<ItemData>)
    requires n <= |record.dependencies|
    decreases record, n
    ensures forall i :: 0 <= i < |r| ==> r[i].isEdition
  {
    if n == 0 then [] else EditedNodesOf(record, n - 1) + EditedNodes(record.dependencies[n - 1])
  }

  /**
   * The statements of a record tree are exactly the statements of its written
   * records in post-order, and they are produced iff every one of them can be.
   */
  lemma {:induction false} MergeStatementsPostOrder(merge: ItemData -> Outcome<string>, record: ItemData)
    decreases record, |record.dependencies| + 1
    ensures MergeStatements(merge, record).Success? <==> AllSucceed(merge, EditedNodes(record))
    ensures MergeStatements(merge, record).Success? ==>
      Pointwise(merge, EditedNodes(record), MergeStatements(merge, record).value)
  {
    if record.isEdition {
      var n := |record.dependencies|;
      var r := MergeStatements(merge, record);
      var p := DependencyStatements(merge, record, n);
      var below := EditedNodesOf(record, n);
      assert r.Success? <==> p.Success? && merge(record).Success?;
      DependencyStatementsPostOrder(merge, record, n);
      AllSucceedConcat(merge, below, [record]);
      if r.Success? {
        assert r.value == p.value + [merge(record).value];
        PointwiseConcat(merge, below, p.value, [record], [merge(record).value]);
      }
    }
  }

  lemma {:induction false} DependencyStatementsPostOrder(merge: ItemData -> Outcome<string>, record: ItemData, n: nat)
    requires n <= |record.dependencies|
    decreases record, n
    ensures DependencyStatements(merge, record, n).Success? <==> AllSucceed(merge, EditedNodesOf(record, n))
    ensures DependencyStatements(merge, record, n).Success? ==>
      Pointwise(merge, EditedNodesOf(record, n), DependencyStatements(merge, record, n).value)
  {
    if n > 0 {
      var d := record.dependencies[n - 1];
      var r := DependencyStatements(merge, record, n);
      var p := DependencyStatements(merge, record, n - 1);
      var m := MergeStatements(merge, d);
      assert r.Success? <==> p.Success? && m.Success?;
      var before := EditedNodesOf(record, n - 1);
      var below := EditedNodes(d);
      DependencyStatementsPostOrder(merge, record, n - 1);
      MergeStatementsPostOrder(merge, d);
      AllSucceedConcat(merge, before, below);
      if r.Success? {
        assert r.value == p.value + m.value;
        PointwiseConcat(merge, before, p.value, below, m.value);
      }
    }
  }

  /** Once the statements of some dependencies fail, those of all of them fail alike. */
  lemma {:induction false} DependencyStatementsFailure(merge: ItemData -> Outcome<string>, record: ItemData, i: nat, n: nat)
    requires i <= n <= |record.dependencies|
    requires DependencyStatements(merge, record, i).Failure?
    ensures DependencyStatements(merge, record, n) == DependencyStatements(merge, record, i)
    decreases n
  {
    if n > i {
      DependencyStatementsFailure(merge, record, i, n - 1);
    }
  }

  /** One more dependency: its statements follow those of the dependencies before it. */
  lemma DependencyStatementsStep(merge: ItemData -> Outcome<string>, record: ItemData, i: nat)
    requires i < |record.dependencies|
    requires DependencyStatements(merge, record, i).Success?
    ensures var m := MergeStatements(merge, record.dependencies[i]);
      DependencyStatements(merge, record, i + 1)
        == if m.Success? then Success(DependencyStatements(merge, record, i).value + m.value) else Failure(m.error)
  {
  }

  /** An edited record's own statement follows the statements of all its dependencies. */
  lemma MergeStatementsStep(merge: ItemData -> Outcome<string>, record: ItemData)
    requires record.isEdition
    requires DependencyStatements(merge, record, |record.dependencies|).Success?
    ensures var own := merge(record);
      MergeStatements(merge, record)
        == if own.Success? then Success(DependencyStatements(merge, record, |record.dependencies|).value + [own.value])
           else Failure(own.error)
  {
  }

  // ---------------------------------------------------------------------------
  // Completing a record tree from the stored rows
  // ---------------------------------------------------------------------------

  /** Fetches the row of a table whose identity column holds the given value. */
  type Reader = (TableInfo, string) -> Outcome<Option<Row>>

  /** The reader of the SQL Server database: `GetRecord` against the server. */
  function RecordReader(conv: Conversions, server: Mssql.Server): Reader {
    (t: TableInfo, id: string) => Mssql.GetRecord(conv, server, t, id)
  }

  /** The row of a table with the given id: the table must exist and the id must not be blank. */
  function ReadRecord(read: Reader, tables: seq<TableInfo>, schema: string, table: string,
                      recordId: Option<string>): (r: Outcome<Option<Row>>)
    ensures GetTableInfo(tables, schema, table).Failure? ==> r == Failure(TableNotFound)
    ensures GetTableInfo(tables, schema, table).Success? && (recordId.None? || IsNullOrWhiteSpace(recordId.value))
      ==> r == Failure(InvalidRecordId)
    ensures r.Success? ==> recordId.Some? && !IsNullOrWhiteSpace(recordId.value)
  {
    var t :- GetTableInfo(tables, schema, table);
    if recordId.None? || IsNullOrWhiteSpace(recordId.value) then Failure(InvalidRecordId)
    else read(t, recordId.value)
  }

  /** With the table found and a usable id, the row is what the reader returns. */
  lemma ReadRecordFound(read: Reader, tables: seq<TableInfo>, schema: string, table: string, recordId: string)
    requires GetTableInfo(tables, schema, table).Success? && !IsNullOrWhiteSpace(recordId)
    ensures ReadRecord(read, tables, schema, table, Some(recordId)) == read(GetTableInfo(tables, schema, table).value, recordId)
  {
  }

  predicate IsFkColumn(c: ColumnInfo) {
    c.isFK
  }

  /** The foreign-key columns of a table, in column order. */
  function FkColumns(t: TableInfo): (r: seq<ColumnInfo>)
    ensures forall c :: c in r <==> c in t.columns && c.isFK
  {
    Filter(IsFkColumn, t.columns)
  }

  /** The parent-column value of a dependency that hangs from column `c`. */
  function ParentOf(c: ColumnInfo): Option<string> {
    Some(c.columnName)
  }

  /** Whether a record hangs from the foreign-key column `name` of its parent. */
  function HangsFrom(name: string): ItemData -> bool {
    (d: ItemData) => d.parentColumn == Some(name)
  }

  /**
   * The dependency of `record` to complete for a foreign-key column: the first one
   * supplied for that column, or an empty, non-edited record of the referenced table.
   */
  function DependencyFor(record: ItemData, column: ColumnInfo, fkTable: TableInfo): (r: ItemData)
    ensures r.parentColumn == Some(column.columnName)
  {
    match FindFirst(HangsFrom(column.columnName), record.dependencies)
    case Some(i) => record.dependencies[i]
    case None => ItemData(false, fkTable.schema, fkTable.table, Some(column.columnName), map[], [])
  }

  /**
   * The supplied dependency chosen is the first one for the column; the placeholder
   * is used only when none was supplied.
   */
  lemma DependencyForChoice(record: ItemData, column: ColumnInfo, fkTable: TableInfo)
    ensures var r := DependencyFor(record, column, fkTable);
      r in record.dependencies ==>
        exists i :: 0 <= i < |record.dependencies| && record.dependencies[i] == r
          && forall j :: 0 <= j < i ==> record.dependencies[j].parentColumn != Some(column.columnName)
    ensures var r := DependencyFor(record, column, fkTable);
      r !in record.dependencies ==>
        (forall i :: 0 <= i < |record.dependencies| ==> record.dependencies[i].parentColumn != Some(column.columnName))
          && r == ItemData(false, fkTable.schema, fkTable.table, Some(column.columnName), map[], [])
  {
  }

  /**
   * The id a walk starts from: the one given wins; without one there is an id exactly
   * when the table has an identity column and the record holds a non-null value for it,
   * and then it is that value.
   */
  function StartId(record: ItemData, t: TableInfo, recordId: Option<string>): (r: Option<string>)
    ensures recordId.Some? ==> r == recordId
    ensures recordId.None? ==>
      (r.Some? <==> t.identityColumn.Some? && t.identityColumn.value in record.columns
                      && record.columns[t.identityColumn.value].Some?)
    ensures recordId.None? && r.Some? ==> r == record.columns[t.identityColumn.value]
  {
    if recordId.Some? then recordId
    else if t.identityColumn.None? then None
    else RowValue(record.columns, t.identityColumn.value)
  }

  /**
   * The record completed from the database: its stored row is read by id, and every
   * foreign key of its table is followed, both with the edited value and, when it
   * differs, with the stored one. None when there is no id, or when only stored data
   * is wanted and there is none. `fuel` bounds the depth of the walk.
   */
  function LoadDependencies(read: Reader, tables: seq<TableInfo>, record: ItemData,
                            recordId: Option<string>, useOriginalData: bool, fuel: nat): (r: Outcome<Option<ItemData>>)
    decreases fuel, 0
    ensures r.Success? && r.value.Some? ==>
      var x := r.value.value;
      x.isEdition == record.isEdition && x.schema == record.schema && x.table == record.table
        && x.parentColumn == record.parentColumn
  {
    if fuel == 0 then Failure(RecursionLimit)
    else LoadRecord(read, tables, record, recordId, useOriginalData, fuel - 1)
  }

  /** One step of the walk; its dependencies are walked with `fuel`. */
  function LoadRecord(read: Reader, tables: seq<TableInfo>, record: ItemData,
                      recordId: Option<string>, useOriginalData: bool, fuel: nat): (r: Outcome<Option<ItemData>>)
    decreases fuel, 2
    ensures r.Success? && r.value.Some? ==>
      var x := r.value.value;
      x.isEdition == record.isEdition && x.schema == record.schema && x.table == record.table
        && x.parentColumn == record.parentColumn
  {
    var t :- GetTableInfo(tables, record.schema, record.table);
    var id := StartId(record, t, recordId);
    if id.None? then Success(None)
    else
      var fetched :- ReadRecord(read, tables, t.schema, t.table, id);
      var original := fetched.GetOr(map[]);
      if useOriginalData && original == map[] then Success(None)
      else
        var fks := FkColumns(t);
        var deps :- FkDependencies(read, tables, record, original, fks, |fks|, useOriginalData, fuel);
        var columns := if useOriginalData || record.columns == map[] then original else record.columns;
        Success(Some(record.(columns := columns, dependencies := deps)))
  }

  /** The completed dependencies for the first `n` foreign-key columns, column by column. */
  function FkDependencies(read: Reader, tables: seq<TableInfo>, record: ItemData, original: Row,
                          fks: seq<ColumnInfo>, n: nat, useOriginalData: bool, fuel: nat): (r: Outcome<seq<ItemData>>)
    requires n <= |fks|
    decreases fuel, 1, n
    ensures r.Success? ==> |r.value| <= 2 * n
    ensures r.Success? ==>
      forall i :: 0 <= i < |r.value| ==> r.value[i].parentColumn in Map(ParentOf, fks)
  {
    if n == 0 then Success([])
    else
      var before :- FkDependencies(read, tables, record, original, fks, n - 1, useOriginalData, fuel);
      var more :- ColumnDependencies(read, tables, record, original, fks[n - 1], useOriginalData, fuel);
      assert Map(ParentOf, fks)[n - 1] == Some(fks[n - 1].columnName);
      assert forall i :: |before| <= i < |before + more| ==> (before + more)[i] == more[i - |before|];
      Success(before + more)
  }

  /**
   * The completed dependencies of one foreign-key column: the dependency loaded with
   * the edited value, then, when the stored value is set and differs, the dependency
   * loaded with the stored value and marked as not edited.
   */
  function ColumnDependencies(read: Reader, tables: seq<TableInfo>, record: ItemData,
                              original: Row, column: ColumnInfo, useOriginalData: bool, fuel: nat): (r: Outcome<seq<ItemData>>)
    decreases fuel, 1, 0
    ensures r.Success? ==> |r.value| <= 2
    ensures r.Success? ==> forall i :: 0 <= i < |r.value| ==> r.value[i].parentColumn == Some(column.columnName)
    ensures r.Success? && |r.value| == 2 ==> !r.value[1].isEdition
  {
    var fkTable :- GetTableInfo(tables, column.schemaFK, column.tableFK);
    var dep := DependencyFor(record, column, fkTable);
    var editedValue := RowValue(record.columns, column.columnName);
    var edited :- LoadDependencies(read, tables, dep, editedValue, useOriginalData, fuel);
    var storedValue := RowValue(original, column.columnName);
    var stored :- if storedValue.Some? && storedValue != editedValue
      then LoadDependencies(read, tables, dep, storedValue, true, fuel)
      else Success(None);
    Success(Branches(edited, stored, column.columnName))
  }

  /** The loaded branches of one foreign key, the stored one marked as not edited. */
  function Branches(edited: Option<ItemData>, stored: Option<ItemData>, name: string): (r: seq<ItemData>)
    requires edited.Some? ==> edited.value.parentColumn == Some(name)
    requires stored.Some? ==> stored.value.parentColumn == Some(name)
    ensures |r| <= 2
    ensures forall i :: 0 <= i < |r| ==> r[i].parentColumn == Some(name)
    ensures |r| == 2 ==> !r[1].isEdition
  {
    (if edited.Some? then [edited.value] else []) + (if stored.Some? then [stored.value.(isEdition := false)] else [])
  }

  /**
   * The walk gives no record when it has no id to start from (none given and no
   * identity column, or a null identity value), and, when only stored data is
   * wanted, when the stored row is missing or empty.
   */
  lemma LoadDependenciesNullCases(read: Reader, tables: seq<TableInfo>, record: ItemData,
                                  recordId: Option<string>, useOriginalData: bool, fuel: nat)
    requires fuel > 0
    requires GetTableInfo(tables, record.schema, record.table).Success?
    ensures var t := GetTableInfo(tables, record.schema, record.table).value;
      recordId.None? && t.identityColumn.None? ==>
        LoadDependencies(read, tables, record, recordId, useOriginalData, fuel) == Success(None)
    ensures var t := GetTableInfo(tables, record.schema, record.table).value;
      recordId.None? && t.identityColumn.Some? && RowValue(record.columns, t.identityColumn.value).None? ==>
        LoadDependencies(read, tables, record, recordId, useOriginalData, fuel) == Success(None)
    ensures var t := GetTableInfo(tables, record.schema, record.table).value;
      var fetched := ReadRecord(read, tables, record.schema, record.table, StartId(record, t, recordId));
      StartId(record, t, recordId).Some? && useOriginalData && fetched.Success? && fetched.value.GetOr(map[]) == map[] ==>
        LoadDependencies(read, tables, record, recordId, useOriginalData, fuel) == Success(None)
  {
  }

  /**
   * A completed record carries the stored row when only stored data is wanted (then
   * never empty) or when it came without columns, and its own columns otherwise.
   */
  lemma LoadedColumns(read: Reader, tables: seq<TableInfo>, record: ItemData,
                      recordId: Option<string>, useOriginalData: bool, fuel: nat)
    requires LoadDependencies(read, tables, record, recordId, useOriginalData, fuel).Success?
    requires LoadDependencies(read, tables, record, recordId, useOriginalData, fuel).value.Some?
    ensures GetTableInfo(tables, record.schema, record.table).Success?
    ensures var t := GetTableInfo(tables, record.schema, record.table).value;
      var fetched := ReadRecord(read, tables, record.schema, record.table, StartId(record, t, recordId));
      var loaded := LoadDependencies(read, tables, record, recordId, useOriginalData, fuel).value.value;
      fetched.Success?
        && loaded.columns == (if useOriginalData || record.columns == map[] then fetched.value.GetOr(map[]) else record.columns)
        && (useOriginalData ==> loaded.columns != map[])
  {
  }

  /** Every dependency of a completed record hangs from one of the foreign-key columns of its table. */
  lemma LoadedDependenciesHang(read: Reader, tables: seq<TableInfo>, record: ItemData,
                               recordId: Option<string>, useOriginalData: bool, fuel: nat)
    requires LoadDependencies(read, tables, record, recordId, useOriginalData, fuel).Success?
    requires LoadDependencies(read, tables, record, recordId, useOriginalData, fuel).value.Some?
    ensures GetTableInfo(tables, record.schema, record.table).Success?
    ensures var deps := LoadDependencies(read, tables, record, recordId, useOriginalData, fuel).value.value.dependencies;
      var t := GetTableInfo(tables, record.schema, record.table).value;
      forall i :: 0 <= i < |deps| ==> deps[i].parentColumn in Map(ParentOf, FkColumns(t))
  {
  }

  /**
   * More fuel changes nothing once the walk finished without running out: the bound
   * only cuts walks that would otherwise go deeper.
   */
  lemma {:induction false} LoadDependenciesFuel(read: Reader, tables: seq<TableInfo>, record: ItemData,
                                                recordId: Option<string>, useOriginalData: bool, fuel: nat, more: nat)
    requires fuel <= more
    requires LoadDependencies(read, tables, record, recordId, useOriginalData, fuel) != Failure(RecursionLimit)
    ensures LoadDependencies(read, tables, record, recordId, useOriginalData, more)
      == LoadDependencies(read, tables, record, recordId, useOriginalData, fuel)
    decreases fuel, 0
  {
    assert fuel != 0;
    assert LoadDependencies(read, tables, record, recordId, useOriginalData, fuel)
      == LoadRecord(read, tables, record, recordId, useOriginalData, fuel - 1);
    LoadRecordFuel(read, tables, record, recordId, useOriginalData, fuel - 1, more - 1);
  }

  lemma {:induction false} LoadRecordFuel(read: Reader, tables: seq<TableInfo>, record: ItemData,
                                          recordId: Option<string>, useOriginalData: bool, fuel: nat, more: nat)
    requires fuel <= more
    requires LoadRecord(read, tables, record, recordId, useOriginalData, fuel) != Failure(RecursionLimit)
    ensures LoadRecord(read, tables, record, recordId, useOriginalData, more)
      == LoadRecord(read, tables, record, recordId, useOriginalData, fuel)
    decreases fuel, 2
  {
    var t := GetTableInfo(tables, record.schema, record.table);
    if t.Success? {
      var id := StartId(record, t.value, recordId);
      if id.Some? {
        var fetched := ReadRecord(read, tables, t.value.schema, t.value.table, id);
        if fetched.Success? {
          var original := fetched.value.GetOr(map[]);
          var fks := FkColumns(t.value);
          var deps := FkDependencies(read, tables, record, original, fks, |fks|, useOriginalData, fuel);
          if !(useOriginalData && original == map[]) && deps != Failure(RecursionLimit) {
            FkDependenciesFuel(read, tables, record, original, fks, |fks|, useOriginalData, fuel, more);
          }
        }
      }
    }
  }

  lemma {:induction false} FkDependenciesFuel(read: Reader, tables: seq<TableInfo>, record: ItemData,
                                              original: Row, fks: seq<ColumnInfo>, n: nat, useOriginalData: bool, fuel: nat, more: nat)
    requires n <= |fks| && fuel <= more
    requires FkDependencies(read, tables, record, original, fks, n, useOriginalData, fuel) != Failure(RecursionLimit)
    ensures FkDependencies(read, tables, record, original, fks, n, useOriginalData, more)
      == FkDependencies(read, tables, record, original, fks, n, useOriginalData, fuel)
    decreases fuel, 1, n
  {
    if n > 0 {
      var before := FkDependencies(read, tables, record, original, fks, n - 1, useOriginalData, fuel);
      if before != Failure(RecursionLimit) {
        FkDependenciesFuel(read, tables, record, original, fks, n - 1, useOriginalData, fuel, more);
        if before.Success? {
          var column := ColumnDependencies(read, tables, record, original, fks[n - 1], useOriginalData, fuel);
          if column != Failure(RecursionLimit) {
            ColumnDependenciesFuel(read, tables, record, original, fks[n - 1], useOriginalData, fuel, more);
          }
        }
      }
    }
  }

  lemma {:induction false} ColumnDependenciesFuel(read: Reader, tables: seq<TableInfo>, record: ItemData,
                                                  original: Row, column: ColumnInfo, useOriginalData: bool, fuel: nat, more: nat)
    requires fuel <= more
    requires ColumnDependencies(read, tables, record, original, column, useOriginalData, fuel) != Failure(RecursionLimit)
    ensures ColumnDependencies(read, tables, record, original, column, useOriginalData, more)
      == ColumnDependencies(read, tables, record, original, column, useOriginalData, fuel)
    decreases fuel, 1, 0
  {
    var fkTable := GetTableInfo(tables, column.schemaFK, column.tableFK);
    if fkTable.Success? {
      var dep := DependencyFor(record, column, fkTable.value);
      var editedValue := RowValue(record.columns, column.columnName);
      var edited := LoadDependencies(read, tables, dep, editedValue, useOriginalData, fuel);
      if edited != Failure(RecursionLimit) {
        LoadDependenciesFuel(read, tables, dep, editedValue, useOriginalData, fuel, more);
        var storedValue := RowValue(original, column.columnName);
        if edited.Success? && storedValue.Some? && storedValue != editedValue {
          var stored := LoadDependencies(read, tables, dep, storedValue, true, fuel);
          if stored != Failure(RecursionLimit) {
            LoadDependenciesFuel(read, tables, dep, storedValue, true, fuel, more);
          }
        }
      }
    }
  }

  /** Once the dependencies of some foreign keys fail, those of all of them fail alike. */
  lemma {:induction false} FkDependenciesFailure(read: Reader, tables: seq<TableInfo>, record: ItemData,
                                                 original: Row, fks: seq<ColumnInfo>, i: nat, n: nat, useOriginalData: bool, fuel: nat)
    requires i <= n <= |fks|
    ensures FkDependencies(read, tables, record, original, fks, i, useOriginalData, fuel).Failure? ==>
      FkDependencies(read, tables, record, original, fks, n, useOriginalData, fuel)
        == FkDependencies(read, tables, record, original, fks, i, useOriginalData, fuel)
    decreases n
  {
    if n > i {
      FkDependenciesFailure(read, tables, record, original, fks, i, n - 1, useOriginalData, fuel);
    }
  }

  /** One more foreign-key column: its dependencies follow those of the columns before it. */
  lemma FkDependenciesStep(read: Reader, tables: seq<TableInfo>, record: ItemData,
                           original: Row, fks: seq<ColumnInfo>, i: nat, useOriginalData: bool, fuel: nat)
    requires i < |fks|
    requires FkDependencies(read, tables, record, original, fks, i, useOriginalData, fuel).Success?
    ensures var c := ColumnDependencies(read, tables, record, original, fks[i], useOriginalData, fuel);
      FkDependencies(read, tables, record, original, fks, i + 1, useOriginalData, fuel)
        == if c.Success? then Success(FkDependencies(read, tables, record, original, fks, i, useOriginalData, fuel).value + c.value)
           else Failure(c.error)
  {
  }

  /**
   * The branch rule of one foreign key. The edited branch is walked with the edited
   * value and the caller's choice of data, and comes first when the walk gives a
   * record. A stored branch follows exactly when the stored value is set, differs from
   * the edited one and its walk over stored data only gives a record; it is marked as
   * not edited, also when it is the only branch.
   */
  lemma ColumnBranchRule(read: Reader, tables: seq<TableInfo>, record: ItemData,
                         original: Row, column: ColumnInfo, useOriginalData: bool, fuel: nat)
    requires ColumnDependencies(read, tables, record, original, column, useOriginalData, fuel).Success?
    ensures GetTableInfo(tables, column.schemaFK, column.tableFK).Success?
    ensures
      var r := ColumnDependencies(read, tables, record, original, column, useOriginalData, fuel).value;
      var dep := DependencyFor(record, column, GetTableInfo(tables, column.schemaFK, column.tableFK).value);
      var editedValue := RowValue(record.columns, column.columnName);
      var storedValue := RowValue(original, column.columnName);
      var edited := LoadDependencies(read, tables, dep, editedValue, useOriginalData, fuel);
      var stored := LoadDependencies(read, tables, dep, storedValue, true, fuel);
      var hasStored := storedValue.Some? && storedValue != editedValue && stored.Success? && stored.value.Some?;
      && edited.Success?
      && (storedValue.Some? && storedValue != editedValue ==> stored.Success?)
      && |r| == (if edited.value.Some? then 1 else 0) + (if hasStored then 1 else 0)
      && (edited.value.Some? ==> r[0] == edited.value.value)
      && (hasStored ==> r[|r| - 1] == stored.value.value.(isEdition := false) && !r[|r| - 1].isEdition)
  {
  }

  /** The branches of the first `n` foreign-key columns, one entry per column (empty where it fails). */
  ghost function BranchesPerColumn(read: Reader, tables: seq<TableInfo>, record: ItemData, original: Row,
                                   fks: seq<ColumnInfo>, n: nat, useOriginalData: bool, fuel: nat): seq<seq<ItemData>>
    requires n <= |fks|
  {
    if n == 0 then []
    else
      var c := ColumnDependencies(read, tables, record, original, fks[n - 1], useOriginalData, fuel);
      BranchesPerColumn(read, tables, record, original, fks, n - 1, useOriginalData, fuel)
        + [if c.Success? then c.value else []]
  }

  /** The dependencies of the first `n` foreign-key columns succeed exactly when each column's do. */
  lemma FkDependenciesSucceed(read: Reader, tables: seq<TableInfo>, record: ItemData,
                              original: Row, fks: seq<ColumnInfo>, n: nat, useOriginalData: bool, fuel: nat)
    requires n <= |fks|
    ensures FkDependencies(read, tables, record, original, fks, n, useOriginalData, fuel).Success?
      <==> forall k :: 0 <= k < n ==> ColumnDependencies(read, tables, record, original, fks[k], useOriginalData, fuel).Success?
  {
    if FkDependencies(read, tables, record, original, fks, n, useOriginalData, fuel).Success? {
      forall k | 0 <= k < n
        ensures ColumnDependencies(read, tables, record, original, fks[k], useOriginalData, fuel).Success?
      {
        FkDependenciesNeedColumn(read, tables, record, original, fks, n, k, useOriginalData, fuel);
      }
    }
    if forall k :: 0 <= k < n ==> ColumnDependencies(read, tables, record, original, fks[k], useOriginalData, fuel).Success? {
      FkDependenciesFromColumns(read, tables, record, original, fks, n, useOriginalData, fuel);
    }
  }

  /** A column whose branches fail makes the dependencies of every prefix containing it fail. */
  lemma FkDependenciesNeedColumn(read: Reader, tables: seq<TableInfo>, record: ItemData,
                                 original: Row, fks: seq<ColumnInfo>, n: nat, k: nat, useOriginalData: bool, fuel: nat)
    requires k < n <= |fks|
    requires FkDependencies(read, tables, record, original, fks, n, useOriginalData, fuel).Success?
    ensures ColumnDependencies(read, tables, record, original, fks[k], useOriginalData, fuel).Success?
  {
    FkDependenciesPrefix(read, tables, record, original, fks, n, k + 1, useOriginalData, fuel);
  }

  /** The dependencies of a prefix of the columns succeed when those of all of them do. */
  lemma FkDependenciesPrefix(read: Reader, tables: seq<TableInfo>, record: ItemData,
                             original: Row, fks: seq<ColumnInfo>, n: nat, k: nat, useOriginalData: bool, fuel: nat)
    requires k <= n <= |fks|
    requires FkDependencies(read, tables, record, original, fks, n, useOriginalData, fuel).Success?
    ensures FkDependencies(read, tables, record, original, fks, k, useOriginalData, fuel).Success?
  {
    FkDependenciesFailure(read, tables, record, original, fks, k, n, useOriginalData, fuel);
  }

  /** When the branches of every column succeed, so do the dependencies of all of them. */
  lemma {:induction false} FkDependenciesFromColumns(read: Reader, tables: seq<TableInfo>, record: ItemData,
                                                     original: Row, fks: seq<ColumnInfo>, n: nat, useOriginalData: bool, fuel: nat)
    requires n <= |fks|
    requires forall k :: 0 <= k < n ==> ColumnDependencies(read, tables, record, original, fks[k], useOriginalData, fuel).Success?
    ensures FkDependencies(read, tables, record, original, fks, n, useOriginalData, fuel).Success?
  {
    if n > 0 {
      FkDependenciesFromColumns(read, tables, record, original, fks, n - 1, useOriginalData, fuel);
      FkDependenciesStep(read, tables, record, original, fks, n - 1, useOriginalData, fuel);
    }
  }

  /**
   * When they succeed, the dependencies of the first `n` foreign-key columns are the
   * concatenation of the columns' branches, in column order.
   */
  lemma {:induction false} FkDependenciesConcat(read: Reader, tables: seq<TableInfo>, record: ItemData,
                                                original: Row, fks: seq<ColumnInfo>, n: nat, useOriginalData: bool, fuel: nat)
    requires n <= |fks|
    requires FkDependencies(read, tables, record, original, fks, n, useOriginalData, fuel).Success?
    ensures FkDependencies(read, tables, record, original, fks, n, useOriginalData, fuel).value
      == Flatten(BranchesPerColumn(read, tables, record, original, fks, n, useOriginalData, fuel))
  {
    if n > 0 {
      var before := FkDependencies(read, tables, record, original, fks, n - 1, useOriginalData, fuel);
      FkDependenciesFailure(read, tables, record, original, fks, n - 1, n, useOriginalData, fuel);
      FkDependenciesConcat(read, tables, record, original, fks, n - 1, useOriginalData, fuel);
      FkDependenciesStep(read, tables, record, original, fks, n - 1, useOriginalData, fuel);
      var c := ColumnDependencies(read, tables, record, original, fks[n - 1], useOriginalData, fuel);
      FlattenSnoc(BranchesPerColumn(read, tables, record, original, fks, n - 1, useOriginalData, fuel), c.value);
    }
  }

  /**
   * The dependencies of a completed record are the branches of the foreign-key columns
   * of its table, column by column, each computed against the stored row.
   */
  lemma LoadRecordDependencies(read: Reader, tables: seq<TableInfo>, record: ItemData,
                               recordId: Option<string>, useOriginalData: bool, fuel: nat)
    requires LoadRecord(read, tables, record, recordId, useOriginalData, fuel).Success?
    requires LoadRecord(read, tables, record, recordId, useOriginalData, fuel).value.Some?
    ensures GetTableInfo(tables, record.schema, record.table).Success?
    ensures
      var t := GetTableInfo(tables, record.schema, record.table).value;
      var id := StartId(record, t, recordId);
      && id.Some?
      && ReadRecord(read, tables, t.schema, t.table, id).Success?
      && var original := ReadRecord(read, tables, t.schema, t.table, id).value.GetOr(map[]);
         var fks := FkColumns(t);
         && (forall k :: 0 <= k < |fks| ==> ColumnDependencies(read, tables, record, original, fks[k], useOriginalData, fuel).Success?)
         && LoadRecord(read, tables, record, recordId, useOriginalData, fuel).value.value.dependencies
              == Flatten(BranchesPerColumn(read, tables, record, original, fks, |fks|, useOriginalData, fuel))
  {
    var t := GetTableInfo(tables, record.schema, record.table).value;
    var id := StartId(record, t, recordId);
    var original := ReadRecord(read, tables, t.schema, t.table, id).value.GetOr(map[]);
    var fks := FkColumns(t);
    FkDependenciesSucceed(read, tables, record, original, fks, |fks|, useOriginalData, fuel);
    FkDependenciesConcat(read, tables, record, original, fks, |fks|, useOriginalData, fuel);
  }
}
