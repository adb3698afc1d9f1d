/**
 * One database context per connection: it reads the table list from the catalog
 * the first time it is needed and keeps it, looks up tables and rows, completes
 * record trees from the stored rows and collects the MERGE statements of a tree.
 */
module Context {
  import opened Wrappers
  import opened Seqs
  import opened Text
  import opened Dtos
  import opened Utils
  import Mssql
  import opened Structure
  import opened Resolver

  class DatabaseContext {
    const connectionName: string
    const conv: Conversions
    const server: Mssql.Server
    /** The column overrides stored for this connection. */
    const overrides: seq<CustomColumnInfo>
    /** The lazily built table list: None until first asked for. */
    var tableInfos: Option<seq<TableInfo>>

    /** The table list the context works from, once built. */
    function Tables(): seq<TableInfo> {
      LoadStructure(server.catalog, overrides)
    }

    /** The reader that fetches rows from this context's server. */
    function Reader(): Reader {
      RecordReader(conv, server)
    }

    ghost predicate Valid()
      reads this
    {
      tableInfos.Some? ==> tableInfos.value == Tables()
    }

    constructor(connectionName: string, conv: Conversions, server: Mssql.Server, overrides: seq<CustomColumnInfo>)
      ensures this.connectionName == connectionName && this.conv == conv
      ensures this.server == server && this.overrides == overrides
      ensures tableInfos == None
      ensures Valid()
    {
      this.connectionName := connectionName;
      this.conv := conv;
      this.server := server;
      this.overrides := overrides;
      tableInfos := None;
    }

    /** The table list, built from the catalog on the first call and kept afterwards. */
    method GetDatabaseStructure() returns (tables: seq<TableInfo>)
      requires Valid()
      modifies this
      ensures Valid()
      ensures tableInfos == Some(tables)
      ensures tables == Tables()
    {
      if tableInfos.None? {
        var catalog := server.catalog;
        var columns := new ColumnInfo[|catalog|](i requires 0 <= i < |catalog| => catalog[i]);
        assert columns[..] == catalog;
        var built := LoadDatabaseStructure(columns, overrides);
        tableInfos := Some(built);
      }
      tables := tableInfos.value;
    }

    /** The first table with that schema and name, or "Table not found". */
    method GetTableInfo(schema: string, table: string) returns (r: Outcome<TableInfo>)
      requires Valid()
      modifies this
      ensures Valid() && tableInfos == Some(Tables())
      ensures r.Failure? <==> forall t :: t in Tables() ==> !(t.schema == schema && t.table == table)
      ensures r.Failure? ==> r.error == TableNotFound
      ensures r.Success? ==> r.value in Tables() && r.value.schema == schema && r.value.table == table
      ensures r == Structure.GetTableInfo(Tables(), schema, table)
    {
      var tables := GetDatabaseStructure();
      r := Structure.GetTableInfo(tables, schema, table);
    }

    /**
     * The stored row of a table with the given identity value: the table must exist
     * and the id must not be blank; the lookup itself is the server's.
     */
    method GetRecord(schema: string, table: string, recordId: string) returns (r: Outcome<Option<Row>>)
      requires Valid()
      modifies this
      ensures Valid() && tableInfos == Some(Tables())
      ensures Structure.GetTableInfo(Tables(), schema, table).Failure? ==> r == Failure(TableNotFound)
      ensures Structure.GetTableInfo(Tables(), schema, table).Success? && IsNullOrWhiteSpace(recordId) ==>
        r == Failure(InvalidRecordId)
      ensures r == ReadRecord(Reader(), Tables(), schema, table, Some(recordId))
    {
      var t := GetTableInfo(schema, table);
      if t.Failure? {
        return Failure(t.error);
      }
      if IsNullOrWhiteSpace(recordId) {
        return Failure(InvalidRecordId);
      }
      r := Mssql.GetRecord(conv, server, t.value, recordId);
      ReadRecordFound(Reader(), Tables(), schema, table, recordId);
    }

    /**
     * Appends to `outSqls` the MERGE statements of a record tree: nothing for a record
     * that is not being edited, otherwise the statements of its dependencies one after
     * the other and then its own.
     */
    method LoadMergeSql(record: ItemData, outSqls: seq<string>) returns (r: Outcome<seq<string>>)
      requires Valid()
      modifies this
      ensures Valid() && tableInfos == Some(Tables())
      ensures r.Success? <==> MergeStatements(MergeOf(conv, Tables()), record).Success?
      ensures r.Success? ==> r.value == outSqls + MergeStatements(MergeOf(conv, Tables()), record).value
      ensures r.Failure? ==> r.error == MergeStatements(MergeOf(conv, Tables()), record).error
    {
      var tables := GetDatabaseStructure();
      r := CollectMergeSql(MergeOf(conv, tables), record, outSqls);
    }

    /**
     * Completes a record tree from the stored rows (see `Resolver.LoadDependencies`);
     * `fuel` bounds the depth of the walk.
     */
    method LoadDependencies(record: ItemData, recordId: Option<string>, useOriginalData: bool, fuel: nat)
      returns (r: Outcome<Option<ItemData>>)
      requires Valid()
      modifies this
      ensures Valid() && tableInfos == Some(Tables())
      ensures r == Resolver.LoadDependencies(Reader(), Tables(), record, recordId, useOriginalData, fuel)
    {
      var tables := GetDatabaseStructure();
      r := WalkRecord(Reader(), tables, record, recordId, useOriginalData, fuel);
    }
  }

  // ---------------------------------------------------------------------------
  // The recursive steps, once the table list is loaded
  // ---------------------------------------------------------------------------

  /** `LoadMergeSql` on a loaded table list, `merge` giving the statement of one record. */
  method CollectMergeSql(merge: ItemData -> Outcome<string>, record: ItemData, outSqls: seq<string>)
    returns (r: Outcome<seq<string>>)
    ensures r.Success? <==> MergeStatements(merge, record).Success?
    ensures r.Success? ==> r.value == outSqls + MergeStatements(merge, record).value
    ensures r.Failure? ==> r.error == MergeStatements(merge, record).error
    decreases record, 1
  {
    if !record.isEdition {
      return Success(outSqls);
    }
    var sqls := CollectDependenciesMergeSql(merge, record, outSqls);
    if sqls.Failure? {
      return Failure(sqls.error);
    }
    MergeStatementsStep(merge, record);
    var own := merge(record);
    if own.Failure? {
      return Failure(own.error);
    }
    ConcatAssociative(outSqls, DependencyStatements(merge, record, |record.dependencies|).value, [own.value]);
    r := Success(sqls.value + [own.value]);
  }

  /** The statements of the dependencies of an edited record, one dependency after the other. */
  method CollectDependenciesMergeSql(merge: ItemData -> Outcome<string>, record: ItemData, outSqls: seq<string>)
    returns (r: Outcome<seq<string>>)
    ensures var s := DependencyStatements(merge, record, |record.dependencies|);
      (r.Success? <==> s.Success?) && (r.Success? ==> r.value == outSqls + s.value) && (r.Failure? ==> r.error == s.error)
    decreases record, 0
  {
    var sqls := outSqls;
    for i := 0 to |record.dependencies|
      invariant DependencyStatements(merge, record, i).Success?
      invariant sqls == outSqls + DependencyStatements(merge, record, i).value
    {
      var sub := CollectMergeSql(merge, record.dependencies[i], sqls);
      if sub.Failure? {
        assert DependencyStatements(merge, record, |record.dependencies|) == Failure(sub.error) by {
          DependencyStatementsStep(merge, record, i);
          DependencyStatementsFailure(merge, record, i + 1, |record.dependencies|);
        }
        return Failure(sub.error);
      }
      assert DependencyStatements(merge, record, i + 1).Success?
        && sub.value == outSqls + DependencyStatements(merge, record, i + 1).value by {
        DependencyStatementsStep(merge, record, i);
        ConcatAssociative(outSqls, DependencyStatements(merge, record, i).value,
                          MergeStatements(merge, record.dependencies[i]).value);
      }
      sqls := sub.value;
    }
    r := Success(sqls);
  }

  /** `LoadDependencies` on a loaded table list, reading rows with `read`. */
  method WalkRecord(read: Reader, tables: seq<TableInfo>, record: ItemData, recordId: Option<string>,
                    useOriginalData: bool, fuel: nat) returns (r: Outcome<Option<ItemData>>)
    ensures r == Resolver.LoadDependencies(read, tables, record, recordId, useOriginalData, fuel)
    decreases fuel, 0
  {
    if fuel == 0 {
      return Failure(RecursionLimit);
    }
    var t := Structure.GetTableInfo(tables, record.schema, record.table);
    if t.Failure? {
      return Failure(t.error);
    }
    var id := StartId(record, t.value, recordId);
    if id.None? {
      return Success(None);
    }
    var fetched := ReadRecord(read, tables, t.value.schema, t.value.table, id);
    if fetched.Failure? {
      return Failure(fetched.error);
    }
    var original := fetched.value.GetOr(map[]);
    if useOriginalData && original == map[] {
      return Success(None);
    }
    var fks := FkColumns(t.value);
    var deps := WalkFkColumns(read, tables, record, original, fks, useOriginalData, fuel - 1);
    if deps.Failure? {
      return Failure(deps.error);
    }
    var columns := if useOriginalData || record.columns == map[] then original else record.columns;
    r := Success(Some(record.(columns := columns, dependencies := deps.value)));
  }

  /** The dependencies of a record, one foreign-key column after the other. */
  method WalkFkColumns(read: Reader, tables: seq<TableInfo>, record: ItemData, original: Row, fks: seq<ColumnInfo>,
                       useOriginalData: bool, fuel: nat) returns (r: Outcome<seq<ItemData>>)
    ensures r == FkDependencies(read, tables, record, original, fks, |fks|, useOriginalData, fuel)
    decreases fuel, 2
  {
    var deps: seq<ItemData> := [];
    for i := 0 to |fks|
      invariant FkDependencies(read, tables, record, original, fks, i, useOriginalData, fuel).Success?
      invariant FkDependencies(read, tables, record, original, fks, i, useOriginalData, fuel).value == deps
    {
      var more := WalkColumn(read, tables, record, original, fks[i], useOriginalData, fuel);
      if more.Failure? {
        assert FkDependencies(read, tables, record, original, fks, |fks|, useOriginalData, fuel) == Failure(more.error) by {
          FkDependenciesStep(read, tables, record, original, fks, i, useOriginalData, fuel);
          FkDependenciesFailure(read, tables, record, original, fks, i + 1, |fks|, useOriginalData, fuel);
        }
        return Failure(more.error);
      }
      assert FkDependencies(read, tables, record, original, fks, i + 1, useOriginalData, fuel) == Success(deps + more.value) by {
        FkDependenciesStep(read, tables, record, original, fks, i, useOriginalData, fuel);
      }
      deps := deps + more.value;
    }
    r := Success(deps);
  }

  /**
   * The dependencies hanging from one foreign-key column: the record the edited value
   * points at, then (not edited) the one the stored value points at when it differs.
   */
  method WalkColumn(read: Reader, tables: seq<TableInfo>, record: ItemData, original: Row, column: ColumnInfo,
                    useOriginalData: bool, fuel: nat) returns (r: Outcome<seq<ItemData>>)
    ensures r == ColumnDependencies(read, tables, record, original, column, useOriginalData, fuel)
    decreases fuel, 1
  {
    var fkTable := Structure.GetTableInfo(tables, column.schemaFK, column.tableFK);
    if fkTable.Failure? {
      return Failure(fkTable.error);
    }
    var dep := DependencyFor(record, column, fkTable.value);
    var editedValue := RowValue(record.columns, column.columnName);
    var edited := WalkRecord(read, tables, dep, editedValue, useOriginalData, fuel);
    if edited.Failure? {
      return Failure(edited.error);
    }
    var storedValue := RowValue(original, column.columnName);
    var stored: Outcome<Option<ItemData>> := Success(None);
    if storedValue.Some? && storedValue != editedValue {
      stored := WalkRecord(read, tables, dep, storedValue, true, fuel);
    }
    if stored.Failure? {
      return Failure(stored.error);
    }
    r := Success(Branches(edited.value, stored.value, column.columnName));
  }
}
