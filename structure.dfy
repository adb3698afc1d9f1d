/**
 * Building the table list of a connection from the column catalog: each column is
 * classified, typed and overridden by the user's configuration, the columns are
 * grouped by table, each group becomes a table with its key and column lists, and
 * the tables are ordered by schema and then by name.
 */
module Structure {
  import opened Wrappers
  import opened Seqs
  import opened Text
  import opened Dtos
  import opened Utils
  import opened Sorting

  // ---------------------------------------------------------------------------
  // One column
  // ---------------------------------------------------------------------------

  /**
   * Sets the identity flag by the naming rule, then the extension flag, then the
   * type. Because the identity flag is set first, a primary key named like the
   * identity column becomes an identity column and never an extension: the
   * extension flag keeps its catalog value.
   */
  function Classify(c: ColumnInfo): (r: ColumnInfo)
    ensures r.isIdentity == IsIdentity(c)
    ensures r.isExtension == c.isExtension
    ensures r.dataType == GetType(c.dbType)
    ensures r == c.(isIdentity := r.isIdentity, isExtension := r.isExtension, dataType := r.dataType)
  {
    var withIdentity := if IsIdentity(c) then c.(isIdentity := true) else c;
    var withExtension := if IsExtension(withIdentity) then withIdentity.(isExtension := true) else withIdentity;
    withExtension.(dataType := GetType(withExtension.dbType))
  }

  /** An override applies to the column with the same schema, table and column name. */
  predicate OverrideMatches(column: ColumnInfo, cc: CustomColumnInfo) {
    cc.schema == Some(column.schema) && cc.table == Some(column.table) && cc.columnName == Some(column.columnName)
  }

  /** The first override that applies to the column. */
  function FindOverride(overrides: seq<CustomColumnInfo>, column: ColumnInfo): (r: Option<CustomColumnInfo>)
    ensures r.None? <==> forall i :: 0 <= i < |overrides| ==> !OverrideMatches(column, overrides[i])
    ensures r.Some? ==>
      exists i :: 0 <= i < |overrides| && overrides[i] == r.value && OverrideMatches(column, r.value)
        && (forall j :: 0 <= j < i ==> !OverrideMatches(column, overrides[j]))
  {
    match FindFirst(cc => OverrideMatches(column, cc), overrides)
    case None => None
    case Some(i) => Some(overrides[i])
  }

  /**
   * Every attribute the override sets replaces the column's, every attribute it
   * leaves null stays; the type is never overridden and the column becomes custom.
   */
  function ApplyOverride(c: ColumnInfo, cc: CustomColumnInfo): (r: ColumnInfo)
    ensures r.isCustom
    ensures r.tableId == c.tableId && r.schema == c.schema && r.table == c.table
    ensures r.columnId == c.columnId && r.columnName == c.columnName
    ensures r.dataType == c.dataType && r.dbType == c.dbType
    ensures cc.isIdentity.Some? ==> r.isIdentity == cc.isIdentity.value
    ensures cc.isIdentity.None? ==> r.isIdentity == c.isIdentity
    ensures cc.isExtension.Some? ==> r.isExtension == cc.isExtension.value
    ensures cc.isExtension.None? ==> r.isExtension == c.isExtension
    ensures cc.isPK.Some? ==> r.isPK == cc.isPK.value
    ensures cc.isPK.None? ==> r.isPK == c.isPK
    ensures cc.isFK.Some? ==> r.isFK == cc.isFK.value
    ensures cc.isFK.None? ==> r.isFK == c.isFK
    ensures cc.isUK.Some? ==> r.isUK == cc.isUK.value
    ensures cc.isUK.None? ==> r.isUK == c.isUK
    ensures cc.schemaFK.Some? ==> r.schemaFK == cc.schemaFK.value
    ensures cc.schemaFK.None? ==> r.schemaFK == c.schemaFK
    ensures cc.tableFK.Some? ==> r.tableFK == cc.tableFK.value
    ensures cc.tableFK.None? ==> r.tableFK == c.tableFK
    ensures cc.defaultValue.Some? ==> r.defaultValue == cc.defaultValue.value
    ensures cc.defaultValue.None? ==> r.defaultValue == c.defaultValue
    ensures cc.isNullable.Some? ==> r.isNullable == cc.isNullable.value
    ensures cc.isNullable.None? ==> r.isNullable == c.isNullable
  {
    c.(isIdentity := cc.isIdentity.GetOr(c.isIdentity),
       isExtension := cc.isExtension.GetOr(c.isExtension),
       isPK := cc.isPK.GetOr(c.isPK),
       isFK := cc.isFK.GetOr(c.isFK),
       isUK := cc.isUK.GetOr(c.isUK),
       schemaFK := cc.schemaFK.GetOr(c.schemaFK),
       tableFK := cc.tableFK.GetOr(c.tableFK),
       defaultValue := cc.defaultValue.GetOr(c.defaultValue),
       isNullable := cc.isNullable.GetOr(c.isNullable),
       isCustom := true)
  }

  /** What the first loop of the build does to one column. */
  function EnrichColumn(c: ColumnInfo, overrides: seq<CustomColumnInfo>): (r: ColumnInfo)
    ensures r.tableId == c.tableId && r.schema == c.schema && r.table == c.table && r.columnName == c.columnName
    ensures r.dataType == GetType(c.dbType)
    ensures FindOverride(overrides, c).None? ==> r == Classify(c)
    ensures FindOverride(overrides, c).Some? ==> r == ApplyOverride(Classify(c), FindOverride(overrides, c).value)
  {
    var k := Classify(c);
    match FindOverride(overrides, k)
    case None => k
    case Some(cc) => ApplyOverride(k, cc)
  }

  function Enriched(catalog: seq<ColumnInfo>, overrides: seq<CustomColumnInfo>): (r: seq<ColumnInfo>)
    ensures |r| == |catalog|
    ensures forall i :: 0 <= i < |r| ==> r[i] == EnrichColumn(catalog[i], overrides)
  {
    seq(|catalog|, i requires 0 <= i < |catalog| => EnrichColumn(catalog[i], overrides))
  }

  // ---------------------------------------------------------------------------
  // Grouping
  // ---------------------------------------------------------------------------

  predicate HasTableId(columns: seq<ColumnInfo>, id: int) {
    exists i :: 0 <= i < |columns| && columns[i].tableId == id
  }

  /** The distinct table ids of the columns, in order of first appearance. */
  function TableIds(columns: seq<ColumnInfo>): (r: seq<int>)
    ensures forall i, j :: 0 <= i < j < |r| ==> r[i] != r[j]
    ensures forall id :: id in r <==> HasTableId(columns, id)
  {
    if columns == [] then []
    else
      var init := columns[..|columns| - 1];
      var ids := TableIds(init);
      var last := columns[|columns| - 1].tableId;
      assert forall id :: HasTableId(columns, id) <==> HasTableId(init, id) || id == last by {
        forall id | HasTableId(init, id)
          ensures HasTableId(columns, id)
        {
          var i :| 0 <= i < |init| && init[i].tableId == id;
          assert columns[i].tableId == id;
        }
      }
      if last in ids then ids else ids + [last]
  }

  function InTable(id: int): ColumnInfo -> bool {
    (c: ColumnInfo) => c.tableId == id
  }

  /** The columns of one table, in catalog order. */
  function TableColumns(columns: seq<ColumnInfo>, id: int): (r: seq<ColumnInfo>)
    ensures Subseq(r, columns)
    ensures forall c :: c in r <==> c in columns && c.tableId == id
    ensures HasTableId(columns, id) ==> r != []
  {
    FilterIsSubseq(InTable(id), columns);
    var r := Filter(InTable(id), columns);
    assert HasTableId(columns, id) ==> r != [] by {
      if HasTableId(columns, id) {
        var i :| 0 <= i < |columns| && columns[i].tableId == id;
        assert columns[i] in r;
      }
    }
    r
  }

  function ColumnName(c: ColumnInfo): string {
    c.columnName
  }

  /** The name of the first identity column, if there is one. */
  function FirstIdentityName(columns: seq<ColumnInfo>): (r: Option<string>)
    ensures r.None? <==> forall i :: 0 <= i < |columns| ==> !columns[i].isIdentity
    ensures r.Some? ==>
      exists i :: 0 <= i < |columns| && columns[i].isIdentity && columns[i].columnName == r.value
        && (forall j :: 0 <= j < i ==> !columns[j].isIdentity)
  {
    match FindFirst(IsIdentityColumn, columns)
    case None => None
    case Some(i) => Some(columns[i].columnName)
  }

  /** The table made of one group of columns. */
  function BuildTable(columns: seq<ColumnInfo>): (r: TableInfo)
    requires columns != []
    ensures r.schema == columns[0].schema && r.table == columns[0].table && r.columns == columns
    ensures r.isExtension <==> exists i :: 0 <= i < |columns| && columns[i].isExtension
    ensures r.identityColumn == FirstIdentityName(columns)
    ensures r.identifierColumns == Map(ColumnName, FilterIdentifierColumns(columns))
    ensures r.updateableColumns == Map(ColumnName, FilterUpdateableColumns(columns))
    ensures r.insertableColumns == Map(ColumnName, FilterInsertableColumns(columns))
  {
    TableInfo(
      columns[0].schema,
      columns[0].table,
      exists i :: 0 <= i < |columns| && columns[i].isExtension,
      FirstIdentityName(columns),
      Map(ColumnName, FilterIdentifierColumns(columns)),
      Map(ColumnName, FilterUpdateableColumns(columns)),
      Map(ColumnName, FilterInsertableColumns(columns)),
      columns)
  }

  /** The insertable names of a built table are the names of its non-identity columns. */
  lemma BuiltInsertableNames(columns: seq<ColumnInfo>)
    requires columns != []
    ensures forall n :: (n in BuildTable(columns).insertableColumns
                         <==> exists c :: c in columns && !c.isIdentity && c.columnName == n)
  {
    var names := BuildTable(columns).insertableColumns;
    var ins := FilterInsertableColumns(columns);
    assert names == Map(ColumnName, ins);
    forall n | n in names
      ensures exists c :: c in columns && !c.isIdentity && c.columnName == n
    {
      var i :| 0 <= i < |ins| && names[i] == n;
      assert ins[i] in ins;
    }
    forall c | c in columns && !c.isIdentity
      ensures c.columnName in names
    {
      var i :| 0 <= i < |ins| && ins[i] == c;
      assert names[i] == c.columnName;
    }
  }

  /** Every updateable name of a built table is also insertable. */
  lemma BuiltUpdateableNames(columns: seq<ColumnInfo>)
    requires columns != []
    ensures forall n :: n in BuildTable(columns).updateableColumns ==> n in BuildTable(columns).insertableColumns
  {
    var t := BuildTable(columns);
    var ins := FilterInsertableColumns(columns);
    var upd := FilterUpdateableColumns(columns);
    assert t.insertableColumns == Map(ColumnName, ins);
    assert t.updateableColumns == Map(ColumnName, upd);
    forall n | n in t.updateableColumns
      ensures n in t.insertableColumns
    {
      var i :| 0 <= i < |upd| && t.updateableColumns[i] == n;
      assert upd[i] in upd;
      var j :| 0 <= j < |ins| && ins[j] == upd[i];
      assert t.insertableColumns[j] == n;
    }
  }

  /** Every identifier name of a built table is the name of one of its columns. */
  lemma BuiltIdentifierNames(columns: seq<ColumnInfo>)
    requires columns != []
    ensures forall n :: n in BuildTable(columns).identifierColumns ==> exists c :: c in columns && c.columnName == n
  {
    var names := BuildTable(columns).identifierColumns;
    var ids := FilterIdentifierColumns(columns);
    assert names == Map(ColumnName, ids);
    SubseqMembers(ids, columns);
    forall n | n in names
      ensures exists c :: c in columns && c.columnName == n
    {
      var i :| 0 <= i < |ids| && names[i] == n;
      assert ids[i] in ids;
    }
  }

  /** One table per id, in the order of the ids. */
  function BuildTables(columns: seq<ColumnInfo>, ids: seq<int>): (r: seq<TableInfo>)
    requires forall id :: id in ids ==> HasTableId(columns, id)
    ensures |r| == |ids|
  {
    GroupEach(BuildTable, columns, ids)
  }

  /** `build` applied to the group of each id, in the order of the ids. */
  function GroupEach<T>(build: seq<ColumnInfo> --> T, columns: seq<ColumnInfo>, ids: seq<int>): (r: seq<T>)
    requires forall id :: id in ids ==> HasTableId(columns, id)
    requires forall group :: group != [] ==> build.requires(group)
    ensures |r| == |ids|
  {
    if ids == [] then []
    else
      var init := ids[..|ids| - 1];
      assert forall id :: id in init ==> id in ids;
      GroupEach(build, columns, init) + [build(TableColumns(columns, ids[|ids| - 1]))]
  }

  /** The `i`-th table is built from the columns of the `i`-th id. */
  lemma {:induction false} GroupEachAt<T>(build: seq<ColumnInfo> --> T, columns: seq<ColumnInfo>, ids: seq<int>, i: nat)
    requires forall id :: id in ids ==> HasTableId(columns, id)
    requires forall group :: group != [] ==> build.requires(group)
    requires i < |ids|
    ensures HasTableId(columns, ids[i])
    ensures GroupEach(build, columns, ids)[i] == build(TableColumns(columns, ids[i]))
  {
    assert ids[i] in ids;
    var init := ids[..|ids| - 1];
    if i < |init| {
      assert forall id :: id in init ==> id in ids;
      GroupEachAt(build, columns, init, i);
      assert init[i] == ids[i];
    }
  }

  lemma BuildTablesAt(columns: seq<ColumnInfo>, ids: seq<int>, i: nat)
    requires forall id :: id in ids ==> HasTableId(columns, id)
    requires i < |ids|
    ensures HasTableId(columns, ids[i])
    ensures BuildTables(columns, ids)[i] == BuildTable(TableColumns(columns, ids[i]))
  {
    GroupEachAt(BuildTable, columns, ids, i);
  }

  function SchemaOf(t: TableInfo): string {
    t.schema
  }

  function TableOf(t: TableInfo): string {
    t.table
  }

  /** `OrderBy(Table).OrderBy(Schema)`: two stable sorts, the last one deciding first. */
  function SortTables(tables: seq<TableInfo>): (r: seq<TableInfo>)
    ensures multiset(r) == multiset(tables)
  {
    SortBy(SchemaOf, SortBy(TableOf, tables))
  }

  /**
   * The tables come out ordered by schema; within one schema by table name; and
   * tables with the same schema and name keep the order they were built in.
   */
  lemma SortTablesOrder(tables: seq<TableInfo>, schema: string, table: string)
    ensures SortedBy(SchemaOf, SortTables(tables))
    ensures SortedBy(TableOf, Filter(SameKey(SchemaOf, schema), SortTables(tables)))
    ensures Filter(SameKey(TableOf, table), Filter(SameKey(SchemaOf, schema), SortTables(tables)))
      == Filter(SameKey(TableOf, table), Filter(SameKey(SchemaOf, schema), tables))
  {
    var byTable := SortBy(TableOf, tables);
    var inSchema := SameKey(SchemaOf, schema);
    var named := SameKey(TableOf, table);
    SortBySorted(SchemaOf, byTable);
    SortByStable(SchemaOf, byTable, schema);
    SortBySorted(TableOf, tables);
    FilterSorted(TableOf, inSchema, byTable);
    FilterCommute(named, inSchema, byTable);
    SortByStable(TableOf, tables, table);
    FilterCommute(inSchema, named, tables);
  }

  /** The table list of a catalog under a set of overrides. */
  function LoadStructure(catalog: seq<ColumnInfo>, overrides: seq<CustomColumnInfo>): (r: seq<TableInfo>)
    ensures |r| == |TableIds(Enriched(catalog, overrides))|
  {
    var columns := Enriched(catalog, overrides);
    var tables := BuildTables(columns, TableIds(columns));
    assert |multiset(SortTables(tables))| == |multiset(tables)|;
    SortTables(tables)
  }

  /** Each built table holds the (non-empty) group of its first column's id. */
  lemma BuiltTablesGrouped(columns: seq<ColumnInfo>, ids: seq<int>)
    requires forall id :: id in ids ==> HasTableId(columns, id)
    ensures forall t :: t in BuildTables(columns, ids) ==>
      t.columns != [] && t.columns == TableColumns(columns, t.columns[0].tableId) && t == BuildTable(t.columns)
  {
    var built := BuildTables(columns, ids);
    forall t | t in built
      ensures t.columns != [] && t.columns == TableColumns(columns, t.columns[0].tableId) && t == BuildTable(t.columns)
    {
      var i :| 0 <= i < |built| && built[i] == t;
      BuildTablesAt(columns, ids, i);
      var group := TableColumns(columns, ids[i]);
      assert t.columns == group;
      assert group[0] in group;
    }
  }

  /** Every column lands in one of the built tables. */
  lemma BuiltTablesCover(columns: seq<ColumnInfo>)
    ensures forall c :: c in columns ==>
      exists t :: t in BuildTables(columns, TableIds(columns)) && c in t.columns
  {
    var ids := TableIds(columns);
    var built := BuildTables(columns, ids);
    forall c | c in columns
      ensures exists t :: t in built && c in t.columns
    {
      var k :| 0 <= k < |columns| && columns[k] == c;
      assert HasTableId(columns, c.tableId);
      var i :| 0 <= i < |ids| && ids[i] == c.tableId;
      BuildTablesAt(columns, ids, i);
      assert c in built[i].columns;
      assert built[i] in built;
    }
  }

  /**
   * Every table holds exactly the columns of one table id, none is empty, and every
   * column of the catalog lands in the table of its id.
   */
  lemma LoadStructureGroups(catalog: seq<ColumnInfo>, overrides: seq<CustomColumnInfo>)
    ensures forall t :: t in LoadStructure(catalog, overrides) ==>
      t.columns != [] && t.columns == TableColumns(Enriched(catalog, overrides), t.columns[0].tableId)
        && t == BuildTable(t.columns)
    ensures forall c :: c in Enriched(catalog, overrides) ==>
      exists t :: t in LoadStructure(catalog, overrides) && c in t.columns
  {
    var columns := Enriched(catalog, overrides);
    var ids := TableIds(columns);
    var built := BuildTables(columns, ids);
    var r := LoadStructure(catalog, overrides);
    assert multiset(r) == multiset(built);
    BuiltTablesGrouped(columns, ids);
    BuiltTablesCover(columns);
    forall t | t in r
      ensures t in built
    {
      assert t in multiset(built);
    }
    forall c | c in columns
      ensures exists t :: t in r && c in t.columns
    {
      var t :| t in built && c in t.columns;
      assert t in multiset(r);
    }
  }

  /** `FirstOrDefault` on schema and table name, or "Table not found". */
  function GetTableInfo(tables: seq<TableInfo>, schema: string, table: string): (r: Outcome<TableInfo>)
    ensures r.Failure? <==> forall i :: 0 <= i < |tables| ==> !(tables[i].schema == schema && tables[i].table == table)
    ensures r.Failure? ==> r.error == TableNotFound
    ensures r.Success? ==> r.value.schema == schema && r.value.table == table
    ensures r.Success? ==>
      exists i :: 0 <= i < |tables| && tables[i] == r.value
        && (forall j :: 0 <= j < i ==> !(tables[j].schema == schema && tables[j].table == table))
  {
    match FindFirst((t: TableInfo) => t.schema == schema && t.table == table, tables)
    case None => Failure(TableNotFound)
    case Some(i) => Success(tables[i])
  }

  /** Enriches every column of the catalog in place. */
  method EnrichColumns(columns: array<ColumnInfo>, overrides: seq<CustomColumnInfo>)
    modifies columns
    ensures columns[..] == Enriched(old(columns[..]), overrides)
  {
    ghost var catalog := columns[..];
    var enrich := (c: ColumnInfo) => EnrichColumn(c, overrides);
    UpdateEach(columns, enrich);
    assert forall i :: 0 <= i < columns.Length ==> columns[i] == Enriched(catalog, overrides)[i];
  }

  /** Replaces every element `x` of the array by `f(x)`, front to back. */
  method UpdateEach<T>(a: array<T>, f: T -> T)
    modifies a
    ensures a[..] == Map(f, old(a[..]))
  {
    ghost var before := a[..];
    for i := 0 to a.Length
      invariant a[..i] == Map(f, before)[..i]
      invariant a[i..] == before[i..]
    {
      assert a[i] == before[i];
      a[i] := f(a[i]);
      assert a[..i + 1] == Map(f, before)[..i + 1];
    }
    assert a[..] == a[..a.Length];
  }

  /**
   * The build: enriches every column of the catalog in place, then makes one table
   * per table id and orders the tables.
   */
  method LoadDatabaseStructure(columns: array<ColumnInfo>, overrides: seq<CustomColumnInfo>) returns (tables: seq<TableInfo>)
    modifies columns
    ensures columns[..] == Enriched(old(columns[..]), overrides)
    ensures tables == LoadStructure(old(columns[..]), overrides)
  {
    EnrichColumns(columns, overrides);
    var all := columns[..];
    var ids := TableIds(all);
    var built := BuildAll(all, ids);
    tables := SortTables(built);
  }

  /** One table per id, built one after the other. */
  method BuildAll(columns: seq<ColumnInfo>, ids: seq<int>) returns (built: seq<TableInfo>)
    requires forall id :: id in ids ==> HasTableId(columns, id)
    ensures built == BuildTables(columns, ids)
  {
    built := [];
    for j := 0 to |ids|
      invariant forall id :: id in ids[..j] ==> id in ids
      invariant built == GroupEach(BuildTable, columns, ids[..j])
    {
      assert ids[..j + 1][..j] == ids[..j];
      assert ids[j] in ids;
      built := built + [BuildTable(TableColumns(columns, ids[j]))];
    }
    assert ids[..|ids|] == ids;
  }
}
