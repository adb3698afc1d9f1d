/**
 * The service in front of the database contexts: it finds a connection by name,
 * keeps one context per connection until a configuration change evicts it, and
 * produces the MERGE scripts of a record tree as stored and as edited, with a line
 * diff between them.
 */
module Service {
  import opened Wrappers
  import opened Seqs
  import opened Text
  import opened Dtos
  import opened Utils
  import Mssql
  import opened Structure
  import opened Resolver
  import opened Context

  /** A configured connection: its name and the server its connection string reaches. */
  datatype Connection = Connection(name: string, server: Mssql.Server)

  /** The server of the first connection with that name, if any. */
  function FindServer(connections: seq<Connection>, name: string): (r: Option<Mssql.Server>)
    ensures r.None? <==> forall i :: 0 <= i < |connections| ==> connections[i].name != name
    ensures r.Some? ==>
      exists i :: 0 <= i < |connections| && connections[i].name == name && connections[i].server == r.value
        && (forall j :: 0 <= j < i ==> connections[j].name != name)
  {
    match FindFirst((c: Connection) => c.name == name, connections)
    case None => None
    case Some(i) => Some(connections[i].server)
  }

  // ---------------------------------------------------------------------------
  // The line diff of the two scripts
  // ---------------------------------------------------------------------------

  /** How the line differ classifies a line. */
  datatype ChangeType = Unchanged | Deleted | Inserted | Imaginary | Modified

  /** One line of an inline diff. */
  datatype DiffLine = DiffLine(kind: ChangeType, text: string)

  const NewLine: string := "\n"

  /** The tag of a line: "+ " inserted, "- " deleted, two spaces for anything else. */
  function Prefix(kind: ChangeType): (r: string)
    ensures |r| == 2 && '\n' !in r
  {
    match kind
    case Inserted => "+ "
    case Deleted => "- "
    case _ => "  "
  }

  /** `AppendLine` of the tagged text. */
  function TaggedLine(line: DiffLine): string {
    Prefix(line.kind) + line.text + NewLine
  }

  /** The text the diff builder produces: one tagged line per diff line, in order. */
  function FormatDiff(lines: seq<DiffLine>): string {
    if lines == [] then "" else TaggedLine(lines[0]) + FormatDiff(lines[1..])
  }

  /** A diff line as its tag tells it: only insertions and deletions keep their kind. */
  function Normalize(line: DiffLine): (r: DiffLine)
    ensures r.text == line.text
    ensures r.kind == Inserted <==> line.kind == Inserted
    ensures r.kind == Deleted <==> line.kind == Deleted
    ensures r.kind in {Inserted, Deleted, Unchanged}
  {
    if line.kind == Inserted || line.kind == Deleted then line else DiffLine(Unchanged, line.text)
  }

  /** Reads a tagged line back. */
  function ParseLine(s: string): DiffLine {
    if |s| >= 2 && s[..2] == "+ " then DiffLine(Inserted, s[2..])
    else if |s| >= 2 && s[..2] == "- " then DiffLine(Deleted, s[2..])
    else if |s| >= 2 && s[..2] == "  " then DiffLine(Unchanged, s[2..])
    else DiffLine(Unchanged, s)
  }

  lemma ParseTaggedLine(line: DiffLine)
    ensures ParseLine(Prefix(line.kind) + line.text) == Normalize(line)
  {
    var s := Prefix(line.kind) + line.text;
    assert s[..2] == Prefix(line.kind) && s[2..] == line.text;
  }

  /**
   * The diff text is one tagged line per diff line and nothing after the last line
   * break; reading each line back gives the diff line, up to the kinds the tags merge.
   */
  lemma {:induction false} FormatDiffRoundTrip(lines: seq<DiffLine>)
    requires forall i :: 0 <= i < |lines| ==> '\n' !in lines[i].text
    ensures var parts := Split(FormatDiff(lines), '\n');
      |parts| == |lines| + 1 && parts[|lines|] == ""
        && forall i :: 0 <= i < |lines| ==> ParseLine(parts[i]) == Normalize(lines[i])
  {
    if lines == [] {
      assert Split("", '\n') == [""];
    } else {
      var head := Prefix(lines[0].kind) + lines[0].text;
      FormatDiffRoundTrip(lines[1..]);
      assert FormatDiff(lines) == head + ['\n'] + FormatDiff(lines[1..]);
      SplitAtFirst(head, '\n', FormatDiff(lines[1..]));
      ParseTaggedLine(lines[0]);
      var parts := Split(FormatDiff(lines), '\n');
      var rest := Split(FormatDiff(lines[1..]), '\n');
      assert parts == [head] + rest;
      forall i | 0 <= i < |lines|
        ensures ParseLine(parts[i]) == Normalize(lines[i])
      {
        if i > 0 {
          assert parts[i] == rest[i - 1] && lines[i] == lines[1..][i - 1];
        }
      }
    }
  }

  /** Builds the diff text line by line. */
  method GenerateDiff(lines: seq<DiffLine>) returns (s: string)
    ensures s == FormatDiff(lines)
  {
    s := "";
    var i := |lines|;
    while i > 0
      invariant 0 <= i <= |lines|
      invariant s == FormatDiff(lines[i..])
    {
      i := i - 1;
      assert lines[i..][1..] == lines[i + 1..];
      s := TaggedLine(lines[i]) + s;
    }
  }

  // ---------------------------------------------------------------------------
  // The two scripts of a record tree
  // ---------------------------------------------------------------------------

  /** The stored script, the edited script and the diff between them. */
  datatype Scripts = Scripts(originalSql: string, newSql: string, diffSql: string)

  const StatementSeparator: string := "\n\n"

  /** The statements of the tree as stored: none when the stored walk finds no row. */
  function OriginalStatements(merge: ItemData -> Outcome<string>, read: Reader, tables: seq<TableInfo>,
                              record: ItemData, fuel: nat): Outcome<seq<string>>
  {
    var originalData :- LoadDependencies(read, tables, record, None, true, fuel);
    if originalData.Some? then MergeStatements(merge, originalData.value) else Success([])
  }

  /** The statements of the tree as edited: the record itself when the walk finds no row. */
  function NewStatements(merge: ItemData -> Outcome<string>, read: Reader, tables: seq<TableInfo>,
                         record: ItemData, fuel: nat): Outcome<seq<string>>
  {
    var recordWithDeps :- LoadDependencies(read, tables, record, None, false, fuel);
    MergeStatements(merge, recordWithDeps.GetOr(record))
  }

  /** Both scripts joined by a blank line, and their diff only when they differ beyond surrounding white space. */
  function ScriptsOf(originalSqls: seq<string>, newSqls: seq<string>, differ: (string, string) -> seq<DiffLine>): Scripts {
    var originalSql := Join(StatementSeparator, originalSqls);
    var newSql := Join(StatementSeparator, newSqls);
    var diff := if Trim(originalSql) != Trim(newSql) then FormatDiff(differ(originalSql, newSql)) else "";
    Scripts(originalSql, newSql, diff)
  }

  /**
   * The scripts of a record tree, `merge` giving the statement of one record; the
   * first failing step (stored walk, its statements, edited walk, its statements)
   * gives the error.
   */
  function MergeScripts(merge: ItemData -> Outcome<string>, read: Reader, tables: seq<TableInfo>, record: ItemData,
                        fuel: nat, differ: (string, string) -> seq<DiffLine>): Outcome<Scripts>
  {
    var originalSqls :- OriginalStatements(merge, read, tables, record, fuel);
    var newSqls :- NewStatements(merge, read, tables, record, fuel);
    Success(ScriptsOf(originalSqls, newSqls, differ))
  }

  /** The diff is empty when the scripts agree up to surrounding white space, and the tagged diff otherwise. */
  lemma DiffOnlyWhenDifferent(originalSqls: seq<string>, newSqls: seq<string>, differ: (string, string) -> seq<DiffLine>)
    ensures var s := ScriptsOf(originalSqls, newSqls, differ);
      s.originalSql == Join(StatementSeparator, originalSqls) && s.newSql == Join(StatementSeparator, newSqls)
        && (Trim(s.originalSql) == Trim(s.newSql) ==> s.diffSql == "")
        && (Trim(s.originalSql) != Trim(s.newSql) ==> s.diffSql == FormatDiff(differ(s.originalSql, s.newSql)))
  {
  }

  /**
   * The inline diff builder lists every line of the two texts, so two different texts
   * give at least one diff line; given that, the diff is empty exactly when the
   * scripts agree up to surrounding white space.
   */
  lemma DiffEmptyExactlyWhenAlike(originalSqls: seq<string>, newSqls: seq<string>,
                                  differ: (string, string) -> seq<DiffLine>)
    requires forall a, b :: a != b ==> differ(a, b) != []
    ensures var s := ScriptsOf(originalSqls, newSqls, differ);
      s.diffSql == "" <==> Trim(s.originalSql) == Trim(s.newSql)
  {
    var s := ScriptsOf(originalSqls, newSqls, differ);
    if Trim(s.originalSql) != Trim(s.newSql) {
      var lines := differ(s.originalSql, s.newSql);
      assert lines != [];
      assert s.diffSql == TaggedLine(lines[0]) + FormatDiff(lines[1..]);
      assert |TaggedLine(lines[0])| >= 3;
    }
  }

  /** Nothing stored: the stored script is empty and the edited script is the statements of the record itself. */
  lemma NothingStored(merge: ItemData -> Outcome<string>, read: Reader, tables: seq<TableInfo>, record: ItemData,
                      fuel: nat, differ: (string, string) -> seq<DiffLine>)
    requires LoadDependencies(read, tables, record, None, true, fuel) == Success(None)
    requires LoadDependencies(read, tables, record, None, false, fuel) == Success(None)
    requires MergeStatements(merge, record).Success?
    ensures MergeScripts(merge, read, tables, record, fuel, differ).Success?
    ensures var s := MergeScripts(merge, read, tables, record, fuel, differ).value;
      s.originalSql == "" && s.newSql == Join(StatementSeparator, MergeStatements(merge, record).value)
  {
    assert OriginalStatements(merge, read, tables, record, fuel) == Success([]);
    assert NewStatements(merge, read, tables, record, fuel) == MergeStatements(merge, record);
  }

  /**
   * The scripts exist exactly when both the stored and the edited statements do; the
   * stored side's error comes first, and on success the scripts are built from both.
   */
  lemma MergeScriptsErrorOrder(merge: ItemData -> Outcome<string>, read: Reader, tables: seq<TableInfo>,
                               record: ItemData, fuel: nat, differ: (string, string) -> seq<DiffLine>)
    ensures var r := MergeScripts(merge, read, tables, record, fuel, differ);
      var o := OriginalStatements(merge, read, tables, record, fuel);
      var n := NewStatements(merge, read, tables, record, fuel);
      && (r.Success? <==> o.Success? && n.Success?)
      && (o.Failure? ==> r == Failure(o.error))
      && (o.Success? && n.Failure? ==> r == Failure(n.error))
      && (r.Success? ==> r.value == ScriptsOf(o.value, n.value, differ))
  {
  }

  /**
   * The edited script holds, in post-order, the statement of every edited record of
   * the completed tree; any failure of the statements fails the scripts.
   */
  lemma NewScriptPostOrder(merge: ItemData -> Outcome<string>, read: Reader, tables: seq<TableInfo>, record: ItemData,
                           fuel: nat, differ: (string, string) -> seq<DiffLine>)
    requires MergeScripts(merge, read, tables, record, fuel, differ).Success?
    ensures LoadDependencies(read, tables, record, None, false, fuel).Success?
    ensures var tree := LoadDependencies(read, tables, record, None, false, fuel).value.GetOr(record);
      var statements := MergeStatements(merge, tree);
      statements.Success?
        && Pointwise(merge, EditedNodes(tree), statements.value)
        && MergeScripts(merge, read, tables, record, fuel, differ).value.newSql == Join(StatementSeparator, statements.value)
  {
    var tree := LoadDependencies(read, tables, record, None, false, fuel).value.GetOr(record);
    MergeStatementsPostOrder(merge, tree);
  }

  /** The stored statements, through the context. */
  method LoadOriginalSql(processor: DatabaseContext, record: ItemData, fuel: nat) returns (r: Outcome<seq<string>>)
    requires processor.Valid()
    modifies processor
    ensures processor.Valid()
    ensures r == OriginalStatements(MergeOf(processor.conv, processor.Tables()), processor.Reader(), processor.Tables(), record, fuel)
  {
    ghost var merge := MergeOf(processor.conv, processor.Tables());
    ghost var walk := LoadDependencies(processor.Reader(), processor.Tables(), record, None, true, fuel);
    var originalData := processor.LoadDependencies(record, None, true, fuel);
    if originalData.Failure? {
      return Failure(originalData.error);
    }
    if originalData.value.None? {
      return Success([]);
    }
    var loaded := processor.LoadMergeSql(originalData.value.value, []);
    assert OriginalStatements(merge, processor.Reader(), processor.Tables(), record, fuel)
      == MergeStatements(merge, originalData.value.value) by {
      assert walk == Success(originalData.value);
    }
    if loaded.Failure? {
      return Failure(loaded.error);
    }
    assert loaded.value == MergeStatements(merge, originalData.value.value).value by {
      assert [] + MergeStatements(merge, originalData.value.value).value == MergeStatements(merge, originalData.value.value).value;
    }
    return Success(loaded.value);
  }

  /** The edited statements, through the context. */
  method LoadNewSql(processor: DatabaseContext, record: ItemData, fuel: nat) returns (r: Outcome<seq<string>>)
    requires processor.Valid()
    modifies processor
    ensures processor.Valid()
    ensures r == NewStatements(MergeOf(processor.conv, processor.Tables()), processor.Reader(), processor.Tables(), record, fuel)
  {
    ghost var merge := MergeOf(processor.conv, processor.Tables());
    ghost var walk := LoadDependencies(processor.Reader(), processor.Tables(), record, None, false, fuel);
    var withDeps := processor.LoadDependencies(record, None, false, fuel);
    if withDeps.Failure? {
      return Failure(withDeps.error);
    }
    var tree := withDeps.value.GetOr(record);
    var loaded := processor.LoadMergeSql(tree, []);
    assert NewStatements(merge, processor.Reader(), processor.Tables(), record, fuel) == MergeStatements(merge, tree) by {
      assert walk == Success(withDeps.value);
    }
    if loaded.Failure? {
      return Failure(loaded.error);
    }
    assert loaded.value == MergeStatements(merge, tree).value by {
      assert [] + MergeStatements(merge, tree).value == MergeStatements(merge, tree).value;
    }
    return Success(loaded.value);
  }

  /** Both scripts and their diff, through the context. */
  method LoadScripts(processor: DatabaseContext, record: ItemData, fuel: nat, differ: (string, string) -> seq<DiffLine>)
    returns (r: Outcome<Scripts>)
    requires processor.Valid()
    modifies processor
    ensures processor.Valid()
    ensures r == MergeScripts(MergeOf(processor.conv, processor.Tables()), processor.Reader(), processor.Tables(), record, fuel, differ)
  {
    var originalSqls := LoadOriginalSql(processor, record, fuel);
    if originalSqls.Failure? {
      return Failure(originalSqls.error);
    }
    var newSqls := LoadNewSql(processor, record, fuel);
    if newSqls.Failure? {
      return Failure(newSqls.error);
    }
    var originalSql := Join(StatementSeparator, originalSqls.value);
    var newSql := Join(StatementSeparator, newSqls.value);
    var diff := "";
    if Trim(originalSql) != Trim(newSql) {
      diff := GenerateDiff(differ(originalSql, newSql));
    }
    r := Success(Scripts(originalSql, newSql, diff));
  }

  // ---------------------------------------------------------------------------
  // The service
  // ---------------------------------------------------------------------------

  class DatabaseService {
    /** The connections as configured when the service started. */
    const connections: seq<Connection>
    const conv: Conversions
    /** One context per connection name, created on first use. */
    var cache: map<string, DatabaseContext>

    /** A context cached under a name: built for that connection and consistent. */
    ghost predicate Serves(name: string, context: DatabaseContext)
      reads context
    {
      context.Valid() && context.connectionName == name && context.conv == conv
        && FindServer(connections, name) == Some(context.server)
    }

    ghost predicate Valid()
      reads this, cache.Values
    {
      forall name :: name in cache ==> Serves(name, cache[name])
    }

    constructor(connections: seq<Connection>, conv: Conversions)
      ensures this.connections == connections && this.conv == conv
      ensures cache == map[]
      ensures Valid()
    {
      this.connections := connections;
      this.conv := conv;
      cache := map[];
    }

    /**
     * The context of a connection: "Connection not found" for an unknown name, the
     * cached context when there is one, and otherwise a new context (reading the
     * column overrides `storedOverrides` the configuration store holds) that is cached.
     */
    method GetProcessor(connectionName: string, storedOverrides: seq<CustomColumnInfo>) returns (r: Outcome<DatabaseContext>)
      requires Valid()
      modifies this
      ensures Valid()
      ensures FindServer(connections, connectionName).None? <==> r.Failure?
      ensures r.Failure? ==> r.error == ConnectionNotFound && cache == old(cache)
      ensures r.Success? && connectionName in old(cache) ==> r.value == old(cache)[connectionName] && cache == old(cache)
      ensures r.Success? && connectionName !in old(cache) ==>
        fresh(r.value) && cache == old(cache)[connectionName := r.value]
          && r.value.overrides == storedOverrides && r.value.tableInfos == None
      ensures r.Success? ==>
        connectionName in cache && cache[connectionName] == r.value && Serves(connectionName, r.value)
      ensures r.Success? ==> cache == old(cache)[connectionName := r.value]

    {
      var server := FindServer(connections, connectionName);
      if server.None? {
        return Failure(ConnectionNotFound);
      }
      if connectionName in cache {
        return Success(cache[connectionName]);
      }
      var context := new DatabaseContext(connectionName, conv, server.value, storedOverrides);
      cache := cache[connectionName := context];
      r := Success(context);
    }

    /** The table list of a connection (see `DatabaseContext.GetDatabaseStructure`). */
    method GetDatabaseStructure(connectionName: string, storedOverrides: seq<CustomColumnInfo>)
      returns (r: Outcome<seq<TableInfo>>)
      requires Valid()
      modifies this, cache.Values
      ensures Valid()
      ensures FindServer(connections, connectionName).None? ==> r == Failure(ConnectionNotFound) && cache == old(cache)
      ensures FindServer(connections, connectionName).Some? ==>
        connectionName in cache && cache == old(cache)[connectionName := cache[connectionName]]
          && (connectionName in old(cache) ==> cache == old(cache))
          && (connectionName !in old(cache) ==> fresh(cache[connectionName]))
      ensures FindServer(connections, connectionName).Some? ==>
        connectionName in cache && r == Success(cache[connectionName].Tables())
    {
      var found := GetProcessor(connectionName, storedOverrides);
      if found.Failure? {
        return Failure(found.error);
      }
      var tables := StructureOn(connectionName);
      r := Success(tables);
    }

    /** `GetDatabaseStructure` once the context of the connection is cached. */
    method StructureOn(connectionName: string) returns (tables: seq<TableInfo>)
      requires Valid() && connectionName in cache
      modifies cache[connectionName]
      ensures Valid() && connectionName in cache
      ensures cache == old(cache)
      ensures tables == cache[connectionName].Tables()
    {
      var processor := cache[connectionName];
      tables := processor.GetDatabaseStructure();
      assert Serves(connectionName, processor);
      forall name | name in cache
        ensures Serves(name, cache[name])
      {
        if cache[name] != processor {
          assert old(Serves(name, cache[name]));
        }
      }
    }

    /** A table of a connection, or "Table not found" (see `DatabaseContext.GetTableInfo`). */
    method GetTableInfo(connectionName: string, schema: string, table: string, storedOverrides: seq<CustomColumnInfo>)
      returns (r: Outcome<TableInfo>)
      requires Valid()
      modifies this, cache.Values
      ensures Valid()
      ensures FindServer(connections, connectionName).None? ==> r == Failure(ConnectionNotFound) && cache == old(cache)
      ensures FindServer(connections, connectionName).Some? ==>
        connectionName in cache && cache == old(cache)[connectionName := cache[connectionName]]
          && (connectionName in old(cache) ==> cache == old(cache))
          && (connectionName !in old(cache) ==> fresh(cache[connectionName]))
      ensures FindServer(connections, connectionName).Some? ==>
        connectionName in cache && r == Structure.GetTableInfo(cache[connectionName].Tables(), schema, table)
    {
      var found := GetProcessor(connectionName, storedOverrides);
      if found.Failure? {
        return Failure(found.error);
      }
      r := TableInfoOn(connectionName, schema, table);
    }

    /** `GetTableInfo` once the context of the connection is cached. */
    method TableInfoOn(connectionName: string, schema: string, table: string) returns (r: Outcome<TableInfo>)
      requires Valid() && connectionName in cache
      modifies cache[connectionName]
      ensures Valid() && connectionName in cache
      ensures cache == old(cache)
      ensures r == Structure.GetTableInfo(cache[connectionName].Tables(), schema, table)
    {
      var processor := cache[connectionName];
      r := processor.GetTableInfo(schema, table);
      assert Serves(connectionName, processor);
      forall name | name in cache
        ensures Serves(name, cache[name])
      {
        if cache[name] != processor {
          assert old(Serves(name, cache[name]));
        }
      }
    }

    /** A stored row of a connection (see `DatabaseContext.GetRecord`). */
    method GetRecord(connectionName: string, schema: string, table: string, recordId: string,
                     storedOverrides: seq<CustomColumnInfo>) returns (r: Outcome<Option<Row>>)
      requires Valid()
      modifies this, cache.Values
      ensures Valid()
      ensures FindServer(connections, connectionName).None? ==> r == Failure(ConnectionNotFound) && cache == old(cache)
      ensures FindServer(connections, connectionName).Some? ==>
        connectionName in cache && cache == old(cache)[connectionName := cache[connectionName]]
          && (connectionName in old(cache) ==> cache == old(cache))
          && (connectionName !in old(cache) ==> fresh(cache[connectionName]))
      ensures FindServer(connections, connectionName).Some? ==>
        connectionName in cache
          && r == ReadRecord(cache[connectionName].Reader(), cache[connectionName].Tables(), schema, table, Some(recordId))
    {
      var found := GetProcessor(connectionName, storedOverrides);
      if found.Failure? {
        return Failure(found.error);
      }
      r := RecordOn(connectionName, schema, table, recordId);
    }

    /** `GetRecord` once the context of the connection is cached. */
    method RecordOn(connectionName: string, schema: string, table: string, recordId: string)
      returns (r: Outcome<Option<Row>>)
      requires Valid() && connectionName in cache
      modifies cache[connectionName]
      ensures Valid() && connectionName in cache
      ensures cache == old(cache)
      ensures r == ReadRecord(cache[connectionName].Reader(), cache[connectionName].Tables(), schema, table, Some(recordId))
    {
      var processor := cache[connectionName];
      r := processor.GetRecord(schema, table, recordId);
      assert Serves(connectionName, processor);
      forall name | name in cache
        ensures Serves(name, cache[name])
      {
        if cache[name] != processor {
          assert old(Serves(name, cache[name]));
        }
      }
    }

    /** After the overrides of a connection change, its context is dropped and rebuilt on next use. */
    method DefineColumnConfig(connectionName: string)
      requires Valid()
      modifies this
      ensures Valid()
      ensures cache == old(cache) - {connectionName}
    {
      cache := cache - {connectionName};
    }

    /**
     * After a connection is (re)defined, its context is dropped; the list of connections
     * the service looks names up in stays as it was.
     */
    method DefineConnection(connectionName: string)
      requires Valid()
      modifies this
      ensures Valid()
      ensures cache == old(cache) - {connectionName}
    {
      cache := cache - {connectionName};
    }

    /** The scripts of a record tree on a connection (see `MergeScripts`). */
    method GetMergeSql(connectionName: string, record: ItemData, storedOverrides: seq<CustomColumnInfo>, fuel: nat,
                       differ: (string, string) -> seq<DiffLine>) returns (r: Outcome<Scripts>)
      requires Valid()
      modifies this, cache.Values
      ensures Valid()
      ensures FindServer(connections, connectionName).None? ==> r == Failure(ConnectionNotFound) && cache == old(cache)
      ensures FindServer(connections, connectionName).Some? ==>
        connectionName in cache && cache == old(cache)[connectionName := cache[connectionName]]
          && (connectionName in old(cache) ==> cache == old(cache))
          && (connectionName !in old(cache) ==> fresh(cache[connectionName]))
      ensures FindServer(connections, connectionName).Some? ==>
        connectionName in cache
          && r == MergeScripts(MergeOf(conv, cache[connectionName].Tables()), cache[connectionName].Reader(),
                               cache[connectionName].Tables(), record, fuel, differ)
    {
      var found := GetProcessor(connectionName, storedOverrides);
      if found.Failure? {
        return Failure(found.error);
      }
      r := ScriptsOn(connectionName, record, fuel, differ);
    }

    /** `GetMergeSql` once the context of the connection is cached. */
    method ScriptsOn(connectionName: string, record: ItemData, fuel: nat, differ: (string, string) -> seq<DiffLine>)
      returns (r: Outcome<Scripts>)
      requires Valid() && connectionName in cache
      modifies cache[connectionName]
      ensures Valid() && connectionName in cache
      ensures cache == old(cache)
      ensures r == MergeScripts(MergeOf(conv, cache[connectionName].Tables()), cache[connectionName].Reader(),
                                cache[connectionName].Tables(), record, fuel, differ)
    {
      var processor := cache[connectionName];
      r := LoadScripts(processor, record, fuel, differ);
      assert Serves(connectionName, processor);
      forall name | name in cache
        ensures Serves(name, cache[name])
      {
        if cache[name] != processor {
          assert old(Serves(name, cache[name]));
        }
      }
    }
  }
}
