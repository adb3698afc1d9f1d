# db-studio core, modelled in Dafny

db-studio is an administration tool for SQL Server databases. For every connection it reads
the column catalog and enriches it:

- it classifies identity, extension, key and time-stamp columns;
- it applies user overrides of column attributes;
- it derives for every table the columns that identify a row, can be inserted and can be updated.

A record that is being edited arrives from the browser as a tree: the record and the records
its foreign keys point to. The server completes that tree from the database, once as stored
and once as edited. It turns each tree into SQL Server `MERGE` statements, dependencies first.
It returns both scripts and a line diff between them.

In the browser, a handful of helpers feed the record editor:

- the boolean codec of checkbox values;
- the one-line rendering of a foreign-key value;
- the tree of records the editor fills in;
- the input kind and the validation rules of each column's form field.

The model has one module per component:

- `Utils`: the column classification and SQL literals of `App/Services/Utils.cs`.
- `Mssql`: the SQL dialect of `App/Database/MssqlDatabase.cs`.
- `Dtos`: the records of `App/Dtos`.
- `Structure`: catalog enrichment and table grouping.
- `Resolver`: the record tree walk and MERGE script assembly.
- `Context`: the per-connection object. `Structure`, `Resolver` and `Context` together model `App/Services/DatabaseContextinstance.cs`.
- `Service`: the connection cache and script diff of `App/Services/DatabaseService.cs`.
- `Helper`, `FkValue`, `RecordStore` and `FormField`: the four UI files.
- Supporting modules:
  - `Wrappers`: Option and Result.
  - `Seqs`: filters, maps, joins.
  - `Text`: ASCII case folding, .NET white space, `Trim`, replace, split.
  - `Utf8`: section 3 of RFC 3629, plus hexadecimal.
  - `Sorting`: a stable sort by a string key.

The code is modelled in its own form:

- Pure code becomes functions and lemmas.
- In-place updates become methods:
  - the enrichment loop over the column list;
  - the lazily loaded table list of a context;
  - the context cache of the service;
  - the record store of the editor.
- Every method is proved against the function that specifies it.

Three details of the code that the model keeps as written:

- `Utils.IsExtension` compares a primary key's name with its own table's identity names, not with the referenced table's.
- `Utils.FilterIdentifierColumns` falls back in three steps:
  1. key candidates;
  2. then unique keys;
  3. then identity or extension columns.
- `Utils.IsEntity` asks for exactly three columns named Code, Name or Description. It does not ask for set equality.

## Model

| member | source | states |
|---|---|---|
| Utils.IsEntity | App/Services/Utils.cs:15-20 | an entity table is one with an identity column and exactly three columns named Code, Name or Description in any case, both directions |
| Utils.EntityColumnByName | App/Services/Utils.cs:17-19 | a column counts toward an entity exactly when its name, lower-cased, is `code`, `name` or `description` |
| Utils.IsEntityByPositions | App/Services/Utils.cs:15-20 | an entity exactly when some column is an identity column and exactly three column positions carry an entity name, counted over the positions rather than the distinct names |
| Utils.EntityColumnCountsAgain | App/Services/Utils.cs:19 | a column with an entity name adds one to the count even when another column already has that name |
| Utils.EntityIgnoresOtherColumns | App/Services/Utils.cs:15-20 | adding a column that is neither an identity column nor named Code, Name or Description does not change the verdict |
| Utils.IdentityColumnNames | App/Services/Utils.cs:27-40 | seven candidate names, first `id`, holding all seven forms: `id`, `id<table>`, `<table>id`, `id_<table>`, `<table>_id`, `id_<snake_table>` and `<snake_table>_id` |
| Utils.IdentityColumnNameForms | App/Services/Utils.cs:27-40 | a column name is an identity name of the table exactly when, ignoring case, it is one of those seven forms (both directions) |
| Utils.IdentityByName | App/Services/Utils.cs:22-25 | a column is an identity exactly when the catalog flags it, or it is a primary key named in one of the seven identity forms of its table |
| Utils.IsExtension | App/Services/Utils.cs:55-60 | an extension column is always a foreign key |
| Utils.ToSnakeCase | App/Services/Utils.cs:42-53 | empty text and text containing `_` are unchanged; otherwise the first character is kept, no later character is upper case, and nothing is lost in length |
| Utils.SnakeTailLength | App/Services/Utils.cs:50 | each upper-case letter after the first position adds exactly one character |
| Utils.SnakeTailLower | App/Services/Utils.cs:50 | dropping the added underscores leaves the text in lower case |
| Utils.SnakeTailUnderscores | App/Services/Utils.cs:50 | every underscore is followed by a lower-case letter |
| Utils.SnakeCaseShape | App/Services/Utils.cs:42-53 | for a non-empty name without `_`: the first character is kept; the rest, with its underscores dropped, is the rest of the name in lower case; the length grows by the number of upper-case letters after the first position; and every underscore comes after the first position and before a lower-case letter |
| Utils.SnakeCaseRoundTrip | App/Services/Utils.cs:42-53 | for text without `_`, undoing the underscores gives the text back, so the conversion loses no letter |
| Utils.TimeColumnsSplit | App/Services/Utils.cs:88-105 | the time-stamp names excluded from parameters are exactly the update-time and creation-time names |
| Utils.UpdateTimeByName | App/Services/Utils.cs:95-99 | an update-time column is exactly one named `UpdDateTime` or `UpdatedAt` in any case |
| Utils.CreationTimeByName | App/Services/Utils.cs:101-105 | a creation-time column is exactly one named `InsDateTime` or `CreatedAt` in any case |
| Utils.TimeKindsExclusive | App/Services/Utils.cs:95-105 | no column is both an update-time and a creation-time column |
| Utils.ParameterColumns | App/Services/Utils.cs:88-93 | a caller supplies a column exactly when it is no identity (or an extension) and no update or creation time; a catalog identity that is no foreign key is never supplied; a column that is neither key nor identity is supplied exactly when it is no time stamp |
| Utils.FilterIdentifierColumns | App/Services/Utils.cs:62-71 | an order-preserving subsequence: the supplied non-identity primary and unique keys, else the unique keys, else the identity and extension columns |
| Utils.GetIdentifierColumns | App/Services/Utils.cs:73-76 | exactly the table's columns named among its identifier columns, in column order |
| Utils.FilterInsertableColumns | App/Services/Utils.cs:78-81 | exactly the non-identity columns, in order |
| Utils.FilterUpdateableColumns | App/Services/Utils.cs:83-86 | exactly the insertable columns that are neither extensions nor creation times, in order |
| Utils.ParamValueToString | App/Services/Utils.cs:118-165 | null becomes `NULL`; only integer, decimal and float values can fail to convert; a boolean becomes `1` exactly for `1` or `true` in any case, otherwise `0` |
| Utils.GetValueSql | App/Services/Utils.cs:107-116 | time-stamp columns get `sysdatetimeoffset()`; a parenthesised value passes through; any other value (or null) is the literal conversion for the column's type; every failure is that conversion's |
| Utils.BinaryRoundTrip | App/Services/Utils.cs:143-145 | a binary literal is `0x` plus two hex digits per UTF-8 byte and decodes back to the value |
| Utils.QuotedLiteralRoundTrip | App/Services/Utils.cs:155-158 | string, JSON and XML literals are quoted with inner quotes doubled, and unquote back to the value |
| Utils.UnescapedLiteral | App/Services/Utils.cs:160-163 | for GUID, char and unknown types every value `v` becomes `'v'`, unescaped, so a lone quote yields an unbalanced literal |
| Utils.UndoubleDouble | App/Services/Utils.cs:158 | doubling quotes is undone by collapsing them |
| Utils.TypeOfName | App/Services/Utils.cs:174-214 | no database type maps to Json, Xml or Guid; exactly the names outside the table are Undefined |
| Utils.GetType | App/Services/Utils.cs:167-215 | a missing type is Undefined; no type maps to Json, Xml or Guid |
| Utils.GetTypePlain | App/Services/Utils.cs:172-174 | a plain type name is looked up unchanged |
| Utils.GetTypeBracketed | App/Services/Utils.cs:172-174 | `[name]` is the same type as `name` |
| Utils.GetTypeCommon | App/Services/Utils.cs:172-174 | `Common.name` is the same type as `name` |
| Utils.GetTypeCommonBracketed | App/Services/Utils.cs:172-174 | `[Common].[name]` is the same type as `name` |
| Utils.GetTypePadded | App/Services/Utils.cs:172-174 | white space around a plain name does not change its type |
| Utf8.DecodeEncode | App/Services/Utils.cs:144 | UTF-8 decoding undoes the encoding of any text |
| Utf8.UnhexHex | App/Services/Utils.cs:145 | hexadecimal decoding undoes the encoding of any byte string |
| Utf8.HexAt | App/Services/Utils.cs:145 | byte i becomes hex digits 2i and 2i+1, high nibble first |
| Text.Trim | App/Services/Utils.cs:172 | the result is the middle slice of the input, with no white space at either end; it is empty exactly when the input is all white space |
| Text.TrimDropsWhiteSpace | App/Services/Utils.cs:172 | what `Trim` drops before and after the slice it keeps is white space only |
| Text.TrimIdempotent | App/Services/DatabaseService.cs:79 | trimming twice is trimming once |
| Mssql.Bracket | App/Database/MssqlDatabase.cs:16-17 | the name between `[` and `]` |
| Mssql.InsertItems | App/Database/MssqlDatabase.cs:170 | one bracketed column per insertable column, in order |
| Mssql.ValueItems | App/Database/MssqlDatabase.cs:171 | position by position, the insert column taken from the source `S` |
| Mssql.OnClauseMatchesIdentifiers | App/Database/MssqlDatabase.cs:168 | the ON clause opens with `ON ` and pairs `T.[c] = S.[c]` for every identifier column; it is bare `ON ` without any |
| Mssql.UpdateClauseSetsUpdateable | App/Database/MssqlDatabase.cs:169 | the UPDATE branch sets `T.[c] = S.[c]` for every updateable column; it is bare without any |
| Mssql.MergeSqlCoversColumns | App/Database/MssqlDatabase.cs:159-174 | the statement matches on every identifier column, updates every updateable column, inserts every insertable column from `S`, and selects every assignment |
| Mssql.SelectLines | App/Database/MssqlDatabase.cs:166 | one indented line per assignment, or one blank indented line when there is none |
| Mssql.MergeSqlIsLines | App/Database/MssqlDatabase.cs:159-174 | the statement is header, `USING (SELECT`, the assignments, `) AS S `, ON, UPDATE, INSERT, VALUES and `;`, joined by line feeds |
| Mssql.MergeSqlLines | App/Database/MssqlDatabase.cs:159-174 | with single-line names, splitting the statement at line feeds gives back exactly those lines |
| Mssql.MergeHasOneClauseEach | App/Database/MssqlDatabase.cs:163-173 | the statement has exactly one WHEN MATCHED line and exactly one WHEN NOT MATCHED line |
| Mssql.ComparisonOperator | App/Database/MssqlDatabase.cs:183 | `IS` exactly for a condition against NULL, else `=` |
| Mssql.GetAssignationValueSql | App/Database/MssqlDatabase.cs:176-185 | succeeds exactly when the value converts, giving prefix, bracketed column, operator and value |
| Mssql.AssignNull | App/Database/MssqlDatabase.cs:182-184 | a missing value is `[c] IS NULL` in a condition and `[c] = NULL` otherwise |
| Mssql.AssignValue | App/Database/MssqlDatabase.cs:182-184 | a value that passes through gives `[c] = value` |
| Mssql.CompareValue | App/Database/MssqlDatabase.cs:182-184 | a non-null value that passes through is compared with `=` in a condition too |
| Mssql.SelectIdentity | App/Database/MssqlDatabase.cs:187-194 | exactly the text `SELECT <identity> FROM [schema].[table] WHERE <c1 AND c2 ...>`: it starts with the select, ends with the table and the AND of the conditions, and has no other character |
| Mssql.WithIdAlias | App/Database/MssqlDatabase.cs:136 | the identity value is repeated under `__id` unless the column already is `__id`; every other value is kept |
| Mssql.GetRecord | App/Database/MssqlDatabase.cs:128-149 | fails with IdentityColumnNotFound exactly when the table has no identity column; with one, it succeeds exactly when the identity value converts to that column's type, and otherwise fails with the conversion's own error; on success it reads the row whose first identity column equals the converted value, and returns it with the `__id` alias |
| Dtos.RowValue | App/Dtos/ItemDataDto.cs:18 | a missing key reads as null |
| Dtos.ItemData.GetDependency | App/Dtos/ItemDataDto.cs:11-21 | the first dependency hanging from the column whose identity value matches, null-matches-null; none exactly when no dependency matches |
| Structure.Classify | App/Services/DatabaseContextinstance.cs:47-53 | the identity flag becomes `IsIdentity`, the type becomes the mapped type, and nothing else changes |
| Structure.FindOverride | App/Services/DatabaseContextinstance.cs:55 | the first override naming the column's schema, table and name; none exactly when none does |
| Structure.ApplyOverride | App/Services/DatabaseContextinstance.cs:56-69 | each attribute the override sets replaces the column's own, the others are kept, and the column is marked custom |
| Structure.EnrichColumn | App/Services/DatabaseContextinstance.cs:47-70 | classification, then the first matching override if any; identity of the column unchanged |
| Structure.Enriched | App/Services/DatabaseContextinstance.cs:47-70 | every column enriched, position by position |
| Structure.EnrichColumns | App/Services/DatabaseContextinstance.cs:47-70 | the in-place loop leaves the enriched list in the array |
| Structure.UpdateEach | App/Services/DatabaseContextinstance.cs:47 | the loop applies the update to every element in place |
| Structure.TableIds | App/Services/DatabaseContextinstance.cs:72 | the distinct table ids, each id of the catalog and no other |
| Structure.TableColumns | App/Services/DatabaseContextinstance.cs:72-74 | the columns of one table in catalog order, non-empty for an id of the catalog |
| Structure.FirstIdentityName | App/Services/DatabaseContextinstance.cs:82 | the name of the first identity column; none exactly when there is none |
| Structure.BuildTable | App/Services/DatabaseContextinstance.cs:76-86 | schema and table come from the first column, and the table keeps its columns; it is an extension exactly when one of its columns is; its identity column is the name of the first identity column; its identifier, updateable and insertable lists are the names of the filtered columns, in column order |
| Structure.BuiltInsertableNames | App/Services/DatabaseContextinstance.cs:84 | the insertable names are exactly the names of the non-identity columns |
| Structure.BuiltUpdateableNames | App/Services/DatabaseContextinstance.cs:83-84 | every updateable name is also insertable |
| Structure.BuiltIdentifierNames | App/Services/DatabaseContextinstance.cs:82 | every identifier name is the name of one of the table's columns |
| Structure.BuildTablesAt | App/Services/DatabaseContextinstance.cs:72-88 | table i is built from the columns of the i-th table id |
| Structure.BuildAll | App/Services/DatabaseContextinstance.cs:72-88 | the building loop yields the grouped tables |
| Structure.BuiltTablesGrouped | App/Services/DatabaseContextinstance.cs:72-88 | every built table holds exactly the columns of one table id, and is the table `BuildTable` makes of them |
| Structure.BuiltTablesCover | App/Services/DatabaseContextinstance.cs:72-88 | every catalog column lands in some table |
| Structure.SortTables | App/Services/DatabaseContextinstance.cs:90 | the sort is a permutation |
| Structure.SortTablesOrder | App/Services/DatabaseContextinstance.cs:90 | ordered by schema, by table within a schema, and stable for equal keys |
| Structure.LoadStructure | App/Services/DatabaseContextinstance.cs:41-91 | one table per distinct table id |
| Structure.LoadStructureGroups | App/Services/DatabaseContextinstance.cs:41-91 | every loaded table is one table id's enriched columns and the table `BuildTable` makes of them, so its derived fields are those of `BuildTable`; every enriched column is in a loaded table |
| Structure.LoadDatabaseStructure | App/Services/DatabaseContextinstance.cs:41-91 | enriches the column array in place and returns the loaded structure of the original catalog |
| Structure.GetTableInfo | App/Services/DatabaseContextinstance.cs:30-34 | the first table with that schema and name; fails exactly when there is none |
| Sorting.SortBySorted | App/Services/DatabaseContextinstance.cs:90 | the result of the key sort is ordered by the key |
| Sorting.SortByStable | App/Services/DatabaseContextinstance.cs:90 | elements with equal keys keep their relative order |
| Resolver.FkDependency | App/Services/DatabaseContextinstance.cs:100 | no dependency exactly when the column is not a foreign key, has no value, or no dependency hangs from it with that value as `__id`; otherwise the first such dependency |
| Resolver.ColumnValueCases | App/Services/DatabaseContextinstance.cs:98-101 | without a dependency the column's own value (null when missing); with one, a `(SELECT ...)` sub-select that fails exactly when the dependency's identity select does, with its error |
| Resolver.AssignationValue | App/Services/DatabaseContextinstance.cs:96-104 | an assignment starts with the prefix and the bracketed column |
| Resolver.AssignationValuesInOrder | App/Services/DatabaseContextinstance.cs:93-105 | one assignment per column in column order, else the first column's failure |
| Resolver.PlainValuePassedOn | App/Services/DatabaseContextinstance.cs:100-103 | without a dependency the column's own value is assigned |
| Resolver.FkValueIsSubSelect | App/Services/DatabaseContextinstance.cs:100-103 | with a dependency, the column is assigned the parenthesised identity sub-select |
| Resolver.FkConditionIsSubSelect | App/Services/DatabaseContextinstance.cs:100-103 | in a condition too, such a foreign key is compared with `=` to the parenthesised sub-select |
| Resolver.SubSelectPassesThrough | App/Services/Utils.cs:107-116 | a parenthesised sub-select is passed through unconverted |
| Resolver.SelectIdentity | App/Services/DatabaseContextinstance.cs:107-116 | fails for an unknown table, and with the first failing condition; otherwise exactly `Mssql.SelectIdentity` of the table over the condition assignments of its identifier columns |
| Resolver.MergeSqlFor | App/Services/DatabaseContextinstance.cs:269-271 | fails for an unknown table, and with the first failing assignment; otherwise exactly `Mssql.GetMergeSql` of the table over one assignment per column, the i-th being the assignment of the i-th column |
| Resolver.MergeStatements | App/Services/DatabaseContextinstance.cs:262-274 | nothing for a record not being edited; otherwise the record's own statement comes last |
| Resolver.EditedNodes | App/Services/DatabaseContextinstance.cs:264-267 | the edited records, in post order, ending with the root when edited |
| Resolver.MergeStatementsPostOrder | App/Services/DatabaseContextinstance.cs:262-274 | the statements are exactly one per edited record, in post order, and succeed exactly when every one does |
| Resolver.DependencyStatementsPostOrder | App/Services/DatabaseContextinstance.cs:267 | the same, for the dependencies of one record |
| Resolver.ReadRecord | App/Services/DatabaseContextinstance.cs:286-294 | an unknown table and a blank or missing id are errors; only a non-blank id is read |
| Resolver.ReadRecordFound | App/Services/DatabaseContextinstance.cs:293 | with a known table and a non-blank id, the row is what the database returns |
| Resolver.FkColumns | App/Services/DatabaseContextinstance.cs:176 | exactly the table's foreign-key columns |
| Resolver.DependencyFor | App/Services/DatabaseContextinstance.cs:181-186 | the dependency hangs from the column |
| Resolver.DependencyForChoice | App/Services/DatabaseContextinstance.cs:181-186 | the first supplied dependency of the column, else an empty non-edited record of the referenced table |
| Resolver.LoadDependencies | App/Services/DatabaseContextinstance.cs:156-209 | a completed record keeps its edition flag, schema, table and parent column |
| Resolver.LoadRecord | App/Services/DatabaseContextinstance.cs:171-208 | the same, once the table is known |
| Resolver.FkDependencies | App/Services/DatabaseContextinstance.cs:175-200 | at most two dependencies per foreign key, each hanging from one of them |
| Resolver.ColumnDependencies | App/Services/DatabaseContextinstance.cs:178-199 | at most two dependencies, both hanging from the column, the second one as stored |
| Resolver.Branches | App/Services/DatabaseContextinstance.cs:188-199 | the edited and the stored branch, the stored one never edited |
| Resolver.ColumnBranchRule | App/Services/DatabaseContextinstance.cs:188-199 | the edited branch is walked with the edited value and the caller's choice of data and comes first when it gives a record; a stored branch follows exactly when the stored value is set, differs from the edited one and its walk over stored data gives a record; it is that record marked not edited, also when it is the only branch |
| Resolver.FkDependenciesSucceed | App/Services/DatabaseContextinstance.cs:175-200 | the dependencies of the foreign keys succeed exactly when those of every foreign key do |
| Resolver.FkDependenciesConcat | App/Services/DatabaseContextinstance.cs:175-200 | they are then the branches of the foreign keys concatenated in column order |
| Resolver.LoadRecordDependencies | App/Services/DatabaseContextinstance.cs:171-206 | a completed record's dependencies are the branches of its table's foreign keys, column by column, each against the stored row |
| Resolver.LoadDependenciesNullCases | App/Services/DatabaseContextinstance.cs:160-173 | no id and no identity, no identity value, or no stored row when stored data is wanted: null |
| Resolver.StartId | App/Services/DatabaseContextinstance.cs:160-169 | the given id wins; without one there is an id exactly when the table has an identity column and the record holds a value for it, and then it is that value |
| Resolver.LoadedColumns | App/Services/DatabaseContextinstance.cs:171-206 | the columns are the stored row when stored data is wanted or none was sent, else the sent ones |
| Resolver.LoadedDependenciesHang | App/Services/DatabaseContextinstance.cs:176-205 | every loaded dependency hangs from a foreign-key column of the table |
| Resolver.LoadDependenciesFuel | App/Services/DatabaseContextinstance.cs:156-209 | more recursion depth never changes a result that did not hit the limit |
| Context.DatabaseContext.constructor | App/Services/DatabaseContextinstance.cs:21-28 | a new context has not loaded its structure yet |
| Context.DatabaseContext.GetDatabaseStructure | App/Services/DatabaseContextinstance.cs:36-39 | the structure is loaded once and kept |
| Context.DatabaseContext.GetTableInfo | App/Services/DatabaseContextinstance.cs:30-34 | the table of the loaded structure with that schema and name; Table not found exactly when none |
| Context.DatabaseContext.GetRecord | App/Services/DatabaseContextinstance.cs:286-294 | Table not found, Invalid recordId, or the row read by id |
| Context.DatabaseContext.LoadMergeSql | App/Services/DatabaseContextinstance.cs:262-274 | appends the tree's statements in post order to the list, or fails with the first error |
| Context.DatabaseContext.LoadDependencies | App/Services/DatabaseContextinstance.cs:156-209 | the walk over the loaded structure computes the completed tree |
| Context.CollectMergeSql | App/Services/DatabaseContextinstance.cs:262-274 | the recursive walk appends exactly the post-order statements |
| Context.CollectDependenciesMergeSql | App/Services/DatabaseContextinstance.cs:267 | the loop over dependencies appends their statements in order |
| Context.WalkRecord | App/Services/DatabaseContextinstance.cs:156-209 | the recursive method computes the completed tree |
| Context.WalkFkColumns | App/Services/DatabaseContextinstance.cs:176-200 | the loop over foreign keys collects their dependencies in order |
| Context.WalkColumn | App/Services/DatabaseContextinstance.cs:178-199 | the dependencies of one foreign key |
| Service.FindServer | App/Services/DatabaseService.cs:39-40 | the first connection of that name; none exactly when no connection has it |
| Service.Normalize | App/Services/DatabaseService.cs:95-106 | the diff line as its tag tells it: the text is kept, and only insertions and deletions keep their kind |
| Service.ParseTaggedLine | App/Services/DatabaseService.cs:97-105 | a tagged line parses back to its normalised line |
| Service.FormatDiffRoundTrip | App/Services/DatabaseService.cs:87-109 | the diff text has one tagged line per diff line, each parsing back, then an empty remainder |
| Service.GenerateDiff | App/Services/DatabaseService.cs:87-109 | the building loop produces the diff text |
| Service.DiffOnlyWhenDifferent | App/Services/DatabaseService.cs:75-82 | the scripts are the statements joined by the separator; equal after trimming gives an empty diff, otherwise the diff is the tagged diff of the two scripts |
| Service.DiffEmptyExactlyWhenAlike | App/Services/DatabaseService.cs:75-109 | when the differ gives at least one line for two different texts, the diff is empty exactly when the scripts are equal after trimming |
| Service.MergeScriptsErrorOrder | App/Services/DatabaseService.cs:62-84 | the scripts exist exactly when both the stored and the edited statements do; the stored side's error wins; on success the scripts are built from both lists |
| Service.NothingStored | App/Services/DatabaseService.cs:64-74 | with nothing stored, the original script is empty and the new one is the tree's own statements |
| Service.NewScriptPostOrder | App/Services/DatabaseService.cs:71-76 | the new script is the completed tree's statements in post order |
| Service.LoadOriginalSql | App/Services/DatabaseService.cs:64-70 | the stored tree's statements |
| Service.LoadNewSql | App/Services/DatabaseService.cs:71-74 | the edited tree's statements |
| Service.LoadScripts | App/Services/DatabaseService.cs:62-84 | both scripts and their diff |
| Service.DatabaseService.constructor | App/Services/DatabaseService.cs:24-34 | the connections are fixed and the cache is empty |
| Service.DatabaseService.GetProcessor | App/Services/DatabaseService.cs:36-43 | Connection not found for an unknown name; else the cached context, or a new one that is cached |
| Service.DatabaseService.GetDatabaseStructure | App/Services/DatabaseService.cs:53-56 | the structure of the connection's context; the connection's context is cached: an existing entry is kept, a missing one is added as a new context, and no other entry changes |
| Service.DatabaseService.GetTableInfo | App/Services/DatabaseService.cs:45-51 | the table looked up in the connection's structure; the connection's context is cached: an existing entry is kept, a missing one is added as a new context, and no other entry changes |
| Service.DatabaseService.GetRecord | App/Services/DatabaseService.cs:121-128 | the row read through the connection's context; the connection's context is cached: an existing entry is kept, a missing one is added as a new context, and no other entry changes |
| Service.DatabaseService.DefineColumnConfig | App/Services/DatabaseService.cs:130-136 | evicts the connection's context and nothing else |
| Service.DatabaseService.DefineConnection | App/Services/DatabaseService.cs:138-142 | evicts the connection's context and nothing else |
| Service.DatabaseService.GetMergeSql | App/Services/DatabaseService.cs:58-85 | the scripts of the record tree through the connection's context; the connection's context is cached: an existing entry is kept, a missing one is added as a new context, and no other entry changes |
| Helper.BoolToString | ui/src/core/helper/Helper.ts:27-30 | `1` exactly for true, `0` exactly for false, null exactly for null |
| Helper.ToBooleanNull | ui/src/core/helper/Helper.ts:20-21 | only null and undefined have no boolean |
| Helper.ToBooleanTrue | ui/src/core/helper/Helper.ts:22-24 | true exactly for values loosely equal to a true literal |
| Helper.ToBooleanMeaning | ui/src/core/helper/Helper.ts:19-25 | null for null and undefined, else whether the value means true |
| Helper.MatchesTrueLiteralPrimitive | ui/src/core/helper/Helper.ts:22-23 | loose equality with the five literals is the same as meaning true |
| Helper.StringOneIsOne | ui/src/core/helper/Helper.ts:22 | the text `1` converts to the number one |
| Helper.TrueTextIsNotNumber | ui/src/core/helper/Helper.ts:22-23 | `True` and `true` are not numbers |
| Helper.ZeroIsFalse | ui/src/core/helper/Helper.ts:22-24 | `0` reads as false |
| Helper.BoolToStringRoundTrip | ui/src/core/helper/Helper.ts:19-30 | reading back the written text gives the same boolean |
| Helper.BoolToStringIdempotent | ui/src/core/helper/Helper.ts:27-30 | writing twice is writing once |
| FkValue.Renderings | ui/src/components/define-record/FkValue.tsx:14 | each dependency rendered one level down with the deep separator |
| FkValue.RenderingIsDepthBounded | ui/src/components/define-record/FkValue.tsx:5-16 | nothing below the depth limit affects the rendering |
| FkValue.OwnValuesComeLast | ui/src/components/define-record/FkValue.tsx:11-15 | above the limit the record's own values come last, and a wrapped rendering opens with `table(` |
| FkValue.DepthLimitShowsIdentifier | ui/src/components/define-record/FkValue.tsx:6-10 | at the depth limit the text ends with the identifier, and is the bare identifier exactly when no table label is asked for |
| FkValue.FkValueTextClosedForm | ui/src/components/define-record/FkValue.tsx:35 | the shown text: referenced records as `table(...)`, theirs as `table:identifier`, then the own values |
| FkValue.FkValueTextEndsWithOwnValues | ui/src/components/define-record/FkValue.tsx:35 | the shown text is never wrapped: it ends with the record's own values, and a record that references nothing shows just those |
| RecordStore.FlatRecords | ui/src/components/define-record/State.ts:14-22 | empty exactly for no record, else starting with the record |
| RecordStore.FlatRecordsCountsNodes | ui/src/components/define-record/State.ts:14-22 | one entry per node of the tree |
| RecordStore.FlatPreOrder | ui/src/components/define-record/State.ts:17-21 | each dependency's subtree is a contiguous block after the node, in order |
| RecordStore.NewItem | ui/src/components/define-record/State.ts:49-55 | an empty record hanging from the parent table and column |
| RecordStore.FindParent | ui/src/components/define-record/State.ts:43 | the first node in pre-order of the parent table; none exactly when there is none |
| RecordStore.FindDependency | ui/src/components/define-record/State.ts:47 | a dependency of that column; none exactly when there is none |
| RecordStore.FindOrCreate | ui/src/components/define-record/State.ts:30-62 | the store ends without a record only when it had none and the parent table id is truthy; a returned dependency hangs from the requested column of a record in the store |
| RecordStore.RootCreatedOnlyWhenMissing | ui/src/components/define-record/State.ts:33-41 | a root is created exactly when there is none and the parent table id is falsy |
| RecordStore.NoParentGivesNull | ui/src/components/define-record/State.ts:42-61 | no node of the parent table: null, tree unchanged |
| RecordStore.ExistingDependencyReturned | ui/src/components/define-record/State.ts:46-59 | an existing dependency is returned and the tree is unchanged |
| RecordStore.MissingDependencyCreated | ui/src/components/define-record/State.ts:46-58 | a missing dependency is appended to the parent, one node longer, inserted after the parent's subtree in the listing |
| RecordStore.AppendAtListing | ui/src/components/define-record/State.ts:56 | appending a child puts it after the parent's subtree in pre-order |
| RecordStore.Store.constructor | ui/src/components/define-record/State.ts:26 | the store starts with the given record |
| RecordStore.Store.GetRootRecord | ui/src/components/define-record/State.ts:28 | the current root |
| RecordStore.Store.GetRecord | ui/src/components/define-record/State.ts:30-62 | the new root and the returned record are those of the find-or-create specification |
| FormField.InputTypeName | ui/src/components/define-record/RenderFormField.tsx:14-41 | `text` and `checkbox` name exactly their kinds |
| FormField.GetInputType | ui/src/components/define-record/RenderFormField.tsx:14-41 | for every kind, exactly which column types get it |
| FormField.NumericInputsAreConvertedTypes | ui/src/components/define-record/RenderFormField.tsx:16-21 | numeric inputs are shown for exactly the types whose server conversion can fail |
| FormField.CheckboxReachesServerAsBit | ui/src/components/define-record/RenderFormField.tsx:99-100 | a checkbox state becomes the bit literal of its truth value, or NULL |
| FormField.GetValidationRules | ui/src/components/define-record/RenderFormField.tsx:44-62 | none for identity columns; otherwise required exactly when not nullable, and the email pattern exactly when the name mentions email |
| FormField.EmailRuleIgnoresCase | ui/src/components/define-record/RenderFormField.tsx:54 | the email rule does not depend on letter case |
| FormField.EmailNamesGetPattern | ui/src/components/define-record/RenderFormField.tsx:54-59 | any name containing email in any case gets the pattern |
| FormField.RenderFormField | ui/src/components/define-record/RenderFormField.tsx:75-83 | hidden exactly for an identity column of a new record; otherwise the column's input, rules, marker and label |
| FormField.RequiredRuleMatchesMarker | ui/src/components/define-record/RenderFormField.tsx:75-83 | the required rule matches the required marker, except on identity columns |

## Left out

- Database I/O is not modelled:
  - the catalog query of `GetColumns` (App/Database/MssqlDatabase.cs:24-82);
  - the row query of `GetRecord`;
  - `ExecuteScript`.

  The catalog and the row lookup are inputs, as `Mssql.Server`.
- `GetTableRows`, in both the database and the service: paging is not modelled, because it is database I/O.
- `GetOriginalData` and `GetOriginalDataFull` of the context are not modelled. No operation of the service calls them; `LoadDependencies` replaces them.
- `GetConnections`: the configuration store (SQLite) is not part of this model. The connections and each context's column overrides are inputs.
- The line differ is an input: a function from the two scripts to diff lines.
- Service.DiffEmptyExactlyWhenAlike: the empty-diff direction needs the differ to give at least one line for two different texts. The inline diff builder, which lists every line of both texts, is a library and not part of this model, so the lemma takes this as its requirement.
- The line ending the diff builder appends is the line feed; the platform's `Environment.NewLine` may be a carriage return and line feed.
- Culture-dependent conversions (`Convert.To…`, `TryParse`, date formatting) are an input record of functions (`Utils.Conversions`).
- Concurrency of the context cache and of the lazy structure is not modelled; the cache is a map that methods update in turn.
- Resolver.LoadDependencies: the source recurses without a bound. The model has a `fuel` depth, and running out of it is the `RecursionLimit` error, which stands for the stack overflow. `Resolver.LoadDependenciesFuel` shows that more fuel changes nothing once the walk completes.
- Context.DatabaseContext.LoadMergeSql: it returns the extended list instead of appending to a list the caller shares, so aliasing of that list is not modelled.
- String ordering in `OrderBy` is ordinal; the runtime default is culture-aware.
- Case-insensitive comparisons fold ASCII letters only.
- Utils.ToSnakeCase: only ASCII upper-case letters get an underscore and are lowered. The source tests with Unicode `char.IsUpper` and lowers with `ToLowerInvariant` (App/Services/Utils.cs:50), so a non-ASCII upper-case letter is left as it is.
- The JavaScript helpers are modelled as follows:
  - numbers are exact reals, with no floating-point rounding;
  - `Symbol` values are not modelled;
  - objects are reduced to their primitive value.
- RecordStore.Store.GetRecord: object identity is not modelled. The record tree is a value, so the aliasing between the returned record and the tree is lost. `undefined` and `null` results are both `None`, and the initial record is an input of the constructor.
- RecordStore.Store.constructor: the editor's store starts at an empty object `{}` (ui/src/components/define-record/State.ts:26). That object is truthy and has no `dependencies`. The model has no such value: the root is either a record or absent. So the model does not capture two things. From that initial state, root creation (State.ts:33-41) is never reached. And `getRecord` with an undefined parent table takes `{}` as the parent and throws a TypeError on its missing `dependencies` (State.ts:47).
- `plainRepresentation` with a fractional depth is not modelled; depths are integers.
- The email rule's regular expression is carried as text; matching it is not modelled.
- The JSX markup of the form field and of `FkValue` is not modelled. `dataType ?? 'Undefined'` is not modelled either, because the column type is always present in the model.
