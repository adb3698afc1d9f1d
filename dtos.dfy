/**
 * The data carried between the layers: column and table descriptions read from
 * the database catalog, per-column overrides kept in the configuration store, and
 * the tree of records being edited.
 */
module Dtos {
  import opened Wrappers
  import opened Seqs

  /** The value kinds a column can hold. */
  datatype DataType =
    | Undefined | String | Char | Integer | Decimal | Float | Boolean
    | DateTime | DateTimeOffset | TimeOnly | Binary | Json | Xml | Guid

  /** One column of one table, as the catalog query returns it and as the enrichment updates it. */
  datatype ColumnInfo = ColumnInfo(
    tableId: int,
    schema: string,
    table: string,
    columnId: int,
    columnName: string,
    dataType: DataType,
    dbType: Option<string>,
    defaultValue: string,
    isNullable: bool,
    isIdentity: bool,
    isPK: bool,
    isFK: bool,
    isUK: bool,
    isExtension: bool,
    isCustom: bool,
    schemaFK: string,
    tableFK: string)

  /** A table with the column lists that the SQL builders work from. */
  datatype TableInfo = TableInfo(
    schema: string,
    table: string,
    isExtension: bool,
    identityColumn: Option<string>,
    identifierColumns: seq<string>,
    updateableColumns: seq<string>,
    insertableColumns: seq<string>,
    columns: seq<ColumnInfo>)

  /** A user-defined override of a column's catalog attributes; every field may be absent. */
  datatype CustomColumnInfo = CustomColumnInfo(
    connectionName: Option<string>,
    schema: Option<string>,
    table: Option<string>,
    columnName: Option<string>,
    dataType: Option<string>,
    dbType: Option<string>,
    defaultValue: Option<string>,
    isNullable: Option<bool>,
    isIdentity: Option<bool>,
    isPK: Option<bool>,
    isFK: Option<bool>,
    isUK: Option<bool>,
    isExtension: Option<bool>,
    schemaFK: Option<string>,
    tableFK: Option<string>)

  /** A row of a table as a map from column name to a possibly null value. */
  type Row = map<string, Option<string>>

  /** `row.GetValueOrDefault(key)`: a missing key reads as null. */
  function RowValue(row: Row, key: string): (r: Option<string>)
    ensures key !in row ==> r.None?
    ensures key in row ==> r == row[key]
  {
    if key in row then row[key] else None
  }

  /**
   * A record being edited, with the records its foreign keys point to. `isEdition`
   * is false for records that only show what is stored and must not be written.
   */
  datatype ItemData = ItemData(
    isEdition: bool,
    schema: string,
    table: string,
    parentColumn: Option<string>,
    columns: Row,
    dependencies: seq<ItemData>)
  {
    /**
     * Whether a dependency hangs from `fkColumn` and carries `identityValue` under
     * `identityColumn` (a missing key and a null value read alike).
     */
    static predicate DependencyMatches(d: ItemData, fkColumn: string, identityColumn: string, identityValue: Option<string>) {
      d.parentColumn == Some(fkColumn) && RowValue(d.columns, identityColumn) == identityValue
    }

    /** The first dependency hanging from `fkColumn` with the given identity value, if any. */
    function GetDependency(fkColumn: string, identityColumn: string, identityValue: Option<string>): (r: Option<ItemData>)
      ensures r.None? <==> forall i :: 0 <= i < |dependencies| ==> !DependencyMatches(dependencies[i], fkColumn, identityColumn, identityValue)
      ensures r.Some? ==>
        exists i :: 0 <= i < |dependencies| && r.value == dependencies[i]
          && DependencyMatches(dependencies[i], fkColumn, identityColumn, identityValue)
          && (forall j :: 0 <= j < i ==> !DependencyMatches(dependencies[j], fkColumn, identityColumn, identityValue))
    {
      match FindFirst(d => DependencyMatches(d, fkColumn, identityColumn, identityValue), dependencies)
      case None => None
      case Some(i) => Some(dependencies[i])
    }
  }

  /** The exceptions the core throws, and the one it cannot: running out of stack. */
  datatype Error =
    | TableNotFound
    | IdentityColumnNotFound
    | InvalidRecordId
    | ConnectionNotFound
    | ConversionFailed(dataType: DataType, value: string)
    | RecursionLimit
  {
    function Message(): string {
      match this
      case TableNotFound => "Table not found"
      case IdentityColumnNotFound => "Identity column not found"
      case InvalidRecordId => "Invalid recordId"
      case ConnectionNotFound => "Connection not found"
      case ConversionFailed(_, _) => "Input string was not in a correct format."
      case RecursionLimit => "Stack overflow."
    }
  }

  type Outcome<T> = Result<T, Error>
}
