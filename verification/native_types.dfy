/** The type mapper and catalog translation: each catalog row describing a
    column (or a stored-procedure parameter) is turned into the driver's native
    parameter type, and a table's rows into a column-name -> column map. */
module NativeTypes {
  import opened Js
  import opened ObjMaps

  /** A numeric argument of a native type constructor: the driver's MAX sentinel
      for unbounded character and binary widths, the integer `parseInt` produced,
      or NaN when the catalog field was null. */
  datatype Arg = Max | Given(n: int) | NaN

  /** The driver's native parameter types, each with the width, precision or
      scale arguments its constructor takes. */
  datatype NativeType =
    | VarChar(length: Arg) | NVarChar(length: Arg) | Char(length: Arg) | NChar(length: Arg)
    | VarBinary(length: Arg)
    | BigInt | Int | SmallInt | TinyInt | Bit | Real | Float | Money | SmallMoney
    | Decimal(precision: Arg, scale: Arg) | Numeric(precision: Arg, scale: Arg)
    | Time(scale: Arg) | DateTimeOffset(scale: Arg)
    | UniqueIdentifier | Image | Text | NText | Xml | Udt | Geography | Geometry

  /** What the mapper returns: a native type, or the error text it returns (not
      throws) for a type name it does not know. */
  datatype MappedType = Native(native: NativeType) | Unrecognized(message: string)

  /** One catalog row: a column from INFORMATION_SCHEMA.COLUMNS joined with its
      constraint type, or a stored-procedure parameter from sys.parameters. Null
      catalog fields are `None`. */
  datatype CatalogRow = CatalogRow(
    tableName: string,
    columnName: string,
    dataType: string,
    charMaxLength: Option<int>,
    charOctetLength: Option<int>,
    numericPrecision: Option<int>,
    numericScale: Option<int>,
    constraintType: Option<string>,
    order: int)

  /** `parseInt` applied to a nullable catalog number. */
  function ParseIntArg(field: Option<int>): Arg {
    match field
    case Some(n) => Given(n)
    case None => NaN
  }

  /** A width argument honouring the -1 "unbounded" marker of the catalog. */
  function WidthArg(row: CatalogRow, field: Option<int>): Arg {
    if row.charMaxLength == Some(-1) then Max else ParseIntArg(field)
  }

  /** The type names the mapper recognises. */
  const KnownTypeNames: set<string> := {
    "varchar", "nvarchar", "char", "bigint", "int", "tinyint", "bit", "real",
    "image", "smallmoney", "money", "decimal", "varbinary", "smallint",
    "smalldatetime", "datetime", "datetime2", "time", "datetimeoffset", "numeric",
    "uniqueidentifier", "nchar", "float", "date", "text", "ntext", "xml", "udt",
    "geography", "geometry"
  }

  /** Date-like catalog types, which are bound as 30-character Unicode strings. */
  const DateLikeNames: set<string> := {"date", "datetime", "datetime2", "smalldatetime"}

  /** The native type for a catalog row, chosen by its DATA_TYPE. */
  function MapType(row: CatalogRow): (r: MappedType)
    ensures r.Unrecognized? <==> row.dataType !in KnownTypeNames
    ensures r.Unrecognized? ==> r.message == "Unrecognized data type " + row.dataType
    ensures row.dataType in DateLikeNames ==> r == Native(NVarChar(Given(30)))
  {
    var t := row.dataType;
    if t == "varchar" then Native(VarChar(WidthArg(row, row.charMaxLength)))
    else if t == "nvarchar" then Native(NVarChar(WidthArg(row, row.charMaxLength)))
    else if t == "char" then Native(Char(ParseIntArg(row.charMaxLength)))
    else if t == "bigint" then Native(BigInt)
    else if t == "int" then Native(Int)
    else if t == "tinyint" then Native(TinyInt)
    else if t == "bit" then Native(Bit)
    else if t == "real" then Native(Real)
    else if t == "image" then Native(Image)
    else if t == "smallmoney" then Native(SmallMoney)
    else if t == "money" then Native(Money)
    else if t == "decimal" then Native(Decimal(ParseIntArg(row.numericPrecision), ParseIntArg(row.numericScale)))
    else if t == "varbinary" then Native(VarBinary(WidthArg(row, row.charOctetLength)))
    else if t == "smallint" then Native(SmallInt)
    else if t == "smalldatetime" then Native(NVarChar(Given(30)))
    else if t == "datetime" then Native(NVarChar(Given(30)))
    else if t == "datetime2" then Native(NVarChar(Given(30)))
    else if t == "time" then Native(Time(ParseIntArg(row.numericScale)))
    else if t == "datetimeoffset" then Native(DateTimeOffset(ParseIntArg(row.numericScale)))
    else if t == "numeric" then Native(Numeric(ParseIntArg(row.numericPrecision), ParseIntArg(row.numericScale)))
    else if t == "uniqueidentifier" then Native(UniqueIdentifier)
    else if t == "nchar" then Native(NChar(ParseIntArg(row.charMaxLength)))
    else if t == "float" then Native(Float)
    else if t == "date" then Native(NVarChar(Given(30)))
    else if t == "text" then Native(Text)
    else if t == "ntext" then Native(NText)
    else if t == "xml" then Native(Xml)
    else if t == "udt" then Native(Udt)
    else if t == "geography" then Native(Geography)
    else if t == "geometry" then Native(Geometry)
    else Unrecognized("Unrecognized data type " + t)
  }

  /** The type fields of a row that the mapper may look at. */
  predicate SameTypeFields(a: CatalogRow, b: CatalogRow) {
    && a.dataType == b.dataType
    && a.charMaxLength == b.charMaxLength
    && a.charOctetLength == b.charOctetLength
    && a.numericPrecision == b.numericPrecision
    && a.numericScale == b.numericScale
  }

  /** The mapper is a function of the type name and the four width fields only:
      the column name, table, constraint and ordinal never change the result. */
  lemma MapTypeUsesTypeFieldsOnly(a: CatalogRow, b: CatalogRow)
    requires SameTypeFields(a, b)
    ensures MapType(a) == MapType(b)
  {
  }

  /** The variable-width types take the MAX variant exactly when the catalog's
      maximum length is -1; varbinary otherwise takes the octet length, while
      varchar and nvarchar take the character length. */
  lemma MaxWidthIffMinusOne(row: CatalogRow)
    requires row.dataType in {"varchar", "nvarchar", "varbinary"}
    ensures row.charMaxLength == Some(-1) <==>
      MapType(row) in {Native(VarChar(Max)), Native(NVarChar(Max)), Native(VarBinary(Max))}
    ensures row.charMaxLength != Some(-1) && row.dataType == "varbinary" ==>
      MapType(row) == Native(VarBinary(ParseIntArg(row.charOctetLength)))
    ensures row.charMaxLength != Some(-1) && row.dataType == "varchar" ==>
      MapType(row) == Native(VarChar(ParseIntArg(row.charMaxLength)))
    ensures row.charMaxLength != Some(-1) && row.dataType == "nvarchar" ==>
      MapType(row) == Native(NVarChar(ParseIntArg(row.charMaxLength)))
  {
  }

  /** Fixed-width character types always take the character length, even -1. */
  lemma FixedCharTakesCharLength(row: CatalogRow)
    ensures row.dataType == "char" ==> MapType(row) == Native(Char(ParseIntArg(row.charMaxLength)))
    ensures row.dataType == "nchar" ==> MapType(row) == Native(NChar(ParseIntArg(row.charMaxLength)))
  {
  }

  /** Decimal and numeric carry precision and scale; time types carry the scale. */
  lemma ScaledTypesCarryScale(row: CatalogRow)
    ensures row.dataType == "decimal" ==>
      MapType(row) == Native(Decimal(ParseIntArg(row.numericPrecision), ParseIntArg(row.numericScale)))
    ensures row.dataType == "numeric" ==>
      MapType(row) == Native(Numeric(ParseIntArg(row.numericPrecision), ParseIntArg(row.numericScale)))
    ensures row.dataType == "time" ==> MapType(row) == Native(Time(ParseIntArg(row.numericScale)))
    ensures row.dataType == "datetimeoffset" ==>
      MapType(row) == Native(DateTimeOffset(ParseIntArg(row.numericScale)))
  {
  }

  /** A translated column: its mapped type and whether it is the primary key. */
  datatype Column = Column(sqlType: MappedType, primaryKey: bool)

  /** Column name -> column, in catalog order. */
  type Schema = Obj<Column>

  function ColumnOf(row: CatalogRow): Column {
    Column(MapType(row), row.constraintType == Some("PRIMARY KEY"))
  }

  /** `ret[COLUMN_NAME] = {type, primaryKey}` for each row in order. */
  function TranslateColumns(rows: seq<CatalogRow>): (s: Schema)
    ensures Wf(s)
  {
    if rows == [] then Empty()
    else
      var last := rows[|rows| - 1];
      Put(TranslateColumns(rows[..|rows| - 1]), last.columnName, ColumnOf(last))
  }

  /** The column names of the rows, each once, in order of first appearance. */
  function DistinctNames(rows: seq<CatalogRow>): seq<string>
  {
    if rows == [] then []
    else
      var prefix := DistinctNames(rows[..|rows| - 1]);
      var name := rows[|rows| - 1].columnName;
      if name in prefix then prefix else prefix + [name]
  }

  predicate NamesDistinct(rows: seq<CatalogRow>) {
    forall i, j :: 0 <= i < j < |rows| ==> rows[i].columnName != rows[j].columnName
  }

  /** Translation yields one entry per distinct column name, in order of first
      appearance. */
  lemma {:induction false} TranslateColumnsKeys(rows: seq<CatalogRow>)
    ensures TranslateColumns(rows).keys == DistinctNames(rows)
  {
    if rows != [] {
      TranslateColumnsKeys(rows[..|rows| - 1]);
    }
  }

  lemma {:induction false} DistinctNamesMembers(rows: seq<CatalogRow>, k: string)
    ensures k in DistinctNames(rows) <==> exists i :: 0 <= i < |rows| && rows[i].columnName == k
  {
    if rows != [] {
      var init := rows[..|rows| - 1];
      DistinctNamesMembers(init, k);
      if exists i :: 0 <= i < |init| && init[i].columnName == k {
        var i :| 0 <= i < |init| && init[i].columnName == k;
        assert rows[i] == init[i];
      }
      if exists i :: 0 <= i < |rows| && rows[i].columnName == k {
        var i :| 0 <= i < |rows| && rows[i].columnName == k;
        if i < |init| {
          assert init[i] == rows[i];
        }
      }
    }
  }

  /** A name has an entry exactly when some row carries it. */
  lemma TranslateColumnsDomain(rows: seq<CatalogRow>, k: string)
    ensures k in TranslateColumns(rows).vals <==> exists i :: 0 <= i < |rows| && rows[i].columnName == k
  {
    TranslateColumnsKeys(rows);
    DistinctNamesMembers(rows, k);
  }

  /** Each entry is built from the LAST row carrying its name. */
  lemma {:induction false} TranslateColumnsLastRowWins(rows: seq<CatalogRow>, i: nat)
    requires i < |rows|
    requires forall j :: i < j < |rows| ==> rows[j].columnName != rows[i].columnName
    ensures rows[i].columnName in TranslateColumns(rows).vals
    ensures TranslateColumns(rows).vals[rows[i].columnName] == ColumnOf(rows[i])
  {
    var init := rows[..|rows| - 1];
    if i < |init| {
      assert init[i] == rows[i];
      assert forall j :: i < j < |init| ==> init[j] == rows[j];
      TranslateColumnsLastRowWins(init, i);
    }
  }

  /** Rows with pairwise different column names (the test's fourteen catalog
      rows, say) give exactly one key per row, in row order. */
  lemma {:induction false} DistinctRowsGiveOneKeyEach(rows: seq<CatalogRow>)
    requires NamesDistinct(rows)
    ensures |TranslateColumns(rows).keys| == |rows|
    ensures forall i :: 0 <= i < |rows| ==> TranslateColumns(rows).keys[i] == rows[i].columnName
  {
    TranslateColumnsKeys(rows);
    DistinctNamesOfDistinct(rows);
  }

  lemma {:induction false} DistinctNamesOfDistinct(rows: seq<CatalogRow>)
    requires NamesDistinct(rows)
    ensures |DistinctNames(rows)| == |rows|
    ensures forall i :: 0 <= i < |rows| ==> DistinctNames(rows)[i] == rows[i].columnName
  {
    if rows != [] {
      var init := rows[..|rows| - 1];
      DistinctNamesOfDistinct(init);
      var name := rows[|rows| - 1].columnName;
      assert name !in DistinctNames(init);
    }
  }

  lemma {:induction false} DistinctNamesShorter(rows: seq<CatalogRow>)
    ensures |DistinctNames(rows)| <= |rows|
  {
    if rows != [] {
      DistinctNamesShorter(rows[..|rows| - 1]);
    }
  }

  /** Conversely, when no name was dropped the rows' names were all different,
      and the names come out in row order. */
  lemma {:induction false} FullDistinctNames(rows: seq<CatalogRow>)
    requires |DistinctNames(rows)| == |rows|
    ensures NamesDistinct(rows)
    ensures forall i :: 0 <= i < |rows| ==> DistinctNames(rows)[i] == rows[i].columnName
  {
    if rows != [] {
      var init := rows[..|rows| - 1];
      var name := rows[|rows| - 1].columnName;
      DistinctNamesShorter(init);
      assert name !in DistinctNames(init);
      FullDistinctNames(init);
      forall i | 0 <= i < |init| ensures rows[i].columnName != name {
        assert init[i] == rows[i];
        assert DistinctNames(init)[i] == rows[i].columnName;
      }
      forall i, j | 0 <= i < j < |rows| ensures rows[i].columnName != rows[j].columnName {
        if j < |init| {
          assert init[i] == rows[i] && init[j] == rows[j];
        }
      }
      forall i | 0 <= i < |init| ensures DistinctNames(rows)[i] == rows[i].columnName {
        assert init[i] == rows[i];
      }
    }
  }

  /** One more row with a new name appends that name. */
  lemma DistinctNamesStep(rows: seq<CatalogRow>, k: nat, names: seq<string>)
    requires k < |rows| && DistinctNames(rows[..k]) == names && rows[k].columnName !in names
    ensures DistinctNames(rows[..k + 1]) == names + [rows[k].columnName]
  {
    assert rows[..k + 1][..k] == rows[..k];
  }

  /** A column is flagged as the primary key exactly when its last catalog row
      carries the PRIMARY KEY constraint type. */
  lemma PrimaryKeyFlagFromConstraint(rows: seq<CatalogRow>, i: nat)
    requires i < |rows|
    requires forall j :: i < j < |rows| ==> rows[j].columnName != rows[i].columnName
    ensures rows[i].columnName in TranslateColumns(rows).vals
    ensures TranslateColumns(rows).vals[rows[i].columnName].primaryKey <==> rows[i].constraintType == Some("PRIMARY KEY")
    ensures TranslateColumns(rows).vals[rows[i].columnName].sqlType == MapType(rows[i])
  {
    TranslateColumnsLastRowWins(rows, i);
  }
}
