/** The loosely typed table data the table editor works on: ADO.NET
    columns, cell values and rows, reduced to immutable values. */
module Schema {

  import opened Collections

  /** Width of a CLR integer type: `short`, `int` or `long`. */
  datatype IntKind = Short | Int | Long

  /** The CLR type of a `DataColumn`, as far as the editor distinguishes
      it; `OtherType` carries the name of any other type (`Byte`, `Single`,
      `Guid`, ...). */
  datatype ClrType =
    | IntType(kind: IntKind)
    | DecimalType
    | DoubleType
    | BooleanType
    | DateTimeType
    | StringType
    | OtherType(name: string)

  /** A `DateTime`, kept opaque. */
  datatype Date = Date(ticks: int)

  /** A boxed cell value; `Null` is `DBNull.Value`. Decimal and double
      values are both modelled as reals. */
  datatype Value =
    | Null
    | IntVal(kind: IntKind, n: int)
    | NumVal(x: real)
    | BoolVal(b: bool)
    | DateVal(d: Date)
    | TextVal(s: string)

  /** A `DataColumn`: its name, CLR type, `AllowDBNull` and `AutoIncrement`. */
  datatype Column = Column(name: string, clrType: ClrType, allowNull: bool, autoIncrement: bool)

  /** `DataRowState`, reduced to the states the editor looks at. */
  datatype RowState = Unchanged | Added | Modified | Deleted

  /** A `DataRow`: its state and one value per column name. */
  datatype Row = Row(state: RowState, cells: map<string, Value>)

  /** A `DataTable`. */
  datatype Table = Table(columns: seq<Column>, rows: seq<Row>)

  /** Column names are unique within a table. */
  predicate DistinctNames(cols: seq<Column>) {
    forall i, j :: 0 <= i < j < |cols| ==> cols[i].name != cols[j].name
  }

  /** Every column has a cell in the row. */
  predicate RowFits(row: Row, cols: seq<Column>) {
    forall i :: 0 <= i < |cols| ==> cols[i].name in row.cells
  }

  /** The shape every `DataTable` keeps: unique column names, and a cell for
      every column in every row. */
  predicate WellFormed(t: Table) {
    && DistinctNames(t.columns)
    && forall k :: 0 <= k < |t.rows| ==> RowFits(t.rows[k], t.columns)
  }

  /** Filtering keeps column names distinct. */
  lemma {:induction false} WhereDistinctNames(cols: seq<Column>, p: Column -> bool)
    requires DistinctNames(cols)
    ensures DistinctNames(Where(cols, p))
    decreases |cols|
  {
    if cols != [] {
      WhereDistinctNames(cols[1..], p);
      var rest := Where(cols[1..], p);
      forall j | 0 <= j < |rest| ensures rest[j].name != cols[0].name {
        assert rest[j] in cols[1..];
        var k :| 0 <= k < |cols[1..]| && cols[1..][k] == rest[j];
        assert cols[k + 1] == rest[j];
      }
    }
  }
}
