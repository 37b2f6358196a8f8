/** Creating a record from the table editor (`btnCreate_Click`): the form
    is shown the table's columns minus the primary key and the synthetic
    `RowNum` column, and when the dialog reports success a new Added row is
    appended that copies the form's values for exactly those columns. */
module NewRecord {

  import opened Base
  import opened Schema
  import opened Collections
  import RecordForm

  /** The paging query's synthetic row-number column. */
  const RowNumColumn: string := "RowNum"

  /** A column the form may edit: not part of the key and not `RowNum`. */
  predicate OnForm(c: Column, pk: set<string>) {
    c.name !in pk && c.name != RowNumColumn
  }

  /** The columns of the form's table: the current table's columns without
      the primary-key columns and without `RowNum`, in table order. */
  function FormColumns(cols: seq<Column>, pk: set<string>): (r: seq<Column>)
    ensures |r| <= |cols|
    ensures forall c :: c in r <==> c in cols && OnForm(c, pk)
  {
    Where(cols, (c: Column) => OnForm(c, pk))
  }

  /** The projection keeps the table's column order: projecting a
      concatenation projects each part. */
  lemma FormColumnsKeepOrder(a: seq<Column>, b: seq<Column>, pk: set<string>)
    ensures FormColumns(a + b, pk) == FormColumns(a, pk) + FormColumns(b, pk)
  {
    WhereAppend(a, b, (c: Column) => OnForm(c, pk));
  }

  /** A table whose column names are distinct keeps them distinct in the
      form. */
  lemma FormColumnsDistinct(cols: seq<Column>, pk: set<string>)
    requires DistinctNames(cols)
    ensures DistinctNames(FormColumns(cols, pk))
  {
    WhereDistinctNames(cols, (c: Column) => OnForm(c, pk));
  }

  /** The cell the new row takes for column `c`: the form's value for a
      form column, `DBNull` for a key column or `RowNum`. */
  function CopiedCell(c: Column, pk: set<string>, form: map<string, Value>): Value {
    if OnForm(c, pk) && c.name in form then form[c.name] else Null
  }

  /** The new row: a cell for every column of the table. */
  function NewRowFrom(cols: seq<Column>, pk: set<string>, form: map<string, Value>): (r: Row)
    ensures r.state == Added
    ensures forall k :: 0 <= k < |cols| ==> cols[k].name in r.cells
    ensures forall name :: name in r.cells ==> exists k :: 0 <= k < |cols| && cols[k].name == name
  {
    Row(Added, map k | 0 <= k < |cols| :: cols[k].name := CopiedCell(cols[k], pk, form))
  }

  /** With distinct column names, each column's cell in the new row is the
      one copied for that column. */
  lemma NewRowCells(cols: seq<Column>, pk: set<string>, form: map<string, Value>)
    ensures DistinctNames(cols) ==> forall c :: c in cols ==>
              c.name in NewRowFrom(cols, pk, form).cells
              && NewRowFrom(cols, pk, form).cells[c.name] == CopiedCell(c, pk, form)
  {
    var row := NewRowFrom(cols, pk, form);
    forall c | c in cols && DistinctNames(cols)
      ensures c.name in row.cells && row.cells[c.name] == CopiedCell(c, pk, form)
    {
      var k :| 0 <= k < |cols| && cols[k] == c;
      var j :| 0 <= j < |cols| && cols[j].name == c.name && row.cells[c.name] == CopiedCell(cols[j], pk, form);
      assert j == k;
    }
  }

  /** `btnCreate_Click` after the dialog closes: only `DialogResult ==
      true` appends a row. The key columns and `RowNum` of the new row
      are `DBNull`; every other column holds the form's value; the existing
      rows and the columns are untouched, and the table stays well formed. */
  function CreateRecord(t: Table, pk: set<string>, dialogResult: Option<bool>, form: map<string, Value>)
    : (r: Table)
    ensures dialogResult != Some(true) ==> r == t
    ensures dialogResult == Some(true) ==>
              && r.columns == t.columns
              && |r.rows| == |t.rows| + 1
              && r.rows[..|t.rows|] == t.rows
              && r.rows[|t.rows|].state == Added
    ensures dialogResult == Some(true) && DistinctNames(t.columns) ==>
              forall c :: c in t.columns ==>
                && c.name in r.rows[|t.rows|].cells
                && (!OnForm(c, pk) ==> r.rows[|t.rows|].cells[c.name] == Null)
                && (OnForm(c, pk) && c.name in form ==> r.rows[|t.rows|].cells[c.name] == form[c.name])
    ensures WellFormed(t) ==> WellFormed(r)
  {
    if dialogResult == Some(true) then
      var row := NewRowFrom(t.columns, pk, form);
      var r := Table(t.columns, t.rows + [row]);
      assert r.rows[..|t.rows|] == t.rows;
      NewRowCells(t.columns, pk, form);
      r
    else t
  }

  /** Cancelling the form adds nothing to the table. */
  lemma CancelAddsNothing(t: Table, pk: set<string>, form: map<string, Value>)
    ensures CreateRecord(t, pk, RecordForm.CancelButtonClick(), form) == t
  {
  }

  /** Closing the dialog after an accepted save appends exactly one Added
      row; a rejected save leaves the dialog open and adds nothing. */
  lemma SaveOutcomeDecides(t: Table, pk: set<string>, o: RecordForm.SaveOutcome, form: map<string, Value>)
    ensures o.Accepted? ==> |CreateRecord(t, pk, RecordForm.DialogResultOf(o), form).rows| == |t.rows| + 1
    ensures o.Rejected? ==> CreateRecord(t, pk, RecordForm.DialogResultOf(o), form) == t
  {
  }
}
