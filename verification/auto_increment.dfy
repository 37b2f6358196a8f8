/** The client-side auto-increment step of the table editor's save
    (`btnSave_Click`): integer columns that are non-nullable, not identity
    and not part of the primary key receive MAX+1, MAX+2, ... in the Added
    rows whose cell is empty. The identity set, the non-nullable set, the
    primary-key set and each column's `ISNULL(MAX(col), 0)` answer are
    inputs. The counter is a C# `int` incremented unchecked, so it wraps. */
module AutoIncrement {

  import opened Base
  import opened Text
  import opened Schema
  import opened Collections

  /** A column the save numbers itself. */
  predicate Eligible(c: Column, nonNullable: set<string>, identity: set<string>, pk: set<string>) {
    && c.clrType.IntType?
    && c.name in nonNullable
    && c.name !in identity
    && c.name !in pk
  }

  /** The eligible columns, in table order. */
  function EligibleColumns(cols: seq<Column>, nonNullable: set<string>, identity: set<string>, pk: set<string>)
    : (r: seq<Column>)
    ensures forall c :: c in r <==> c in cols && Eligible(c, nonNullable, identity, pk)
  {
    Where(cols, (c: Column) => Eligible(c, nonNullable, identity, pk))
  }

  /** The only failure this step adds: `Convert.ToInt32` of a MAX beyond
      Int32 throws, and the whole save is abandoned. */
  datatype SaveError = SeedOverflow(column: string)

  /** The starting value of a column's counter: its MAX, or 0 when the
      answer is null. */
  function SeedOf(max: Option<int>): int {
    match max
    case None => 0
    case Some(v) => v
  }

  /** The counters for the eligible columns, seeded from their MAX. */
  function Seeds(elig: seq<Column>, maxOf: string -> Option<int>): (r: Result<map<string, int>, SaveError>)
    ensures r.Err? <==> exists j :: 0 <= j < |elig| && !InInt32(SeedOf(maxOf(elig[j].name)))
    ensures r.Ok? ==> forall j :: 0 <= j < |elig| ==>
                        elig[j].name in r.value && r.value[elig[j].name] == SeedOf(maxOf(elig[j].name))
    ensures r.Ok? ==> forall name :: name in r.value ==> InInt32(r.value[name])
    decreases |elig|
  {
    if elig == [] then Ok(map[])
    else
      var c := elig[|elig| - 1];
      var seed := SeedOf(maxOf(c.name));
      match Seeds(elig[..|elig| - 1], maxOf)
      case Err(e) =>
        assert exists j :: 0 <= j < |elig| && !InInt32(SeedOf(maxOf(elig[j].name))) by {
          var j :| 0 <= j < |elig[..|elig| - 1]| && !InInt32(SeedOf(maxOf(elig[..|elig| - 1][j].name)));
          assert elig[j] == elig[..|elig| - 1][j];
        }
        Err(e)
      case Ok(m) =>
        if !InInt32(seed) then Err(SeedOverflow(c.name))
        else
          var r := m[c.name := seed];
          assert forall j :: 0 <= j < |elig| - 1 ==> elig[j] == elig[..|elig| - 1][j];
          assert forall j :: 0 <= j < |elig| ==> InInt32(SeedOf(maxOf(elig[j].name))) by {
            forall j | 0 <= j < |elig| ensures InInt32(SeedOf(maxOf(elig[j].name))) {
              if j < |elig| - 1 {
                assert InInt32(m[elig[j].name]);
              }
            }
          }
          Ok(r)
  }

  /** The emptiness test of the source: DBNull, a boxed `int` zero, or a
      value whose text is empty. A zero held as `long` or `short` is NOT
      empty. */
  predicate NeedsValue(v: Value) {
    v == Null || v == IntVal(Int, 0) || v == TextVal("")
  }

  /** Row `row` is an Added row whose cell for `name` is empty. */
  predicate Needs(row: Row, name: string) {
    row.state == Added && name in row.cells && NeedsValue(row.cells[name])
  }

  /** How many of `rows` take a number for column `name`. */
  function FillCount(rows: seq<Row>, name: string): nat {
    Count(rows, (r: Row) => Needs(r, name))
  }

  /** Column `name` is among `elig`. */
  predicate Named(elig: seq<Column>, name: string) {
    exists j :: 0 <= j < |elig| && elig[j].name == name
  }

  /** Every eligible column has a counter. */
  predicate Counters(elig: seq<Column>, ctr: map<string, int>) {
    forall j :: 0 <= j < |elig| ==> elig[j].name in ctr
  }

  /** Every eligible column has a counter, and each holds an Int32. */
  predicate CountersFit(elig: seq<Column>, ctr: map<string, int>) {
    forall j :: 0 <= j < |elig| ==> elig[j].name in ctr && InInt32(ctr[elig[j].name])
  }

  /** Every eligible column is an integer column. */
  predicate IntColumns(elig: seq<Column>) {
    forall j :: 0 <= j < |elig| ==> elig[j].clrType.IntType?
  }

  /** What a row needs to go through the column loop: a cell for every
      eligible column, each of integer type. */
  predicate Ready(row: Row, elig: seq<Column>) {
    forall j :: 0 <= j < |elig| ==> elig[j].name in row.cells && elig[j].clrType.IntType?
  }

  /** One cell after the column loop over one Added row: the counter moved
      on by one and its value stored exactly when the cell was empty. */
  predicate CellStep(row: Row, out: Row, c: Column, ctr: map<string, int>, ctr': map<string, int>) {
    && c.name in ctr && c.name in ctr' && c.name in row.cells && c.name in out.cells && c.clrType.IntType?
    && ctr'[c.name] == Wrap32(ctr[c.name] + (if Needs(row, c.name) then 1 else 0))
    && out.cells[c.name] == (if Needs(row, c.name) then IntVal(c.clrType.kind, ctr'[c.name]) else row.cells[c.name])
  }

  /** The column loop for one Added row. */
  function FillRow(row: Row, elig: seq<Column>, ctr: map<string, int>): (r: (Row, map<string, int>))
    requires row.state == Added && Counters(elig, ctr) && Ready(row, elig)
    ensures r.0.state == row.state && r.0.cells.Keys == row.cells.Keys && r.1.Keys == ctr.Keys
    decreases |elig|
  {
    if elig == [] then (row, ctr)
    else
      var c := elig[0];
      if NeedsValue(row.cells[c.name]) then
        var n := Wrap32(ctr[c.name] + 1);
        FillRow(row.(cells := row.cells[c.name := IntVal(c.clrType.kind, n)]), elig[1..], ctr[c.name := n])
      else
        FillRow(row, elig[1..], ctr)
  }

  /** Cells of columns outside `elig` are left as they were. */
  predicate SameOutside(row: Row, out: Row, elig: seq<Column>) {
    forall name :: name in row.cells && name in out.cells && !Named(elig, name) ==> out.cells[name] == row.cells[name]
  }

  /** Counters of columns outside `elig` are left as they were. */
  predicate CountersOutside(ctr: map<string, int>, ctr': map<string, int>, elig: seq<Column>) {
    forall name :: name in ctr && name in ctr' && !Named(elig, name) ==> ctr'[name] == ctr[name]
  }

  /** Every column of `elig` took its own step. */
  predicate AllStepped(row: Row, out: Row, elig: seq<Column>, ctr: map<string, int>, ctr': map<string, int>) {
    forall j :: 0 <= j < |elig| ==> CellStep(row, out, elig[j], ctr, ctr')
  }

  /** The column loop leaves the cells and counters of other columns
      alone. */
  lemma {:induction false} FillRowFrame(row: Row, elig: seq<Column>, ctr: map<string, int>)
    requires row.state == Added && DistinctNames(elig) && Counters(elig, ctr) && Ready(row, elig)
    ensures SameOutside(row, FillRow(row, elig, ctr).0, elig)
    ensures CountersOutside(ctr, FillRow(row, elig, ctr).1, elig)
    decreases |elig|
  {
    if elig != [] {
      var c := elig[0];
      var rest := elig[1..];
      DistinctTail(elig);
      var needs := NeedsValue(row.cells[c.name]);
      var n := Wrap32(ctr[c.name] + 1);
      var row' := if needs then row.(cells := row.cells[c.name := IntVal(c.clrType.kind, n)]) else row;
      var ctr' := if needs then ctr[c.name := n] else ctr;
      var r := FillRow(row', rest, ctr');
      assert FillRow(row, elig, ctr) == r;
      assert Counters(rest, ctr') && Ready(row', rest) by {
        forall j | 0 <= j < |rest| ensures rest[j] == elig[j + 1] { }
      }
      FillRowFrame(row', rest, ctr');
      forall name | name in row.cells && name in r.0.cells && !Named(elig, name)
        ensures r.0.cells[name] == row.cells[name]
      {
        assert !Named(rest, name) && name != c.name;
      }
      forall name | name in ctr && name in r.1 && !Named(elig, name) ensures r.1[name] == ctr[name] {
        assert !Named(rest, name) && name != c.name;
      }
    }
  }

  /** The column loop numbers each eligible column of the row on its own. */
  lemma {:induction false} FillRowSpec(row: Row, elig: seq<Column>, ctr: map<string, int>)
    requires row.state == Added && DistinctNames(elig) && CountersFit(elig, ctr) && Ready(row, elig)
    ensures AllStepped(row, FillRow(row, elig, ctr).0, elig, ctr, FillRow(row, elig, ctr).1)
    decreases |elig|
  {
    if elig != [] {
      var c := elig[0];
      var rest := elig[1..];
      DistinctTail(elig);
      var needs := NeedsValue(row.cells[c.name]);
      var n := Wrap32(ctr[c.name] + 1);
      var row' := if needs then row.(cells := row.cells[c.name := IntVal(c.clrType.kind, n)]) else row;
      var ctr' := if needs then ctr[c.name := n] else ctr;
      var r := FillRow(row', rest, ctr');
      assert FillRow(row, elig, ctr) == r;
      assert CountersFit(rest, ctr') && Ready(row', rest) by {
        forall j | 0 <= j < |rest| ensures rest[j] == elig[j + 1] { }
      }
      FillRowSpec(row', rest, ctr');
      HeadStep(row, row', c, rest, ctr, ctr', r.0, r.1);
      forall j | 1 <= j < |elig| ensures CellStep(row, r.0, elig[j], ctr, r.1) {
        var d := rest[j - 1];
        assert elig[j] == d;
        assert CellStep(row', r.0, d, ctr', r.1);
        assert d.name != c.name;
      }
    }
  }

  /** The first column's step survives the loop over the remaining
      columns, which never touch its cell or counter. */
  lemma HeadStep(row: Row, row': Row, c: Column, rest: seq<Column>, ctr: map<string, int>, ctr': map<string, int>,
                 out: Row, ctr2: map<string, int>)
    requires row.state == Added && !Named(rest, c.name) && DistinctNames(rest)
    requires c.name in row.cells && c.name in ctr && InInt32(ctr[c.name]) && c.clrType.IntType?
    requires var n := Wrap32(ctr[c.name] + 1);
             && row' == (if NeedsValue(row.cells[c.name]) then row.(cells := row.cells[c.name := IntVal(c.clrType.kind, n)]) else row)
             && ctr' == (if NeedsValue(row.cells[c.name]) then ctr[c.name := n] else ctr)
    requires Counters(rest, ctr') && Ready(row', rest)
    requires out == FillRow(row', rest, ctr').0 && ctr2 == FillRow(row', rest, ctr').1
    ensures CellStep(row, out, c, ctr, ctr2)
  {
    FillRowFrame(row', rest, ctr');
    assert out.cells[c.name] == row'.cells[c.name];
    assert ctr2[c.name] == ctr'[c.name];
  }

  /** The tail of a list of distinct columns is distinct and does not name
      its head. */
  lemma DistinctTail(elig: seq<Column>)
    requires elig != [] && DistinctNames(elig)
    ensures DistinctNames(elig[1..]) && !Named(elig[1..], elig[0].name)
    ensures forall name :: Named(elig, name) <==> name == elig[0].name || Named(elig[1..], name)
  {
    var rest := elig[1..];
    forall name | Named(rest, name) ensures Named(elig, name) {
      var j :| 0 <= j < |rest| && rest[j].name == name;
      assert elig[j + 1].name == name;
    }
    forall name | Named(elig, name) && name != elig[0].name ensures Named(rest, name) {
      var j :| 0 <= j < |elig| && elig[j].name == name;
      assert rest[j - 1].name == name;
    }
    forall j | 0 <= j < |rest| ensures rest[j].name != elig[0].name {
      assert rest[j] == elig[j + 1];
    }
  }

  /** The row loop: only Added rows go through the column loop. */
  function FillRows(rows: seq<Row>, elig: seq<Column>, ctr: map<string, int>): (r: (seq<Row>, map<string, int>))
    requires Counters(elig, ctr) && forall i :: 0 <= i < |rows| ==> Ready(rows[i], elig)
    ensures |r.0| == |rows| && r.1.Keys == ctr.Keys
    ensures forall i :: 0 <= i < |rows| ==> r.0[i].state == rows[i].state && r.0[i].cells.Keys == rows[i].cells.Keys
    decreases |rows|
  {
    if rows == [] then ([], ctr)
    else
      var step := if rows[0].state == Added then FillRow(rows[0], elig, ctr) else (rows[0], ctr);
      var tail := FillRows(rows[1..], elig, step.1);
      ([step.0] + tail.0, tail.1)
  }

  /** Column `c` after the row loop: the i-th row's empty cell holds the
      seed plus the number of rows up to and including it that took a
      number, wrapped to Int32. */
  predicate ColumnNumbered(rows: seq<Row>, out: seq<Row>, c: Column, seed: int) {
    && |out| == |rows| && c.clrType.IntType?
    && forall i :: 0 <= i < |rows| ==>
         && c.name in rows[i].cells && c.name in out[i].cells
         && out[i].cells[c.name] == (if Needs(rows[i], c.name)
                                     then IntVal(c.clrType.kind, Wrap32(seed + FillCount(rows[..i + 1], c.name)))
                                     else rows[i].cells[c.name])
  }

  /** Each eligible column's counter has moved on by the number of rows
      that took a number. */
  predicate CountersAdvanced(rows: seq<Row>, elig: seq<Column>, ctr: map<string, int>, ctr': map<string, int>) {
    forall j :: 0 <= j < |elig| ==>
      && elig[j].name in ctr && elig[j].name in ctr'
      && ctr'[elig[j].name] == Wrap32(ctr[elig[j].name] + FillCount(rows, elig[j].name))
  }

  /** Every eligible column is numbered from its counter's start. */
  predicate AllNumbered(rows: seq<Row>, out: seq<Row>, elig: seq<Column>, ctr: map<string, int>) {
    forall j :: 0 <= j < |elig| ==> elig[j].name in ctr && ColumnNumbered(rows, out, elig[j], ctr[elig[j].name])
  }

  /** No row changed outside the eligible columns. */
  predicate RowsSameOutside(rows: seq<Row>, out: seq<Row>, elig: seq<Column>) {
    |out| == |rows| && forall i :: 0 <= i < |rows| ==> SameOutside(rows[i], out[i], elig)
  }

  /** The row loop numbers each eligible column independently, in row
      order, and touches no other cell. */
  lemma {:induction false} FillRowsSpec(rows: seq<Row>, elig: seq<Column>, ctr: map<string, int>)
    requires DistinctNames(elig) && CountersFit(elig, ctr) && IntColumns(elig)
    requires forall i :: 0 <= i < |rows| ==> Ready(rows[i], elig)
    ensures RowsSameOutside(rows, FillRows(rows, elig, ctr).0, elig)
    ensures CountersAdvanced(rows, elig, ctr, FillRows(rows, elig, ctr).1)
    ensures AllNumbered(rows, FillRows(rows, elig, ctr).0, elig, ctr)
    decreases |rows|
  {
    var r := FillRows(rows, elig, ctr);
    if rows == [] {
      forall j | 0 <= j < |elig| ensures ColumnNumbered(rows, r.0, elig[j], ctr[elig[j].name]) { }
    } else {
      var row := rows[0];
      var step := if row.state == Added then FillRow(row, elig, ctr) else (row, ctr);
      FirstRowStep(row, elig, ctr);
      FillRowsSpec(rows[1..], elig, step.1);
      var tail := FillRows(rows[1..], elig, step.1);
      assert r.0 == [step.0] + tail.0 && r.1 == tail.1;
      RowsStep(rows, r.0, elig, ctr, step.0, step.1, tail.0, tail.1);
      SameOutsideCons(rows, r.0, elig, step.0, tail.0);
    }
  }

  /** The first row of the row loop: stepped column by column when Added,
      passed through otherwise, and the counters still fit Int32. */
  lemma FirstRowStep(row: Row, elig: seq<Column>, ctr: map<string, int>)
    requires DistinctNames(elig) && CountersFit(elig, ctr) && Ready(row, elig)
    ensures var step := if row.state == Added then FillRow(row, elig, ctr) else (row, ctr);
            && AllStepped(row, step.0, elig, ctr, step.1)
            && SameOutside(row, step.0, elig)
            && CountersFit(elig, step.1)
  {
    var step := if row.state == Added then FillRow(row, elig, ctr) else (row, ctr);
    assert AllStepped(row, step.0, elig, ctr, step.1) && SameOutside(row, step.0, elig) by {
      if row.state == Added {
        FillRowFrame(row, elig, ctr);
        FillRowSpec(row, elig, ctr);
      }
    }
    forall j | 0 <= j < |elig| ensures elig[j].name in step.1 && InInt32(step.1[elig[j].name]) {
      assert CellStep(row, step.0, elig[j], ctr, step.1);
    }
  }

  /** Prepending a row that changed only eligible cells. */
  lemma SameOutsideCons(rows: seq<Row>, out: seq<Row>, elig: seq<Column>, first: Row, tail: seq<Row>)
    requires rows != [] && out == [first] + tail
    requires SameOutside(rows[0], first, elig) && RowsSameOutside(rows[1..], tail, elig)
    ensures RowsSameOutside(rows, out, elig)
  {
    forall i | 0 <= i < |rows| ensures SameOutside(rows[i], out[i], elig) {
      if i > 0 {
        assert rows[1..][i - 1] == rows[i] && tail[i - 1] == out[i];
      }
    }
  }

  /** The first row's column steps followed by the rest of the rows. */
  lemma RowsStep(rows: seq<Row>, out: seq<Row>, elig: seq<Column>, ctr: map<string, int>,
                 first: Row, ctr1: map<string, int>, tail: seq<Row>, ctr2: map<string, int>)
    requires rows != [] && out == [first] + tail
    requires AllStepped(rows[0], first, elig, ctr, ctr1)
    requires CountersAdvanced(rows[1..], elig, ctr1, ctr2)
    requires AllNumbered(rows[1..], tail, elig, ctr1)
    ensures CountersAdvanced(rows, elig, ctr, ctr2)
    ensures AllNumbered(rows, out, elig, ctr)
  {
    forall j | 0 <= j < |elig|
      ensures elig[j].name in ctr && elig[j].name in ctr2
      ensures ctr2[elig[j].name] == Wrap32(ctr[elig[j].name] + FillCount(rows, elig[j].name))
      ensures ColumnNumbered(rows, out, elig[j], ctr[elig[j].name])
    {
      var c := elig[j];
      assert CellStep(rows[0], first, c, ctr, ctr1);
      ColumnAfterRows(rows, out, c, ctr, first, ctr1, tail, ctr2);
    }
  }

  /** One column through the first row and then the rest of the rows. */
  lemma ColumnAfterRows(rows: seq<Row>, out: seq<Row>, c: Column, ctr: map<string, int>,
                        first: Row, ctr1: map<string, int>, tail: seq<Row>, ctr2: map<string, int>)
    requires rows != [] && out == [first] + tail
    requires CellStep(rows[0], first, c, ctr, ctr1)
    requires c.name in ctr2 && ctr2[c.name] == Wrap32(ctr1[c.name] + FillCount(rows[1..], c.name))
    requires ColumnNumbered(rows[1..], tail, c, ctr1[c.name])
    ensures ctr2[c.name] == Wrap32(ctr[c.name] + FillCount(rows, c.name))
    ensures ColumnNumbered(rows, out, c, ctr[c.name])
  {
    var x := if Needs(rows[0], c.name) then 1 else 0;
    assert out[1..] == tail;
    NumberedStep(rows, out, c, ctr[c.name], ctr1[c.name], tail);
    Wrap32Add(ctr[c.name] + x, FillCount(rows[1..], c.name));
    Wrap32Add(ctr[c.name], x);
  }

  /** Prepending one row to a numbered column. */
  lemma NumberedStep(rows: seq<Row>, out: seq<Row>, c: Column, seed: int, seed1: int, tail: seq<Row>)
    requires rows != [] && |out| == |rows| && out[1..] == tail && c.clrType.IntType?
    requires seed1 == Wrap32(seed + (if Needs(rows[0], c.name) then 1 else 0))
    requires c.name in rows[0].cells && c.name in out[0].cells
    requires out[0].cells[c.name] == (if Needs(rows[0], c.name) then IntVal(c.clrType.kind, seed1) else rows[0].cells[c.name])
    requires ColumnNumbered(rows[1..], tail, c, seed1)
    ensures ColumnNumbered(rows, out, c, seed)
  {
    forall i | 0 <= i < |rows|
      ensures c.name in out[i].cells
      ensures out[i].cells[c.name] == (if Needs(rows[i], c.name)
                                       then IntVal(c.clrType.kind, Wrap32(seed + FillCount(rows[..i + 1], c.name)))
                                       else rows[i].cells[c.name])
    {
      if i > 0 {
        NumberedLater(rows, out, c, seed, seed1, tail, i);
      }
    }
  }

  /** A row after the first keeps its place in the count, shifted by the
      first row's contribution. */
  lemma NumberedLater(rows: seq<Row>, out: seq<Row>, c: Column, seed: int, seed1: int, tail: seq<Row>, i: nat)
    requires 0 < i < |rows| && |out| == |rows| && out[1..] == tail && c.clrType.IntType?
    requires seed1 == Wrap32(seed + (if Needs(rows[0], c.name) then 1 else 0))
    requires ColumnNumbered(rows[1..], tail, c, seed1)
    ensures c.name in rows[i].cells && c.name in out[i].cells
    ensures out[i].cells[c.name] == (if Needs(rows[i], c.name)
                                     then IntVal(c.clrType.kind, Wrap32(seed + FillCount(rows[..i + 1], c.name)))
                                     else rows[i].cells[c.name])
  {
    var x := if Needs(rows[0], c.name) then 1 else 0;
    var n := FillCount(rows[1..][..i], c.name);
    assert rows[1..][i - 1] == rows[i] && tail[i - 1] == out[i];
    assert rows[1..][..i - 1 + 1] == rows[1..][..i];
    FillCountCons(rows, c.name, i);
    Wrap32Add(seed + x, n);
    assert Wrap32(seed1 + n) == Wrap32(seed + FillCount(rows[..i + 1], c.name));
  }

  /** The count over a prefix is the first row's share plus the count over
      the rest of that prefix. */
  lemma FillCountCons(rows: seq<Row>, name: string, i: nat)
    requires i < |rows|
    ensures FillCount(rows[..i + 1], name) == (if Needs(rows[0], name) then 1 else 0) + FillCount(rows[1..][..i], name)
  {
    assert rows[..i + 1][1..] == rows[1..][..i];
  }

  /** The auto-increment step of a save over the whole table: the eligible
      columns are seeded from their MAX (or 0), then each Added row's empty
      eligible cells are numbered in row order. Nothing else changes. */
  function ResolveAutoIncrement(t: Table, pk: set<string>, identity: set<string>, nonNullable: set<string>,
                                maxOf: string -> Option<int>): (r: Result<Table, SaveError>)
    requires WellFormed(t)
    ensures r.Err? <==> exists c :: c in t.columns && Eligible(c, nonNullable, identity, pk)
                                  && !InInt32(SeedOf(maxOf(c.name)))
    ensures r.Ok? ==> r.value.columns == t.columns && |r.value.rows| == |t.rows|
    ensures r.Ok? ==> forall i :: 0 <= i < |t.rows| ==>
              r.value.rows[i].state == t.rows[i].state && r.value.rows[i].cells.Keys == t.rows[i].cells.Keys
    ensures r.Ok? ==> forall i, name :: (0 <= i < |t.rows| && name in t.rows[i].cells
                                       && r.value.rows[i].cells[name] != t.rows[i].cells[name]) ==>
              (exists c :: c in t.columns && c.name == name && Eligible(c, nonNullable, identity, pk))
              && Needs(t.rows[i], name)
    ensures r.Ok? ==> forall c :: c in t.columns && Eligible(c, nonNullable, identity, pk) ==>
              ColumnNumbered(t.rows, r.value.rows, c, SeedOf(maxOf(c.name)))
  {
    var elig := EligibleColumns(t.columns, nonNullable, identity, pk);
    EligibleDistinct(t.columns, nonNullable, identity, pk);
    match Seeds(elig, maxOf)
    case Err(e) =>
      ghost var j :| 0 <= j < |elig| && !InInt32(SeedOf(maxOf(elig[j].name)));
      assert elig[j] in elig;
      Err(e)
    case Ok(seeds) =>
      EligibleSeedsFit(t, elig, pk, identity, nonNullable, maxOf);
      EligibleReady(t, elig, pk, identity, nonNullable);
      assert CountersFit(elig, seeds);
      var filled := FillRows(t.rows, elig, seeds);
      FillRowsSpec(t.rows, elig, seeds);
      NumberedTransfer(t, elig, filled.0, seeds, pk, identity, nonNullable, maxOf);
      ChangedTransfer(t, elig, filled.0, seeds, pk, identity, nonNullable);
      Ok(Table(t.columns, filled.0))
  }

  lemma EligibleSeedsFit(t: Table, elig: seq<Column>, pk: set<string>, identity: set<string>, nonNullable: set<string>,
                         maxOf: string -> Option<int>)
    requires elig == EligibleColumns(t.columns, nonNullable, identity, pk)
    requires Seeds(elig, maxOf).Ok?
    ensures forall c :: c in t.columns && Eligible(c, nonNullable, identity, pk) ==> InInt32(SeedOf(maxOf(c.name)))
  {
    forall c | c in t.columns && Eligible(c, nonNullable, identity, pk) ensures InInt32(SeedOf(maxOf(c.name))) {
      assert c in elig;
      var j :| 0 <= j < |elig| && elig[j] == c;
      assert InInt32(Seeds(elig, maxOf).value[elig[j].name]);
    }
  }

  lemma EligibleReady(t: Table, elig: seq<Column>, pk: set<string>, identity: set<string>, nonNullable: set<string>)
    requires WellFormed(t)
    requires elig == EligibleColumns(t.columns, nonNullable, identity, pk)
    ensures forall i :: 0 <= i < |t.rows| ==> Ready(t.rows[i], elig)
  {
    forall i, j | 0 <= i < |t.rows| && 0 <= j < |elig|
      ensures elig[j].name in t.rows[i].cells && elig[j].clrType.IntType?
    {
      assert elig[j] in t.columns;
      var k :| 0 <= k < |t.columns| && t.columns[k] == elig[j];
      assert RowFits(t.rows[i], t.columns);
    }
  }

  /** The loop's facts about the columns of `elig` are facts about every
      eligible column of the table. */
  lemma NumberedTransfer(t: Table, elig: seq<Column>, out: seq<Row>, seeds: map<string, int>,
                         pk: set<string>, identity: set<string>, nonNullable: set<string>,
                         maxOf: string -> Option<int>)
    requires elig == EligibleColumns(t.columns, nonNullable, identity, pk)
    requires Seeds(elig, maxOf) == Ok(seeds)
    requires AllNumbered(t.rows, out, elig, seeds)
    ensures forall c :: c in t.columns && Eligible(c, nonNullable, identity, pk) ==>
              ColumnNumbered(t.rows, out, c, SeedOf(maxOf(c.name)))
  {
    forall c | c in t.columns && Eligible(c, nonNullable, identity, pk)
      ensures ColumnNumbered(t.rows, out, c, SeedOf(maxOf(c.name)))
    {
      assert c in elig;
      var j :| 0 <= j < |elig| && elig[j] == c;
      assert ColumnNumbered(t.rows, out, elig[j], seeds[elig[j].name]);
    }
  }

  /** A cell the loop changed belongs to an eligible column and was empty
      in an Added row. */
  lemma ChangedTransfer(t: Table, elig: seq<Column>, out: seq<Row>, seeds: map<string, int>,
                        pk: set<string>, identity: set<string>, nonNullable: set<string>)
    requires elig == EligibleColumns(t.columns, nonNullable, identity, pk)
    requires |out| == |t.rows| && forall i :: 0 <= i < |t.rows| ==> out[i].cells.Keys == t.rows[i].cells.Keys
    requires RowsSameOutside(t.rows, out, elig) && AllNumbered(t.rows, out, elig, seeds)
    ensures forall i, name :: (0 <= i < |t.rows| && name in t.rows[i].cells
                              && out[i].cells[name] != t.rows[i].cells[name]) ==>
              (exists c :: c in t.columns && c.name == name && Eligible(c, nonNullable, identity, pk))
              && Needs(t.rows[i], name)
  {
    forall i, name | 0 <= i < |t.rows| && name in t.rows[i].cells && out[i].cells[name] != t.rows[i].cells[name]
      ensures (exists c :: c in t.columns && c.name == name && Eligible(c, nonNullable, identity, pk))
              && Needs(t.rows[i], name)
    {
      assert !SameOutside(t.rows[i], out[i], elig) || Named(elig, name);
      var j :| 0 <= j < |elig| && elig[j].name == name;
      assert elig[j] in t.columns;
      assert ColumnNumbered(t.rows, out, elig[j], seeds[elig[j].name]);
    }
  }

  lemma EligibleDistinct(cols: seq<Column>, nonNullable: set<string>, identity: set<string>, pk: set<string>)
    requires DistinctNames(cols)
    ensures DistinctNames(EligibleColumns(cols, nonNullable, identity, pk))
  {
    var p := (c: Column) => Eligible(c, nonNullable, identity, pk);
    WhereDistinctNames(cols, p);
  }

  /** While the counter stays within Int32, each numbered cell of a column
      is greater than the seed and greater than every number assigned above
      it: the numbers are distinct and increasing in row order. */
  lemma {:induction false} NumbersIncrease(rows: seq<Row>, out: seq<Row>, c: Column, seed: int, i: nat, k: nat)
    requires ColumnNumbered(rows, out, c, seed) && InInt32(seed) && seed + FillCount(rows, c.name) <= Int32Max
    requires i < k < |rows| && Needs(rows[i], c.name) && Needs(rows[k], c.name)
    ensures out[i].cells[c.name].IntVal? && out[k].cells[c.name].IntVal?
    ensures seed < out[i].cells[c.name].n < out[k].cells[c.name].n
  {
    NeedCountsIncrease(rows, c.name, i, k);
    var a := FillCount(rows[..i + 1], c.name);
    var b := FillCount(rows[..k + 1], c.name);
    assert out[i].cells[c.name] == IntVal(c.clrType.kind, Wrap32(seed + a));
    assert out[k].cells[c.name] == IntVal(c.clrType.kind, Wrap32(seed + b));
  }

  /** Each row that takes a number raises the running count by one. */
  lemma NeedCountsIncrease(rows: seq<Row>, name: string, i: nat, k: nat)
    requires i < k < |rows| && Needs(rows[i], name) && Needs(rows[k], name)
    ensures 1 <= FillCount(rows[..i + 1], name) < FillCount(rows[..k + 1], name) <= FillCount(rows, name)
  {
    var p := (r: Row) => Needs(r, name);
    assert rows[..i + 1] == rows[..i] + [rows[i]];
    CountSnoc(rows[..i], rows[i], p);
    assert rows[..k + 1] == rows[..k] + [rows[k]];
    CountSnoc(rows[..k], rows[k], p);
    CountPrefixMonotone(rows, i + 1, k, p);
    CountPrefixMonotone(rows, k + 1, |rows|, p);
    assert rows[..|rows|] == rows;
  }

  /** At Int32.Max the next number wraps: an empty cell in the first row
      receives Int32.Min. */
  lemma CounterWrapsAtMax(rows: seq<Row>, out: seq<Row>, c: Column)
    requires ColumnNumbered(rows, out, c, Int32Max) && rows != [] && Needs(rows[0], c.name)
    ensures out[0].cells[c.name] == IntVal(c.clrType.kind, Int32Min)
  {
    assert FillCount(rows[..1], c.name) == 1;
  }

  /** Only a zero held as a 32-bit `int` counts as empty: a `long` or
      `short` zero in an eligible column is kept, not renumbered. */
  lemma WideZeroKept(t: Table, pk: set<string>, identity: set<string>, nonNullable: set<string>,
                     maxOf: string -> Option<int>, i: nat, name: string, k: IntKind)
    requires WellFormed(t) && ResolveAutoIncrement(t, pk, identity, nonNullable, maxOf).Ok?
    requires i < |t.rows| && name in t.rows[i].cells && t.rows[i].cells[name] == IntVal(k, 0) && k != Int
    ensures ResolveAutoIncrement(t, pk, identity, nonNullable, maxOf).value.rows[i].cells[name] == IntVal(k, 0)
  {
  }

  /** Rows that are not Added keep every cell. */
  lemma OnlyAddedRowsChange(t: Table, pk: set<string>, identity: set<string>, nonNullable: set<string>,
                            maxOf: string -> Option<int>, i: nat)
    requires WellFormed(t) && ResolveAutoIncrement(t, pk, identity, nonNullable, maxOf).Ok?
    requires i < |t.rows| && t.rows[i].state != Added
    ensures ResolveAutoIncrement(t, pk, identity, nonNullable, maxOf).value.rows[i] == t.rows[i]
  {
    var out := ResolveAutoIncrement(t, pk, identity, nonNullable, maxOf).value.rows[i];
    assert out.cells.Keys == t.rows[i].cells.Keys;
    forall name | name in t.rows[i].cells ensures out.cells[name] == t.rows[i].cells[name] {
      assert !Needs(t.rows[i], name);
    }
    assert out.cells == t.rows[i].cells;
  }
}
