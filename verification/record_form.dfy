/** The new-record dialog (`RecordFormWindow`): one input control per
    editable column, and the save that turns the controls' contents into a
    row or a rejection. The decimal parser and the `DataRow` setter's
    conversion into the column type are parameters. */
module RecordForm {

  import opened Base
  import opened Text
  import opened Schema
  import opened Collections

  /** An input control and what it currently holds. A `TextBox` tagged
      "numeric" has `numeric` set; a `DatePicker` may have no date. */
  datatype Control =
    | TextBox(numeric: bool, text: string)
    | CheckBox(checked: bool)
    | DatePicker(selected: Option<Date>)

  /** The control a column type gets, in its initial (empty) state:
      Boolean a check box, DateTime a date picker, Int16/Int32/Int64,
      Decimal and Double a numeric text box, everything else a plain
      text box. */
  function CreateInputControl(c: Column): (r: Control)
    ensures r.CheckBox? <==> c.clrType == BooleanType
    ensures r.DatePicker? <==> c.clrType == DateTimeType
    ensures r.TextBox? ==> (r.numeric <==> (c.clrType.IntType? || c.clrType == DecimalType || c.clrType == DoubleType))
    ensures r == CheckBox(false) || r == DatePicker(None) || (r.TextBox? && r.text == "")
  {
    match c.clrType
    case BooleanType => CheckBox(false)
    case DateTimeType => DatePicker(None)
    case IntType(_) => TextBox(true, "")
    case DecimalType => TextBox(true, "")
    case DoubleType => TextBox(true, "")
    case StringType => TextBox(false, "")
    case OtherType(_) => TextBox(false, "")
  }

  /** One entry of the form's control dictionary, with the column it edits. */
  datatype Field = Field(column: Column, control: Control)

  /** `CreateFormFields`: a field for every column that is not
      auto-increment, in column order. */
  function CreateFormFields(cols: seq<Column>): (r: seq<Field>)
    ensures |r| <= |cols|
    ensures forall k :: 0 <= k < |r| ==>
              (r[k].column in cols && !r[k].column.autoIncrement && r[k].control == CreateInputControl(r[k].column))
    ensures forall k :: 0 <= k < |cols| && !cols[k].autoIncrement ==> exists m :: 0 <= m < |r| && r[m].column == cols[k]
  {
    var editable := Where(cols, (c: Column) => !c.autoIncrement);
    var r := seq(|editable|, k requires 0 <= k < |editable| => Field(editable[k], CreateInputControl(editable[k])));
    assert forall k :: 0 <= k < |cols| && !cols[k].autoIncrement ==> exists m :: 0 <= m < |r| && r[m].column == cols[k] by {
      forall k | 0 <= k < |cols| && !cols[k].autoIncrement ensures exists m :: 0 <= m < |r| && r[m].column == cols[k] {
        assert cols[k] in editable;
        var m :| 0 <= m < |editable| && editable[m] == cols[k];
        assert r[m].column == cols[k];
      }
    }
    r
  }

  /** With distinct column names, each editable column has exactly one
      field. */
  lemma FieldsUnique(cols: seq<Column>)
    requires DistinctNames(cols)
    ensures var r := CreateFormFields(cols);
            forall k, m :: 0 <= k < m < |r| ==> r[k].column.name != r[m].column.name
  {
    WhereDistinctNames(cols, (c: Column) => !c.autoIncrement);
  }

  /** Why a save did not produce a row. */
  datatype FormError =
    | NotANumber(text: string)      // FormatException from a numeric box
    | SetValueFailed(column: string) // the row's setter refused the value
    | EmptyRequired(column: string)  // no value for a non-nullable column

  /** `GetControlValue`: blank text is no value; numeric text must parse
      as a decimal; plain text is returned as typed; a check box gives its
      state and a date picker its date, if any. */
  function GetControlValue(c: Control, parseDecimal: string -> Option<real>): (r: Result<Option<Value>, FormError>)
    ensures c.TextBox? && IsBlank(c.text) ==> r == Ok(None)
    ensures c.TextBox? && !IsBlank(c.text) && !c.numeric ==> r == Ok(Some(TextVal(c.text)))
    ensures c.TextBox? && !IsBlank(c.text) && c.numeric ==>
              (r.Err? <==> parseDecimal(c.text).None?)
              && (r.Err? ==> r.error == NotANumber(c.text))
              && (r.Ok? ==> r.value == Some(NumVal(parseDecimal(c.text).value)))
    ensures c.CheckBox? ==> r == Ok(Some(BoolVal(c.checked)))
    ensures c.DatePicker? ==> r.Ok? && (r.value.None? <==> c.selected.None?)
    ensures r.Err? ==> c.TextBox? && c.numeric
  {
    match c
    case TextBox(numeric, text) =>
      if IsBlank(text) then Ok(None)
      else if numeric then
        match parseDecimal(text)
        case Some(x) => Ok(Some(NumVal(x)))
        case None => Err(NotANumber(text))
      else Ok(Some(TextVal(text)))
    case CheckBox(checked) => Ok(Some(BoolVal(checked)))
    case DatePicker(selected) =>
      match selected
      case Some(d) => Ok(Some(DateVal(d)))
      case None => Ok(None)
  }

  /** What one field contributes to the new row, on its own: the stored
      value, `Null` when there is none and the column allows it, or the
      reason the save stops at this field. */
  function FieldOutcome(f: Field, parseDecimal: string -> Option<real>, store: (Column, Value) -> Option<Value>)
    : Result<Value, FormError>
  {
    match GetControlValue(f.control, parseDecimal)
    case Err(e) => Err(e)
    case Ok(Some(v)) =>
      (match store(f.column, v)
       case Some(stored) => Ok(stored)
       case None => Err(SetValueFailed(f.column.name)))
    case Ok(None) =>
      if f.column.allowNull then Ok(Null) else Err(EmptyRequired(f.column.name))
  }

  /** The new row as the form leaves it, or the first field's error. */
  datatype SaveOutcome = Accepted(cells: map<string, Value>) | Rejected(error: FormError)

  /** `SaveButton_Click`: starting from a row of `DBNull`s, each field in
      order either stores its value, leaves `DBNull` in a nullable column,
      or stops the save. The row is accepted only when every field
      succeeded, and then holds exactly each field's outcome; otherwise the
      error is that of the first field that failed. */
  method SaveButtonClick(cols: seq<Column>, fields: seq<Field>, parseDecimal: string -> Option<real>,
                         store: (Column, Value) -> Option<Value>) returns (r: SaveOutcome)
    requires forall k, m :: 0 <= k < m < |fields| ==> fields[k].column.name != fields[m].column.name
    ensures r.Accepted? <==> forall k :: 0 <= k < |fields| ==> FieldOutcome(fields[k], parseDecimal, store).Ok?
    ensures r.Accepted? ==> forall k :: 0 <= k < |fields| ==>
              fields[k].column.name in r.cells
              && r.cells[fields[k].column.name] == FieldOutcome(fields[k], parseDecimal, store).value
    ensures r.Accepted? ==> forall c :: c in cols && (forall k :: 0 <= k < |fields| ==> fields[k].column.name != c.name) ==>
              c.name in r.cells && r.cells[c.name] == Null
    ensures r.Rejected? ==> exists k :: 0 <= k < |fields| && FieldOutcome(fields[k], parseDecimal, store) == Err(r.error)
                                       && forall m :: 0 <= m < k ==> FieldOutcome(fields[m], parseDecimal, store).Ok?
  {
    var cells: map<string, Value> := map c | c in cols :: c.name := Null;
    var i := 0;
    while i < |fields|
      invariant 0 <= i <= |fields|
      invariant forall m :: 0 <= m < i ==> FieldOutcome(fields[m], parseDecimal, store).Ok?
      invariant forall m :: 0 <= m < i ==>
                  fields[m].column.name in cells
                  && cells[fields[m].column.name] == FieldOutcome(fields[m], parseDecimal, store).value
      invariant forall c :: c in cols && (forall m :: 0 <= m < i ==> fields[m].column.name != c.name) ==>
                  c.name in cells && cells[c.name] == Null
    {
      var f := fields[i];
      var value := GetControlValue(f.control, parseDecimal);
      if value.Err? {
        return Rejected(value.error);
      }
      if value.value.Some? {
        var stored := store(f.column, value.value.value);
        if stored.None? {
          return Rejected(SetValueFailed(f.column.name));
        }
        cells := cells[f.column.name := stored.value];
      } else if !f.column.allowNull {
        return Rejected(EmptyRequired(f.column.name));
      } else {
        cells := cells[f.column.name := Null];
      }
      i := i + 1;
    }
    return Accepted(cells);
  }

  /** `DialogResult`: true only for an accepted save, false after Cancel,
      and unset (the dialog stays open) after a rejected save. */
  function DialogResultOf(r: SaveOutcome): (d: Option<bool>)
    ensures d == Some(true) <==> r.Accepted?
    ensures d != Some(false)
  {
    if r.Accepted? then Some(true) else None
  }

  /** `CancelButton_Click`: a dialog result that no save outcome produces,
      so the caller can always tell a cancelled form from a saved one. */
  function CancelButtonClick(): (d: Option<bool>)
    ensures d.Some? && d != Some(true)
    ensures forall o :: DialogResultOf(o) != d
  {
    Some(false)
  }

  /** A numeric box holding text the parser rejects makes the whole save
      fail, so the dialog never reports success. */
  lemma NumericGarbageBlocksSave(cols: seq<Column>, fields: seq<Field>, k: nat,
                                 parseDecimal: string -> Option<real>, store: (Column, Value) -> Option<Value>)
    requires k < |fields| && fields[k].control.TextBox? && fields[k].control.numeric
    requires !IsBlank(fields[k].control.text) && parseDecimal(fields[k].control.text).None?
    ensures FieldOutcome(fields[k], parseDecimal, store).Err?
    ensures !(forall m :: 0 <= m < |fields| ==> FieldOutcome(fields[m], parseDecimal, store).Ok?)
  {
  }

  /** On a freshly opened form, every field but the check boxes is empty,
      so the save fails exactly when some non-nullable column has no check
      box (its first such field), or the setter refuses a check box's
      `false`. */
  lemma {:induction false} FreshFormOutcomes(cols: seq<Column>, parseDecimal: string -> Option<real>,
                                             store: (Column, Value) -> Option<Value>, k: nat)
    requires k < |CreateFormFields(cols)|
    ensures var f := CreateFormFields(cols)[k];
            FieldOutcome(f, parseDecimal, store)
              == if f.column.clrType == BooleanType then
                   (match store(f.column, BoolVal(false))
                    case Some(v) => Ok(v)
                    case None => Err(SetValueFailed(f.column.name)))
                 else if f.column.allowNull then Ok(Null)
                 else Err(EmptyRequired(f.column.name))
  {
    var f := CreateFormFields(cols)[k];
    assert f.control == CreateInputControl(f.column);
  }
}
