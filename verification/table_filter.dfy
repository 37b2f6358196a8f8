/** The table editor's database filter: up to three (column, text) slots
    become a list of SQL conditions and a parallel list of named
    parameters, combined with " AND " into a WHERE clause
    (`BuildDatabaseFilterString` / `AddFilterCondition`).

    The column's declared SQL type comes from an INFORMATION_SCHEMA lookup;
    here it is the `catalog` map from column name to DATA_TYPE, and a column
    the catalog does not know yields the null the source then dereferences.
    `decimal.TryParse` and `DateTime.TryParse` are the `Parsers` given in;
    `int.TryParse` is the concrete `Text.ParseInt32`. */
module TableFilter {

  import opened Base
  import opened Text
  import opened Schema
  import opened Collections

  /** One filter row of the window: the text box and the selected column
      (`None` when the combo box has no selection). */
  datatype FilterSlot = FilterSlot(text: string, column: Option<string>)

  /** A bound parameter value, typed as the source binds it. */
  datatype ParamValue = TextParam(s: string) | IntParam(n: int) | DecimalParam(x: real) | DateParam(d: Date)

  /** A `SqlParameter`: its name and value. */
  datatype SqlParam = SqlParam(name: string, value: ParamValue)

  /** The external parsers: `decimal.TryParse` and `DateTime.TryParse`. */
  datatype Parsers = Parsers(decimal: string -> Option<real>, date: string -> Option<Date>)

  /** The families of SQL Server type names the filter distinguishes. */
  datatype SqlCategory = SqlText | SqlInteger | SqlDecimal | SqlDate | SqlOther

  /** How a condition compares its column with its parameter. */
  datatype Shape = Like | Equal | ConvertLike

  /** The only failure: the DATA_TYPE lookup found no such column, and the
      null it returned was dereferenced. */
  datatype FilterError = UnknownColumn(column: string)

  /** Classifies a DATA_TYPE name after lower-casing it. */
  function CategoryOf(dataType: string): SqlCategory {
    var t := ToLower(dataType);
    if t in {"nvarchar", "varchar", "char", "nchar", "text", "ntext"} then SqlText
    else if t in {"int", "bigint", "smallint", "tinyint"} then SqlInteger
    else if t in {"decimal", "numeric", "float", "real"} then SqlDecimal
    else if t in {"datetime", "date"} then SqlDate
    else SqlOther
  }

  /** The comparison each category uses: text is matched with LIKE, numbers
      and dates by equality, anything else through CONVERT ... LIKE. */
  function ShapeOf(c: SqlCategory): Shape {
    match c
    case SqlText => Like
    case SqlInteger => Equal
    case SqlDecimal => Equal
    case SqlDate => Equal
    case SqlOther => ConvertLike
  }

  /** Name of the parameter bound at position `i`. */
  function ParamName(i: nat): (name: string)
    ensures |name| > 7 && name[..7] == "@param_"
  {
    "@param_" + FormatNat(i)
  }

  /** The condition text for a column, a comparison shape and a parameter
      name: the filter value itself is never part of it. */
  function Condition(column: string, shape: Shape, param: string): (cond: string)
    ensures !IsBlank(cond)
  {
    var cond := match shape
      case Like => "[" + column + "] LIKE '%' + " + param + " + '%'"
      case Equal => "[" + column + "] = " + param
      case ConvertLike => "CONVERT(NVARCHAR(MAX), [" + column + "]) LIKE '%' + " + param + " + '%'";
    assert !IsWhiteSpace(cond[0]);
    cond
  }

  /** The typed value a slot's trimmed text binds to for a category, or
      `None` when the text does not parse for that category. */
  function TypedValue(c: SqlCategory, text: string, parsers: Parsers): Option<ParamValue> {
    match c
    case SqlText => Some(TextParam(text))
    case SqlOther => Some(TextParam(text))
    case SqlInteger => (match ParseInt32(text) case Some(n) => Some(IntParam(n)) case None => None)
    case SqlDecimal => (match parsers.decimal(text) case Some(x) => Some(DecimalParam(x)) case None => None)
    case SqlDate => (match parsers.date(text) case Some(d) => Some(DateParam(d)) case None => None)
  }

  /** A slot is inactive when its text is blank or no column is selected. */
  predicate Inactive(slot: FilterSlot) {
    IsBlank(slot.text) || slot.column.None?
  }

  /** A slot that contributes nothing and raises nothing: inactive, or an
      integer, decimal or date column whose trimmed text does not parse. */
  predicate Silent(slot: FilterSlot, catalog: map<string, string>, parsers: Parsers) {
    || Inactive(slot)
    || (slot.column.value in catalog
        && TypedValue(CategoryOf(catalog[slot.column.value]), Trim(slot.text), parsers).None?)
  }

  /** `AddFilterCondition`: appends at most one condition and one parameter,
      the parameter named after the number of parameters so far. */
  function AddFilterCondition(conds: seq<string>, params: seq<SqlParam>, slot: FilterSlot,
                              catalog: map<string, string>, parsers: Parsers)
    : (r: Result<(seq<string>, seq<SqlParam>), FilterError>)
    ensures r.Err? <==> !Inactive(slot) && slot.column.value !in catalog
    ensures r.Ok? && Silent(slot, catalog, parsers) ==> r.value == (conds, params)
    ensures r.Ok? && !Silent(slot, catalog, parsers) ==>
      var col := slot.column.value;
      var cat := CategoryOf(catalog[col]);
      var name := ParamName(|params|);
      && r.value.0 == conds + [Condition(col, ShapeOf(cat), name)]
      && r.value.1 == params + [SqlParam(name, TypedValue(cat, Trim(slot.text), parsers).value)]
  {
    if IsBlank(slot.text) || slot.column.None? then Ok((conds, params))
    else
      var col := slot.column.value;
      var text := Trim(slot.text);
      var name := ParamName(|params|);
      if col !in catalog then Err(UnknownColumn(col))
      else
        match CategoryOf(catalog[col])
        case SqlText =>
          Ok((conds + [Condition(col, Like, name)], params + [SqlParam(name, TextParam(text))]))
        case SqlInteger =>
          (match ParseInt32(text)
           case Some(n) => Ok((conds + [Condition(col, Equal, name)], params + [SqlParam(name, IntParam(n))]))
           case None => Ok((conds, params)))
        case SqlDecimal =>
          (match parsers.decimal(text)
           case Some(x) => Ok((conds + [Condition(col, Equal, name)], params + [SqlParam(name, DecimalParam(x))]))
           case None => Ok((conds, params)))
        case SqlDate =>
          (match parsers.date(text)
           case Some(d) => Ok((conds + [Condition(col, Equal, name)], params + [SqlParam(name, DateParam(d))]))
           case None => Ok((conds, params)))
        case SqlOther =>
          Ok((conds + [Condition(col, ConvertLike, name)],
              params + [SqlParam(name, TextParam(text))]))
  }

  /** Applies `AddFilterCondition` to each slot in turn, stopping at the
      first failure. */
  function AddAll(conds: seq<string>, params: seq<SqlParam>, slots: seq<FilterSlot>,
                  catalog: map<string, string>, parsers: Parsers)
    : Result<(seq<string>, seq<SqlParam>), FilterError>
    decreases |slots|
  {
    if slots == [] then Ok((conds, params))
    else
      match AddFilterCondition(conds, params, slots[0], catalog, parsers)
      case Err(e) => Err(e)
      case Ok(acc) => AddAll(acc.0, acc.1, slots[1..], catalog, parsers)
  }

  /** The conditions and parameters of all slots, before joining. */
  function BuildConditions(slots: seq<FilterSlot>, catalog: map<string, string>, parsers: Parsers)
    : Result<(seq<string>, seq<SqlParam>), FilterError>
  {
    AddAll([], [], slots, catalog, parsers)
  }

  /** The lists stay parallel: condition `i` and parameter `i` were added
      together, parameter `i` is named "@param_i", and no condition is
      blank. */
  predicate Parallel(conds: seq<string>, params: seq<SqlParam>) {
    && |conds| == |params|
    && (forall i :: 0 <= i < |params| ==> params[i].name == ParamName(i))
    && (forall i :: 0 <= i < |conds| ==> !IsBlank(conds[i]))
  }

  /** One slot keeps the lists parallel. */
  lemma StepParallel(conds: seq<string>, params: seq<SqlParam>, slot: FilterSlot,
                     catalog: map<string, string>, parsers: Parsers)
    requires Parallel(conds, params)
    ensures AddFilterCondition(conds, params, slot, catalog, parsers).Ok? ==>
              Parallel(AddFilterCondition(conds, params, slot, catalog, parsers).value.0,
                       AddFilterCondition(conds, params, slot, catalog, parsers).value.1)
  {
    var r := AddFilterCondition(conds, params, slot, catalog, parsers);
    if r.Ok? && !Silent(slot, catalog, parsers) {
      var col := slot.column.value;
      var name := ParamName(|params|);
      var cond := Condition(col, ShapeOf(CategoryOf(catalog[col])), name);
      assert r.value.0 == conds + [cond];
      assert r.value.1[|params|].name == name;
    }
  }

  lemma {:induction false} AddAllParallel(conds: seq<string>, params: seq<SqlParam>, slots: seq<FilterSlot>,
                                           catalog: map<string, string>, parsers: Parsers)
    requires Parallel(conds, params)
    ensures AddAll(conds, params, slots, catalog, parsers).Ok? ==>
              Parallel(AddAll(conds, params, slots, catalog, parsers).value.0,
                       AddAll(conds, params, slots, catalog, parsers).value.1)
    decreases |slots|
  {
    if slots != [] {
      var r := AddFilterCondition(conds, params, slots[0], catalog, parsers);
      if r.Ok? {
        StepParallel(conds, params, slots[0], catalog, parsers);
        AddAllParallel(r.value.0, r.value.1, slots[1..], catalog, parsers);
      }
    }
  }

  /** Whatever the slots, the built lists have equal length, parameter `i`
      is named "@param_i" and every condition is non-blank. */
  lemma BuildConditionsParallel(slots: seq<FilterSlot>, catalog: map<string, string>, parsers: Parsers)
    ensures BuildConditions(slots, catalog, parsers).Ok? ==>
              Parallel(BuildConditions(slots, catalog, parsers).value.0,
                       BuildConditions(slots, catalog, parsers).value.1)
  {
    AddAllParallel([], [], slots, catalog, parsers);
  }

  /** Parameter names are pairwise distinct. */
  lemma ParamNamesDistinct(i: nat, j: nat)
    requires i != j
    ensures ParamName(i) != ParamName(j)
  {
  }

  /** Building fails exactly when some active slot names a column the
      catalog does not know. */
  lemma {:induction false} AddAllErrIff(conds: seq<string>, params: seq<SqlParam>, slots: seq<FilterSlot>,
                                         catalog: map<string, string>, parsers: Parsers)
    ensures AddAll(conds, params, slots, catalog, parsers).Err? <==>
              exists k :: 0 <= k < |slots| && !Inactive(slots[k]) && slots[k].column.value !in catalog
    decreases |slots|
  {
    if slots != [] {
      var r := AddFilterCondition(conds, params, slots[0], catalog, parsers);
      if r.Ok? {
        AddAllErrIff(r.value.0, r.value.1, slots[1..], catalog, parsers);
        if exists k :: 0 <= k < |slots| && !Inactive(slots[k]) && slots[k].column.value !in catalog {
          var k :| 0 <= k < |slots| && !Inactive(slots[k]) && slots[k].column.value !in catalog;
          assert k != 0;
          assert slots[1..][k - 1] == slots[k];
        }
        if exists k :: 0 <= k < |slots[1..]| && !Inactive(slots[1..][k]) && slots[1..][k].column.value !in catalog {
          var k :| 0 <= k < |slots[1..]| && !Inactive(slots[1..][k]) && slots[1..][k].column.value !in catalog;
          assert slots[k + 1] == slots[1..][k];
        }
      }
    }
  }

  /** Processing slots `a + b` is processing `a`, then `b` from where `a`
      left off. */
  lemma {:induction false} AddAllAppend(conds: seq<string>, params: seq<SqlParam>, a: seq<FilterSlot>, b: seq<FilterSlot>,
                                         catalog: map<string, string>, parsers: Parsers)
    ensures AddAll(conds, params, a + b, catalog, parsers) ==
              match AddAll(conds, params, a, catalog, parsers)
              case Err(e) => Err(e)
              case Ok(acc) => AddAll(acc.0, acc.1, b, catalog, parsers)
    decreases |a|
  {
    if a == [] {
      assert a + b == b;
    } else {
      assert (a + b)[0] == a[0];
      assert (a + b)[1..] == a[1..] + b;
      var r := AddFilterCondition(conds, params, a[0], catalog, parsers);
      if r.Ok? {
        AddAllAppend(r.value.0, r.value.1, a[1..], b, catalog, parsers);
      }
    }
  }

  /** A silent slot can be removed without changing the result: blank text,
      no selected column, or unparseable numeric or date text never adds a
      condition, never shifts a later parameter's name, and raises nothing. */
  lemma SilentSlotIgnored(a: seq<FilterSlot>, s: FilterSlot, b: seq<FilterSlot>,
                          catalog: map<string, string>, parsers: Parsers)
    requires Silent(s, catalog, parsers)
    ensures BuildConditions(a + [s] + b, catalog, parsers) == BuildConditions(a + b, catalog, parsers)
  {
    AddAllAppend([], [], a, [s] + b, catalog, parsers);
    AddAllAppend([], [], a, b, catalog, parsers);
    assert a + [s] + b == a + ([s] + b);
    var r := AddAll([], [], a, catalog, parsers);
    if r.Ok? {
      assert ([s] + b)[0] == s;
      assert ([s] + b)[1..] == b;
    }
  }

  /** The filter value never reaches the SQL text: two slots on the same
      column that both contribute at the same position produce the same
      condition, whatever their texts. */
  lemma ConditionIgnoresText(conds: seq<string>, params: seq<SqlParam>, s1: FilterSlot, s2: FilterSlot,
                             catalog: map<string, string>, parsers: Parsers)
    requires s1.column == s2.column
    requires AddFilterCondition(conds, params, s1, catalog, parsers).Ok?
    requires AddFilterCondition(conds, params, s2, catalog, parsers).Ok?
    requires !Silent(s1, catalog, parsers) && !Silent(s2, catalog, parsers)
    ensures AddFilterCondition(conds, params, s1, catalog, parsers).value.0
         == AddFilterCondition(conds, params, s2, catalog, parsers).value.0
  {
  }

  /** The WHERE clause: the non-blank conditions joined with " AND ". */
  function WhereClause(conds: seq<string>): string {
    Join(" AND ", Where(conds, (c: string) => !IsBlank(c)))
  }

  /** For the conditions the builder produces, the clause is their plain
      join in slot order, and it is empty exactly when there are none. */
  lemma WhereClauseOfBuilt(conds: seq<string>, params: seq<SqlParam>)
    requires Parallel(conds, params)
    ensures WhereClause(conds) == Join(" AND ", conds)
    ensures WhereClause(conds) == [] <==> conds == []
  {
    var keep := (c: string) => !IsBlank(c);
    WhereAllIff(conds, keep);
    forall i | 0 <= i < |conds| ensures conds[i] != [] {
      assert !IsBlank(conds[i]);
    }
    JoinEmptyIff(" AND ", conds);
  }

  /** `BuildDatabaseFilterString`: the conditions joined with " AND ", and
      the parameters bound to them. */
  function BuildDatabaseFilterString(slots: seq<FilterSlot>, catalog: map<string, string>, parsers: Parsers)
    : (r: Result<(string, seq<SqlParam>), FilterError>)
    ensures r.Err? <==> exists k :: 0 <= k < |slots| && !Inactive(slots[k]) && slots[k].column.value !in catalog
    ensures r.Ok? ==> (r.value.0 == [] <==> r.value.1 == [])
    ensures r.Ok? ==> forall i :: 0 <= i < |r.value.1| ==> r.value.1[i].name == ParamName(i)
    ensures r.Ok? ==> && BuildConditions(slots, catalog, parsers).Ok?
                      && r.value.0 == Join(" AND ", BuildConditions(slots, catalog, parsers).value.0)
                      && r.value.1 == BuildConditions(slots, catalog, parsers).value.1
  {
    AddAllErrIff([], [], slots, catalog, parsers);
    match BuildConditions(slots, catalog, parsers)
    case Err(e) => Err(e)
    case Ok(acc) =>
      BuildConditionsParallel(slots, catalog, parsers);
      WhereClauseOfBuilt(acc.0, acc.1);
      Ok((WhereClause(acc.0), acc.1))
  }

  /** A bigint column is still filtered through the Int32 parser, so a
      well-formed bigint value beyond Int32 silently drops its slot. */
  lemma BigintFilterUsesInt32(col: string, n: nat, catalog: map<string, string>, parsers: Parsers)
    requires col in catalog && catalog[col] == "bigint"
    requires n > Int32Max
    ensures Silent(FilterSlot(FormatNat(n), Some(col)), catalog, parsers)
  {
    var s := FormatNat(n);
    TrimByNoop(s, IsWhiteSpace);
    assert Trim(s) == s;
    ParseRejectsBeyondInt32(n);
    BigintIsInteger();
    assert TypedValue(SqlInteger, s, parsers).None?;
  }

  lemma BigintIsInteger()
    ensures CategoryOf("bigint") == SqlInteger
  {
    LowerNoUpper("bigint");
  }
}
