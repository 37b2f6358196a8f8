/** The paging and filtering state machine of one table window
    (`TableWindow`): which page is shown, how many records the last COUNT
    reported, what the three filter rows hold, and which queries each button
    issues. The COUNT answer of each load is an input. */
module TableView {

  import opened Base
  import opened Text
  import opened Paging
  import opened TableFilter

  /** The state a table window keeps between events. */
  datatype View = View(table: string, page: int, total: nat, slots: seq<FilterSlot>)

  /** The page number never drops below 1. */
  predicate Valid(v: View) {
    v.page >= 1
  }

  /** One load: its two queries, the parameters bound to both, and whether
      the "Data Loaded" message box announces the page afterwards. */
  datatype Load = Load(fetch: Fetch, params: seq<SqlParam>, announce: bool)

  /** The three filter rows, emptied. */
  const ClearedSlots: seq<FilterSlot> := [FilterSlot("", None), FilterSlot("", None), FilterSlot("", None)]

  /** The window opens on page 1 with an unfiltered load. */
  function Open(table: string, count: nat): (r: (View, Load))
    ensures Valid(r.0) && r.0.page == 1 && r.0.total == count
    ensures r.1.fetch.page.where.None? && r.1.params == []
    ensures r.1.fetch.page.firstRow == 1 && r.1.fetch.page.lastRow == PageSize
    ensures r.1.announce
  {
    (View(table, 1, count, ClearedSlots), Load(PlainFetch(table, 1), [], true))
  }

  /** `btnNextPage_Click`: advances only while the current page is before
      the last one, and then reloads the next page WITHOUT the filter
      (`LoadPagedData`), taking the new COUNT. */
  function NextPage(v: View, count: nat): (r: (View, Option<Load>))
    ensures r.1.Some? <==> v.page < TotalPages(v.total)
    ensures r.1.Some? ==> (&& r.0 == v.(page := v.page + 1, total := count)
                           && r.1.value.fetch.page.where.None? && r.1.value.params == []
                           && OnPage(v.page + 1, r.1.value.fetch.page.firstRow)
                           && r.1.value.fetch == PlainFetch(v.table, v.page + 1)
                           && !r.1.value.announce)
    ensures r.1.None? ==> r.0 == v
  {
    if v.page < TotalPages(v.total) then
      var p := v.page + 1;
      (v.(page := p, total := count), Some(Load(PlainFetch(v.table, p), [], false)))
    else (v, None)
  }

  /** `btnPreviousPage_Click`: goes back only from a page after the first,
      again through the unfiltered load. */
  function PreviousPage(v: View, count: nat): (r: (View, Option<Load>))
    ensures r.1.Some? <==> v.page > 1
    ensures r.1.Some? ==> (&& r.0 == v.(page := v.page - 1, total := count)
                           && r.1.value.fetch.page.where.None? && r.1.value.params == []
                           && r.1.value.fetch == PlainFetch(v.table, v.page - 1)
                           && !r.1.value.announce)
    ensures r.1.None? ==> r.0 == v
    ensures Valid(v) ==> Valid(r.0)
  {
    if v.page > 1 then
      var p := v.page - 1;
      (v.(page := p, total := count), Some(Load(PlainFetch(v.table, p), [], false)))
    else (v, None)
  }

  /** `btnRefresh_Click`: back to page 1, unfiltered and announced, filter
      rows cleared. */
  function Refresh(v: View, count: nat): (r: (View, Load))
    ensures r.0.page == 1 && r.0.total == count && r.0.table == v.table
    ensures forall k :: 0 <= k < |r.0.slots| ==> Inactive(r.0.slots[k])
    ensures r.1.fetch == PlainFetch(v.table, 1) && r.1.params == []
    ensures r.1.announce
  {
    (View(v.table, 1, count, ClearedSlots), Load(PlainFetch(v.table, 1), [], true))
  }

  /** `btnClearFilter_Click`: clears the filter rows, then page 1,
      unfiltered; unlike Refresh, the page is not announced. */
  function ClearFilter(v: View, count: nat): (r: (View, Load))
    ensures r.0.page == 1 && r.0.total == count && r.0.table == v.table
    ensures forall k :: 0 <= k < |r.0.slots| ==> Inactive(r.0.slots[k])
    ensures r.1.fetch == PlainFetch(v.table, 1) && r.1.params == []
    ensures !r.1.announce
  {
    (View(v.table, 1, count, ClearedSlots), Load(PlainFetch(v.table, 1), [], false))
  }

  /** `ApplyFilter`: page 1, then the filtered load; the same WHERE clause
      and parameters go to the COUNT and to the page query. On a failed
      type lookup the page is already reset and the count is kept. */
  function ApplyFilter(v: View, slots: seq<FilterSlot>, catalog: map<string, string>,
                       parsers: Parsers, count: nat): (r: (View, Result<Load, FilterError>))
    ensures r.0.page == 1 && r.0.slots == slots && r.0.table == v.table
    ensures r.1.Ok? ==> r.0.total == count
    ensures r.1.Err? ==> r.0.total == v.total
    ensures r.1.Ok? <==> BuildDatabaseFilterString(slots, catalog, parsers).Ok?
    ensures r.1.Ok? ==>
      && r.1.value.params == BuildDatabaseFilterString(slots, catalog, parsers).value.1
      && r.1.value.fetch.count.where == r.1.value.fetch.page.where
      && (r.1.value.fetch.page.where.None? <==> r.1.value.params == [])
      && r.1.value.fetch.page.where == WherePart(BuildDatabaseFilterString(slots, catalog, parsers).value.0)
      && r.1.value.fetch.page.firstRow == 1
      && !r.1.value.announce
  {
    match BuildDatabaseFilterString(slots, catalog, parsers)
    case Err(e) => (v.(page := 1, slots := slots), Err(e))
    case Ok(built) =>
      var whereClause := built.0;
      assert IsBlank(whereClause) <==> whereClause == [] by {
        var conds := BuildConditions(slots, catalog, parsers).value.0;
        BuildConditionsParallel(slots, catalog, parsers);
        WhereClauseOfBuilt(conds, built.1);
        BlankBuiltClauseIsEmpty(slots, catalog, parsers);
      }
      (View(v.table, 1, count, slots), Ok(Load(FilteredFetch(v.table, 1, whereClause), built.1, false)))
  }

  /** A clause built from at least one condition is not blank: it starts
      with the first condition, which is not blank. */
  lemma BlankBuiltClauseIsEmpty(slots: seq<FilterSlot>, catalog: map<string, string>, parsers: Parsers)
    requires BuildConditions(slots, catalog, parsers).Ok?
    ensures var conds := BuildConditions(slots, catalog, parsers).value.0;
            IsBlank(Join(" AND ", conds)) ==> conds == []
  {
    var conds := BuildConditions(slots, catalog, parsers).value.0;
    BuildConditionsParallel(slots, catalog, parsers);
    if conds != [] {
      JoinStartsWithFirst(" AND ", conds);
      var c := conds[0];
      assert !IsBlank(c);
      var k :| 0 <= k < |c| && !IsWhiteSpace(c[k]);
      assert Join(" AND ", conds)[k] == c[k];
    }
  }

  lemma JoinStartsWithFirst(sep: string, parts: seq<string>)
    requires parts != []
    ensures |Join(sep, parts)| >= |parts[0]| && Join(sep, parts)[..|parts[0]|] == parts[0]
  {
  }

  /** User actions on a table window, with the COUNT answer each reload
      receives. */
  datatype Event =
    | NextClicked(count: nat)
    | PreviousClicked(count: nat)
    | RefreshClicked(count: nat)
    | ClearClicked(count: nat)
    | FilterChanged(slots: seq<FilterSlot>, count: nat)

  function Step(v: View, e: Event, catalog: map<string, string>, parsers: Parsers): View {
    match e
    case NextClicked(c) => NextPage(v, c).0
    case PreviousClicked(c) => PreviousPage(v, c).0
    case RefreshClicked(c) => Refresh(v, c).0
    case ClearClicked(c) => ClearFilter(v, c).0
    case FilterChanged(s, c) => ApplyFilter(v, s, catalog, parsers, c).0
  }

  function Run(v: View, events: seq<Event>, catalog: map<string, string>, parsers: Parsers): View
    decreases |events|
  {
    if events == [] then v else Run(Step(v, events[0], catalog, parsers), events[1..], catalog, parsers)
  }

  /** No sequence of actions takes the page number below 1. */
  lemma {:induction false} RunKeepsValid(v: View, events: seq<Event>, catalog: map<string, string>, parsers: Parsers)
    requires Valid(v)
    ensures Valid(Run(v, events, catalog, parsers))
    decreases |events|
  {
    if events != [] {
      var w := Step(v, events[0], catalog, parsers);
      assert Valid(w);
      RunKeepsValid(w, events[1..], catalog, parsers);
    }
  }

  /** Paging only, against a table whose COUNT does not change: the page
      stays between 1 and the last page (or 1 when the table is empty). */
  predicate InRange(v: View) {
    1 <= v.page <= if TotalPages(v.total) == 0 then 1 else TotalPages(v.total)
  }

  predicate PagingOnly(events: seq<Event>, total: nat) {
    forall k :: 0 <= k < |events| ==>
      (events[k].NextClicked? || events[k].PreviousClicked?) && events[k].count == total
  }

  lemma {:induction false} PagingStaysInRange(v: View, events: seq<Event>, catalog: map<string, string>, parsers: Parsers)
    requires InRange(v) && PagingOnly(events, v.total)
    ensures InRange(Run(v, events, catalog, parsers))
    ensures Run(v, events, catalog, parsers).total == v.total
    decreases |events|
  {
    if events != [] {
      var w := Step(v, events[0], catalog, parsers);
      assert w.total == v.total && InRange(w);
      assert PagingOnly(events[1..], w.total) by {
        forall k | 0 <= k < |events[1..]| ensures events[1..][k] == events[k + 1] { }
      }
      PagingStaysInRange(w, events[1..], catalog, parsers);
    }
  }

  /** Once a filter has narrowed the rows, paging forward loads the next
      page of the UNFILTERED table: the filter is lost on the first page
      change, while the page count still comes from the filtered COUNT. */
  lemma NextAfterFilterDropsWhere(v: View, slots: seq<FilterSlot>, catalog: map<string, string>,
                                  parsers: Parsers, filteredCount: nat, count: nat)
    requires ApplyFilter(v, slots, catalog, parsers, filteredCount).1.Ok?
    requires ApplyFilter(v, slots, catalog, parsers, filteredCount).1.value.params != []
    requires filteredCount > PageSize
    ensures var w := ApplyFilter(v, slots, catalog, parsers, filteredCount).0;
            && ApplyFilter(v, slots, catalog, parsers, filteredCount).1.value.fetch.page.where.Some?
            && NextPage(w, count).1.Some?
            && NextPage(w, count).1.value.fetch.page.where.None?
  {
  }
}
