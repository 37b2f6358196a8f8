/** Pagination of the table editor: fixed pages of 15 rows, numbered from
    1, each fetched with a ROW_NUMBER window, and the page count derived
    from a separate COUNT query (`LoadPagedData`, `LoadFilteredData`,
    `UpdatePaginationStatus`). Queries are structured values; they are
    never evaluated. */
module Paging {

  import opened Base
  import opened Text

  const PageSize: nat := 15

  /** `(int)Math.Ceiling((double)total / PageSize)`, as integer ceiling
      division: the fewest pages that hold `total` rows. */
  function TotalPages(total: nat): (n: nat)
    ensures n * PageSize >= total
    ensures n == 0 || (n - 1) * PageSize < total
  {
    (total + PageSize - 1) / PageSize
  }

  /** First row number (1-based, inclusive) of a page. */
  function FirstRow(page: int): int {
    (page - 1) * PageSize + 1
  }

  /** Last row number (inclusive) of a page. */
  function LastRow(page: int): int {
    page * PageSize
  }

  /** Row `row` is requested by page `page`. */
  predicate OnPage(page: int, row: int) {
    FirstRow(page) <= row <= LastRow(page)
  }

  /** The page that requests a given row. */
  function PageOf(row: int): (page: int)
    requires row >= 1
    ensures page >= 1
  {
    (row - 1) / PageSize + 1
  }

  /** Every row number is requested by exactly one page: pages are
      disjoint and leave no gaps. */
  lemma OnPageIff(page: int, row: int)
    requires row >= 1
    ensures OnPage(page, row) <==> page == PageOf(row)
  {
    var q := (row - 1) / PageSize;
    assert q * PageSize <= row - 1 < q * PageSize + PageSize;
  }

  /** Two different pages never request the same row. */
  lemma PagesDisjoint(p: int, q: int, row: int)
    requires p != q
    ensures !(OnPage(p, row) && OnPage(q, row))
  {
    if row >= 1 {
      OnPageIff(p, row);
      OnPageIff(q, row);
    }
  }

  /** Each page requests exactly `PageSize` row numbers, and the next page
      starts right after it ends. */
  lemma PageSpan(page: int)
    ensures LastRow(page) - FirstRow(page) + 1 == PageSize
    ensures FirstRow(page + 1) == LastRow(page) + 1
  {
  }

  /** The pages 1 .. TotalPages(total) request exactly the rows
      1 .. total, and no page beyond them requests any of those rows. */
  lemma PagesCoverRows(total: nat, row: int)
    requires row >= 1
    ensures row <= total ==> PageOf(row) <= TotalPages(total)
    ensures PageOf(row) <= TotalPages(total) ==> row <= TotalPages(total) * PageSize
  {
    OnPageIff(PageOf(row), row);
    var n := TotalPages(total);
    if PageOf(row) <= n {
      assert row <= PageOf(row) * PageSize <= n * PageSize;
    }
  }

  /** `SELECT COUNT(*) FROM [table]`, with an optional WHERE clause. */
  datatype CountQuery = CountQuery(table: string, where: Option<string>)

  /** `SELECT * FROM (SELECT *, ROW_NUMBER() ... AS RowNum FROM [table]
      [WHERE ...]) AS Paged WHERE RowNum BETWEEN first AND last`. */
  datatype PageQuery = PageQuery(table: string, where: Option<string>, firstRow: int, lastRow: int)

  /** The two queries one load issues, in order. */
  datatype Fetch = Fetch(count: CountQuery, page: PageQuery)

  /** The WHERE part is attached only when the clause is non-blank. */
  function WherePart(whereClause: string): (w: Option<string>)
    ensures w.None? <==> IsBlank(whereClause)
    ensures w.Some? ==> w.value == whereClause
  {
    if IsBlank(whereClause) then None else Some(whereClause)
  }

  /** `LoadFilteredData`: the count and the page under the same optional
      WHERE clause. */
  function FilteredFetch(table: string, page: int, whereClause: string): (f: Fetch)
    ensures f.count.where == f.page.where
    ensures f.page.where.None? <==> IsBlank(whereClause)
    ensures f.page.where.Some? ==> f.page.where.value == whereClause
    ensures OnPage(page, f.page.firstRow) && OnPage(page, f.page.lastRow)
    ensures f.page.lastRow - f.page.firstRow + 1 == PageSize
  {
    var w := WherePart(whereClause);
    Fetch(CountQuery(table, w), PageQuery(table, w, FirstRow(page), LastRow(page)))
  }

  /** `LoadPagedData`: the unfiltered count and page. */
  function PlainFetch(table: string, page: int): (f: Fetch)
    ensures f.count.where.None? && f.page.where.None?
    ensures OnPage(page, f.page.firstRow) && OnPage(page, f.page.lastRow)
    ensures f.page.lastRow - f.page.firstRow + 1 == PageSize
  {
    Fetch(CountQuery(table, None), PageQuery(table, None, FirstRow(page), LastRow(page)))
  }
}
