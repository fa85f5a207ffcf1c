/**
 * The row-set meaning of the list query (db.js, `getStudents`): an optional
 * case-insensitive substring filter on one column, applied to the rows and
 * to the count alike; an ORDER BY on a whitelisted column in one of two
 * directions; and a LIMIT/OFFSET window with the total and page count.
 */
module Listing {
  import opened Model
  import opened Text

  /** The options the list query receives, after the request layer has defaulted them. */
  datatype ListOptions = ListOptions(
    filterColumn: string,
    filterKeyword: string,
    sortField: string,
    sortOrder: string,
    page: int,
    pageSize: int)

  /** The list query's answer: one page of rows, the count of all matching rows, the page count and the page asked for. */
  datatype Page = Page(list: seq<Row>, total: nat, totalPages: int, currentPage: int)

  // ---------------------------------------------------------------------------
  // Filtering

  /** A WHERE clause: none, or `"<column>" ILIKE '%<pattern>%'`. */
  datatype Filter = NoFilter | Where(column: Column, pattern: string)

  /**
   * The WHERE clause the two filter options produce. The column name is
   * quoted, so it must be one of the eight names exactly; an unknown name
   * makes the count query fail with the message PostgreSQL reports, and so
   * do the integer column `id` and the DATE column `birthDate`, for which
   * PostgreSQL has no ILIKE operator. The keyword of a text column is
   * lower-cased; the verbatim keyword of the `birthDate` branch never
   * reaches a row.
   */
  function ResolveFilter(column: string, keyword: string): Result<Filter, string> {
    if column == "" || keyword == "" then Ok(NoFilter)
    else
      match ParseColumn(column)
      case None => Err("column \"" + column + "\" does not exist")
      case Some(Id) => Err("operator does not exist: integer ~~* unknown")
      case Some(BirthDate) => Err("operator does not exist: date ~~* unknown")
      case Some(c) => Ok(Where(c, Lower(keyword)))
  }

  predicate Matches(r: Row, f: Filter) {
    match f
    case NoFilter => true
    case Where(c, p) => c != Id && ILike(Field(r.student, c), p)
  }

  /**
   * The filter applies exactly when both options are non-empty, and then
   * selects the rows whose named column contains the keyword, ignoring case
   * (the lower-cased and the verbatim keyword of the two branches agree).
   */
  lemma ResolveFilterMeaning(column: string, keyword: string, r: Row)
    ensures column == "" || keyword == "" ==> ResolveFilter(column, keyword) == Ok(NoFilter)
    ensures column != "" && keyword != "" && ResolveFilter(column, keyword).Ok? ==>
              var f := ResolveFilter(column, keyword).value;
              f.Where? && ColumnName(f.column) == column && f.column != Id && f.column != BirthDate &&
              (Matches(r, f) <==> ILike(Field(r.student, f.column), keyword))
    ensures column != "" && keyword != "" ==>
              (ResolveFilter(column, keyword).Err? <==>
                 ParseColumn(column).None? || column == "id" || column == "birthDate")
  {
    if column != "" && keyword != "" {
      ILikeLowerKeyword(if ParseColumn(column).Some? && ParseColumn(column).value != Id
                        then Field(r.student, ParseColumn(column).value) else "", keyword);
    }
  }

  /** `SELECT * FROM students WHERE ...`: the matching rows, in table order. */
  function Filtered(rows: seq<Row>, f: Filter): seq<Row> {
    if rows == [] then []
    else if Matches(rows[0], f) then [rows[0]] + Filtered(rows[1..], f)
    else Filtered(rows[1..], f)
  }

  /** The filter keeps exactly the matching rows, and keeps every row when there is none. */
  lemma {:induction false} FilteredContents(rows: seq<Row>, f: Filter)
    ensures forall x :: x in Filtered(rows, f) <==> x in rows && Matches(x, f)
    ensures |Filtered(rows, f)| <= |rows|
    ensures f.NoFilter? ==> Filtered(rows, f) == rows
  {
    if rows != [] {
      FilteredContents(rows[1..], f);
      assert rows == [rows[0]] + rows[1..];
    }
  }

  // ---------------------------------------------------------------------------
  // Ordering

  /** The ORDER BY column: the sort field if it is one of the eight column names, otherwise `id`. */
  function SortColumn(field: string): (c: Column)
    ensures ParseColumn(field).Some? ==> ColumnName(c) == field
    ensures ParseColumn(field).None? ==> c == Id
  {
    match ParseColumn(field)
    case Some(c) => c
    case None => Id
  }

  /** DESC only when the sort order is exactly "desc". */
  predicate Descending(order: string) {
    order == "desc"
  }

  /** Ascending order on one column: by key for `id`, lexicographically for text. */
  predicate KeyLe(x: Row, y: Row, c: Column) {
    if c == Id then x.id <= y.id else LexLe(Field(x.student, c), Field(y.student, c))
  }

  /** `x` may precede `y` in the ordered result. */
  predicate Before(x: Row, y: Row, c: Column, desc: bool) {
    if desc then KeyLe(y, x, c) else KeyLe(x, y, c)
  }

  lemma BeforeTotal(x: Row, y: Row, c: Column, desc: bool)
    ensures Before(x, y, c, desc) || Before(y, x, c, desc)
  {
    if c != Id {
      LexLeTotal(Field(x.student, c), Field(y.student, c));
    }
  }

  lemma BeforeTransitive(x: Row, y: Row, z: Row, c: Column, desc: bool)
    requires Before(x, y, c, desc) && Before(y, z, c, desc)
    ensures Before(x, z, c, desc)
  {
    if c != Id {
      if desc {
        LexLeTransitive(Field(z.student, c), Field(y.student, c), Field(x.student, c));
      } else {
        LexLeTransitive(Field(x.student, c), Field(y.student, c), Field(z.student, c));
      }
    }
  }

  predicate Sorted(s: seq<Row>, c: Column, desc: bool) {
    forall i, j :: 0 <= i < j < |s| ==> Before(s[i], s[j], c, desc)
  }

  function Insert(x: Row, s: seq<Row>, c: Column, desc: bool): seq<Row> {
    if s == [] then [x]
    else if Before(x, s[0], c, desc) then [x] + s
    else [s[0]] + Insert(x, s[1..], c, desc)
  }

  lemma {:induction false} InsertPermutes(x: Row, s: seq<Row>, c: Column, desc: bool)
    ensures multiset(Insert(x, s, c, desc)) == multiset([x] + s)
  {
    if s != [] && !Before(x, s[0], c, desc) {
      InsertPermutes(x, s[1..], c, desc);
      assert s == [s[0]] + s[1..];
    }
  }

  lemma SortedTail(s: seq<Row>, c: Column, desc: bool)
    requires s != [] && Sorted(s, c, desc)
    ensures Sorted(s[1..], c, desc)
  {
    forall i, j | 0 <= i < j < |s[1..]| ensures Before(s[1..][i], s[1..][j], c, desc) {
      assert s[1..][i] == s[i + 1] && s[1..][j] == s[j + 1];
    }
  }

  lemma SortedCons(y: Row, t: seq<Row>, c: Column, desc: bool)
    requires Sorted(t, c, desc)
    requires forall z :: z in t ==> Before(y, z, c, desc)
    ensures Sorted([y] + t, c, desc)
  {
    var r := [y] + t;
    forall i, j | 0 <= i < j < |r| ensures Before(r[i], r[j], c, desc) {
      assert r[j] == t[j - 1];
      if i > 0 {
        assert r[i] == t[i - 1];
      }
    }
  }

  lemma {:induction false} InsertSorted(x: Row, s: seq<Row>, c: Column, desc: bool)
    requires Sorted(s, c, desc)
    ensures Sorted(Insert(x, s, c, desc), c, desc)
  {
    if s == [] {
      assert Insert(x, s, c, desc) == [x];
    } else if Before(x, s[0], c, desc) {
      forall z | z in s ensures Before(x, z, c, desc) {
        var k :| 0 <= k < |s| && s[k] == z;
        if k > 0 {
          BeforeTransitive(x, s[0], z, c, desc);
        }
      }
      SortedCons(x, s, c, desc);
    } else {
      BeforeTotal(x, s[0], c, desc);
      var t := Insert(x, s[1..], c, desc);
      SortedTail(s, c, desc);
      InsertSorted(x, s[1..], c, desc);
      InsertPermutes(x, s[1..], c, desc);
      forall z | z in t ensures Before(s[0], z, c, desc) {
        assert z in multiset(t);
        assert z in multiset([x] + s[1..]);
        if z != x {
          assert z in s[1..];
          var k :| 0 <= k < |s[1..]| && s[1..][k] == z;
          assert s[k + 1] == z;
        }
      }
      SortedCons(s[0], t, c, desc);
    }
  }

  /** `ORDER BY <c> ASC|DESC`, with rows of equal key kept in table order. */
  function SortRows(s: seq<Row>, c: Column, desc: bool): seq<Row> {
    if s == [] then [] else Insert(s[0], SortRows(s[1..], c, desc), c, desc)
  }

  /** Ordering yields the same rows, each as often as before, in the requested order. */
  lemma {:induction false} SortRowsCorrect(s: seq<Row>, c: Column, desc: bool)
    ensures Sorted(SortRows(s, c, desc), c, desc)
    ensures multiset(SortRows(s, c, desc)) == multiset(s)
  {
    if s != [] {
      SortRowsCorrect(s[1..], c, desc);
      InsertSorted(s[0], SortRows(s[1..], c, desc), c, desc);
      InsertPermutes(s[0], SortRows(s[1..], c, desc), c, desc);
      assert s == [s[0]] + s[1..];
    }
  }

  // ---------------------------------------------------------------------------
  // Pagination

  /** `LIMIT size OFFSET offset`. */
  function Window(s: seq<Row>, offset: int, size: int): seq<Row>
    requires offset >= 0 && size >= 1
  {
    if offset >= |s| then []
    else s[offset..if offset + size <= |s| then offset + size else |s|]
  }

  /** `total === 0 ? 1 : Math.ceil(total / pageSize)`. */
  function TotalPages(total: nat, pageSize: int): int
    requires pageSize >= 1
  {
    if total == 0 then 1
    else if total % pageSize == 0 then total / pageSize
    else total / pageSize + 1
  }

  /** `LIMIT size OFFSET offset` holds the rows from the offset on: `size` of them, or as many as remain. */
  lemma WindowContents(s: seq<Row>, offset: int, size: int)
    requires offset >= 0 && size >= 1
    ensures var w := Window(s, offset, size);
      && |w| == (if offset >= |s| then 0 else if |s| - offset < size then |s| - offset else size)
      && (forall k :: 0 <= k < |w| ==> w[k] == s[offset + k])
  {
  }

  /** There is always at least one page, and a non-empty result fills its pages but the last exactly. */
  lemma TotalPagesBounds(total: nat, pageSize: int)
    requires pageSize >= 1
    ensures TotalPages(total, pageSize) >= 1
    ensures total == 0 ==> TotalPages(total, pageSize) == 1
    ensures total > 0 ==> (TotalPages(total, pageSize) - 1) * pageSize < total <= TotalPages(total, pageSize) * pageSize
  {
    if total > 0 {
      var q, r := total / pageSize, total % pageSize;
      assert total == q * pageSize + r;
      if r != 0 {
        assert (q + 1) * pageSize == q * pageSize + pageSize;
      }
    }
  }

  lemma MulMonotone(a: int, b: int, k: int)
    requires a <= b && k >= 0
    ensures a * k <= b * k
  {
  }

  /** The offset of page `page`, `(page - 1) * pageSize`: never negative. */
  function Offset(page: int, pageSize: int): nat
    requires page >= 1 && pageSize >= 1
  {
    MulMonotone(0, page - 1, pageSize);
    (page - 1) * pageSize
  }

  /** The window of page `page`: the rows from `(page-1)*pageSize` on, `pageSize` of them or as many as remain; pages up to the page count are non-empty for a non-empty result, later ones empty. */
  lemma WindowBounds(s: seq<Row>, page: int, pageSize: int)
    requires page >= 1 && pageSize >= 1
    ensures var off, w := (page - 1) * pageSize, Window(s, (page - 1) * pageSize, pageSize);
      && |w| == (if off >= |s| then 0 else if |s| - off < pageSize then |s| - off else pageSize)
      && |w| <= pageSize
      && (forall k :: 0 <= k < |w| ==> w[k] == s[(page - 1) * pageSize + k])
      && (|s| > 0 && page <= TotalPages(|s|, pageSize) ==> |w| >= 1)
      && (page > TotalPages(|s|, pageSize) ==> w == [])
  {
    var offset := (page - 1) * pageSize;
    MulMonotone(0, page - 1, pageSize);
    WindowContents(s, offset, pageSize);
    TotalPagesBounds(|s|, pageSize);
    var tp := TotalPages(|s|, pageSize);
    if page > tp {
      MulMonotone(tp, page - 1, pageSize);
    } else if |s| > 0 {
      MulMonotone(page - 1, tp - 1, pageSize);
    }
  }

  // ---------------------------------------------------------------------------
  // The whole query

  /** Sorting on `studentId` or `birthDate` makes the list query fail, since the unquoted names fold to lower case. */
  predicate SortQueryFails(sortField: string) {
    SortColumn(sortField) == StudentId || SortColumn(sortField) == BirthDate
  }

  /** The largest value of PostgreSQL's `bigint`, the type of the LIMIT and OFFSET parameters. */
  const BIGINT_MAX := 0x7fff_ffff_ffff_ffff

  /** The list query's LIMIT and OFFSET are both positive or zero and both fit `bigint`; otherwise the list query fails. */
  predicate PageInRange(page: int, pageSize: int) {
    page >= 1 && pageSize >= 1 && pageSize <= BIGINT_MAX && Offset(page, pageSize) <= BIGINT_MAX
  }

  /**
   * The request gets an answer: the list query runs only after the count
   * query succeeds, and a failing list query dereferences an undefined
   * result, so a sort that fails, or a LIMIT or OFFSET past `bigint`, is
   * survived only when the count query has already failed.
   */
  predicate Answered(o: ListOptions) {
    ResolveFilter(o.filterColumn, o.filterKeyword).Err? ||
    (!SortQueryFails(o.sortField) && PageInRange(o.page, o.pageSize))
  }

  /** The page the list query returns once the filter is resolved. */
  function PageOf(rows: seq<Row>, f: Filter, o: ListOptions): Page
    requires o.page >= 1 && o.pageSize >= 1
  {
    var matching := Filtered(rows, f);
    var total := |matching|;
    Page(Window(SortRows(matching, SortColumn(o.sortField), Descending(o.sortOrder)), Offset(o.page, o.pageSize), o.pageSize),
         total, TotalPages(total, o.pageSize), o.page)
  }

  /** The list query's answer: the count query's error, or the page. */
  function List(rows: seq<Row>, o: ListOptions): Result<Page, string>
    requires o.page >= 1 && o.pageSize >= 1
    requires Answered(o)
  {
    match ResolveFilter(o.filterColumn, o.filterKeyword)
    case Err(m) => Err(m)
    case Ok(f) => Ok(PageOf(rows, f, o))
  }

  /**
   * Which rows a page holds: the matching rows in the requested order,
   * from offset `(page-1)*pageSize` on, a full page of them or as many as
   * remain.
   */
  lemma PageOfContents(rows: seq<Row>, f: Filter, o: ListOptions)
    requires o.page >= 1 && o.pageSize >= 1
    ensures var p := PageOf(rows, f, o);
      var s, off := SortRows(Filtered(rows, f), SortColumn(o.sortField), Descending(o.sortOrder)), Offset(o.page, o.pageSize);
      && |s| == |Filtered(rows, f)|
      && (forall k :: 0 <= k < |p.list| ==> p.list[k] == s[off + k])
      && |p.list| == (if off >= |s| then 0 else if |s| - off < o.pageSize then |s| - off else o.pageSize)
  {
    var matching := Filtered(rows, f);
    var sorted := SortRows(matching, SortColumn(o.sortField), Descending(o.sortOrder));
    SortRowsCorrect(matching, SortColumn(o.sortField), Descending(o.sortOrder));
    assert |sorted| == |matching| by {
      assert |multiset(sorted)| == |multiset(matching)|;
    }
    WindowContents(sorted, Offset(o.page, o.pageSize), o.pageSize);
  }

  /** A window keeps the order of what it is cut from, and holds only its rows. */
  lemma WindowOfSorted(s: seq<Row>, offset: int, size: int, c: Column, desc: bool)
    requires offset >= 0 && size >= 1
    requires Sorted(s, c, desc)
    ensures Sorted(Window(s, offset, size), c, desc)
    ensures forall x :: x in Window(s, offset, size) ==> x in s
  {
    var w := Window(s, offset, size);
    if offset < |s| {
      forall i, j | 0 <= i < j < |w| ensures Before(w[i], w[j], c, desc) {
        assert w[i] == s[offset + i] && w[j] == s[offset + j];
      }
      forall x | x in w ensures x in s {
        var k :| 0 <= k < |w| && w[k] == x;
        assert s[offset + k] == x;
      }
    }
  }

  /** The rows of a page are matching table rows, in the requested order. */
  lemma PageOfRows(rows: seq<Row>, f: Filter, o: ListOptions)
    requires o.page >= 1 && o.pageSize >= 1
    ensures var p := PageOf(rows, f, o);
      && (forall x :: x in p.list ==> x in rows && Matches(x, f))
      && Sorted(p.list, SortColumn(o.sortField), Descending(o.sortOrder))
  {
    var c, desc := SortColumn(o.sortField), Descending(o.sortOrder);
    var sorted := SortRows(Filtered(rows, f), c, desc);
    SortRowsCorrect(Filtered(rows, f), c, desc);
    FilteredContents(rows, f);
    WindowOfSorted(sorted, Offset(o.page, o.pageSize), o.pageSize, c, desc);
    forall x | x in sorted ensures x in rows && Matches(x, f) {
      assert x in multiset(sorted);
    }
  }

  /** What a page holds: matching table rows, at most a page of them, in order; the count of all matches; the page count; the page asked for. */
  lemma PageOfFacts(rows: seq<Row>, f: Filter, o: ListOptions)
    requires o.page >= 1 && o.pageSize >= 1
    ensures var p := PageOf(rows, f, o);
      && (forall x :: x in p.list ==> x in rows && Matches(x, f))
      && |p.list| <= o.pageSize
      && Sorted(p.list, SortColumn(o.sortField), Descending(o.sortOrder))
      && p.total == |Filtered(rows, f)|
      && p.totalPages >= 1
      && (p.total == 0 ==> p.list == [] && p.totalPages == 1)
      && (p.total > 0 ==> (p.totalPages - 1) * o.pageSize < p.total <= p.totalPages * o.pageSize)
      && p.currentPage == o.page
  {
    PageOfRows(rows, f, o);
    PageOfContents(rows, f, o);
    TotalPagesBounds(|Filtered(rows, f)|, o.pageSize);
  }

  /**
   * Which rows a listed page holds: the matching rows in the requested
   * order, from offset `(page-1)*pageSize` on, a full page of them or as
   * many as remain.
   */
  lemma ListPageContents(rows: seq<Row>, o: ListOptions)
    requires o.page >= 1 && o.pageSize >= 1
    requires Answered(o)
    ensures List(rows, o).Ok? ==>
              var p, f := List(rows, o).value, ResolveFilter(o.filterColumn, o.filterKeyword).value;
              var s, off := SortRows(Filtered(rows, f), SortColumn(o.sortField), Descending(o.sortOrder)), Offset(o.page, o.pageSize);
              && |s| == |Filtered(rows, f)|
              && (forall k :: 0 <= k < |p.list| ==> p.list[k] == s[off + k])
              && |p.list| == (if off >= |s| then 0 else if |s| - off < o.pageSize then |s| - off else o.pageSize)
  {
    var r := ResolveFilter(o.filterColumn, o.filterKeyword);
    if r.Ok? {
      PageOfContents(rows, r.value, o);
    }
  }

  /**
   * What a listed page holds: rows of the table that match the filter, at
   * most a page of them, in the requested order; the count of every
   * matching row irrespective of the page; the page count; the page asked
   * for. The answer is an error exactly when the count query fails.
   */
  lemma ListFacts(rows: seq<Row>, o: ListOptions)
    requires o.page >= 1 && o.pageSize >= 1
    requires Answered(o)
    ensures List(rows, o).Err? <==> ResolveFilter(o.filterColumn, o.filterKeyword).Err?
    ensures List(rows, o).Ok? ==>
              var p, f := List(rows, o).value, ResolveFilter(o.filterColumn, o.filterKeyword).value;
              && (forall x :: x in p.list ==> x in rows && Matches(x, f))
              && |p.list| <= o.pageSize
              && Sorted(p.list, SortColumn(o.sortField), Descending(o.sortOrder))
              && p.total == |Filtered(rows, f)|
              && p.totalPages >= 1
              && (p.total == 0 ==> p.list == [] && p.totalPages == 1)
              && (p.total > 0 ==> (p.totalPages - 1) * o.pageSize < p.total <= p.totalPages * o.pageSize)
              && p.currentPage == o.page
  {
    var r := ResolveFilter(o.filterColumn, o.filterKeyword);
    if r.Ok? {
      PageOfFacts(rows, r.value, o);
    }
  }

  /** A filter selecting exactly one row puts just that row on the first page, with a total of 1 and one page. */
  lemma ListSingleMatch(rows: seq<Row>, o: ListOptions, x: Row)
    requires o.page == 1 && o.pageSize >= 1
    requires ResolveFilter(o.filterColumn, o.filterKeyword).Ok? && Answered(o)
    requires Filtered(rows, ResolveFilter(o.filterColumn, o.filterKeyword).value) == [x]
    ensures List(rows, o) == Ok(Page([x], 1, 1, 1))
  {
    var c, desc := SortColumn(o.sortField), Descending(o.sortOrder);
    assert SortRows([x], c, desc) == [x] by {
      assert [x][1..] == [];
    }
  }
}
