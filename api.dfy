/**
 * The request layer (app.js) as pure functions: the allow-list of origins,
 * the defaulting of list options, and the mapping of each data access
 * outcome to an HTTP status and a JSON body.
 */
module Api {
  import opened Model
  import opened Listing

  // ---------------------------------------------------------------------------
  // Requests and responses

  /**
   * The `student` object of a create or update body: the seven columns, and
   * an `id` property when the client sent one (the statements ignore it,
   * the object spread of the response does not).
   */
  datatype StudentBody = StudentBody(fields: Student, id: Option<int>)

  /** The JSON bodies the handlers send. */
  datatype Body =
    | Coded(code: int, kind: string, msg: string)    // { code, type, msg }
    | Missing(code: int, msg: string)                 // { code: -1, msg }
    | Record(code: int, data: Row)                    // { code: 0, data }
    | Outcome(success: bool, message: Option<string>) // { success } or { success, message }
    | Listed(success: bool, page: Page)               // { success: true, data }

  datatype Response = Response(status: int, body: Body)

  // ---------------------------------------------------------------------------
  // Cross-origin policy

  const ALLOWED_ORIGINS: seq<string> := [
    "https://xinnnnx.github.io",
    "https://xinnnnx.github.io/studentsystem",
    "http://localhost:3000",
    "http://127.0.0.1:3000"
  ]

  /** The CORS origin callback: a request without an Origin (absent or empty) or with a listed one is accepted. */
  predicate OriginAllowed(origin: Option<string>) {
    origin.None? || origin.value == "" || origin.value in ALLOWED_ORIGINS
  }

  /**
   * A request without an Origin, or with an empty one, passes; any other
   * origin passes exactly when it is one of the four listed: there is no
   * wildcard, and a listed origin's variants are refused.
   */
  lemma OriginPolicy(o: string)
    ensures OriginAllowed(Some(o)) && o != "" <==>
              o == "https://xinnnnx.github.io" || o == "https://xinnnnx.github.io/studentsystem" ||
              o == "http://localhost:3000" || o == "http://127.0.0.1:3000"
    ensures OriginAllowed(None) && OriginAllowed(Some(""))
    ensures !OriginAllowed(Some("*")) && !OriginAllowed(Some("null"))
    ensures !OriginAllowed(Some("https://xinnnnx.github.io/")) && !OriginAllowed(Some("http://localhost:3001"))
  {
  }

  // ---------------------------------------------------------------------------
  // List options

  /**
   * The query string of a list request: each text parameter absent or
   * present, and `page`/`pageSize` as `parseInt` gives them (None for NaN,
   * which includes an absent parameter).
   */
  datatype Query = Query(
    filterColumn: Option<string>,
    filterKeyword: Option<string>,
    sortField: Option<string>,
    sortOrder: Option<string>,
    page: Option<int>,
    pageSize: Option<int>)

  /** `value || fallback` on a string parameter: absent and empty both fall back. */
  function TextOr(value: Option<string>, fallback: string): string {
    if value.None? || value.value == "" then fallback else value.value
  }

  /** `parseInt(value) || fallback`: NaN and 0 both fall back. */
  function IntOr(value: Option<int>, fallback: int): int {
    if value.None? || value.value == 0 then fallback else value.value
  }

  function ListOptionsOf(q: Query): ListOptions {
    ListOptions(
      TextOr(q.filterColumn, ""),
      TextOr(q.filterKeyword, ""),
      TextOr(q.sortField, "id"),
      TextOr(q.sortOrder, "asc"),
      IntOr(q.page, 1),
      IntOr(q.pageSize, 10))
  }

  /**
   * What defaulting leaves the list query. Each text parameter that is
   * absent or empty takes its default ("" for the filter, `id` for the sort
   * field, `asc` for the order) and is otherwise passed on as sent; `page`
   * and `pageSize` that parse to NaN or 0 take 1 and 10 and are otherwise
   * passed on. So without both filter parameters no filter applies, the
   * default sort is ascending on `id`, and numbers that are not negative end
   * up positive.
   */
  lemma ListDefaults(q: Query)
    ensures var o := ListOptionsOf(q);
      && (q.filterColumn.None? || q.filterColumn == Some("") ==> o.filterColumn == "")
      && (q.filterColumn.Some? && q.filterColumn.value != "" ==> o.filterColumn == q.filterColumn.value)
      && (q.filterKeyword.None? || q.filterKeyword == Some("") ==> o.filterKeyword == "")
      && (q.filterKeyword.Some? && q.filterKeyword.value != "" ==> o.filterKeyword == q.filterKeyword.value)
      && (q.sortField.None? || q.sortField == Some("") ==> o.sortField == "id")
      && (q.sortField.Some? && q.sortField.value != "" ==> o.sortField == q.sortField.value)
      && (q.sortOrder.None? || q.sortOrder == Some("") ==> o.sortOrder == "asc")
      && (q.sortOrder.Some? && q.sortOrder.value != "" ==> o.sortOrder == q.sortOrder.value)
      && (q.page.None? || q.page == Some(0) ==> o.page == 1)
      && (q.page.Some? && q.page.value != 0 ==> o.page == q.page.value)
      && (q.pageSize.None? || q.pageSize == Some(0) ==> o.pageSize == 10)
      && (q.pageSize.Some? && q.pageSize.value != 0 ==> o.pageSize == q.pageSize.value)
      && (o.filterColumn == "" || o.filterKeyword == "" ==> ResolveFilter(o.filterColumn, o.filterKeyword) == Ok(NoFilter))
      && (q.sortField.None? ==> SortColumn(o.sortField) == Id && !SortQueryFails(o.sortField))
      && (q.sortOrder.None? ==> !Descending(o.sortOrder))
      && (q.page.None? || q.page.value >= 0 ==> o.page >= 1)
      && (q.pageSize.None? || q.pageSize.value >= 0 ==> o.pageSize >= 1)
  {
  }

  // ---------------------------------------------------------------------------
  // Response mapping

  /** The create/update error branches: status and `code` by kind, echoing `type` and `msg`. */
  function FailureResponse(f: Failure): Response {
    match f
    case Duplicate => Response(200, Coded(1, f.Type(), f.Msg()))
    case IdErr => Response(500, Coded(-2, f.Type(), f.Msg()))
    case PhoneErr => Response(500, Coded(-3, f.Type(), f.Msg()))
    case EmailErr => Response(500, Coded(-4, f.Type(), f.Msg()))
    case StorageError(_) => Response(500, Coded(-1, f.Type(), f.Msg()))
  }

  /** How a client reads a failure's `code` back: the inverse of the mapping on codes. */
  function FailureOfCode(code: int, msg: string): Option<Failure> {
    if code == 1 then Some(Duplicate)
    else if code == -2 then Some(IdErr)
    else if code == -3 then Some(PhoneErr)
    else if code == -4 then Some(EmailErr)
    else if code == -1 then Some(StorageError(msg))
    else None
  }

  /**
   * Every failure is sent with its own code, which the client maps back to
   * the failure; only a name duplicate is sent with status 200, every other
   * failure with 500; no failure is sent with the success code 0.
   */
  lemma FailureResponseFacts(f: Failure)
    ensures var resp := FailureResponse(f);
      && resp.body.Coded?
      && FailureOfCode(resp.body.code, resp.body.msg) == Some(f)
      && resp.body.kind == f.Type() && resp.body.msg == f.Msg()
      && resp.body.code != 0
      && (resp.status == 200 <==> f == Duplicate)
      && (resp.status != 200 ==> resp.status == 500)
  {
  }

  /** POST /api/students: a failure by its kind, otherwise 200 with code 0 and the created record. */
  function CreateResponse(r: Result<Row, Failure>): Response {
    match r
    case Err(f) => FailureResponse(f)
    case Ok(row) => Response(200, Record(0, row))
  }

  /** The 404 message of update and delete. */
  function NotFoundMessage(id: int): string {
    "Student No." + IntToString(id) + " does not exist, please check!"
  }

  function DigitChar(d: int): char
    requires 0 <= d < 10
  {
    "0123456789"[d]
  }

  function NatToString(n: nat): string {
    if n < 10 then [DigitChar(n)] else NatToString(n / 10) + [DigitChar(n % 10)]
  }

  function IntToString(i: int): string {
    if i < 0 then "-" + NatToString(-i) else NatToString(i)
  }

  /** The record an update reports: the path id and the submitted fields. */
  function Merged(id: int, b: StudentBody): Row {
    Row(id, b.fields)
  }

  /** `{ id, ...student }` as written: a client-sent `student.id` overrides the key. */
  function MergedAsWritten(id: int, b: StudentBody): Row {
    Row(b.id.GetOr(id), b.fields)
  }

  /** The spread as written reports a key other than the row's whenever the client sends an `id` property that differs. */
  lemma MergedAsWrittenLosesKey(s: Student)
    ensures MergedAsWritten(7, StudentBody(s, Some(3))).id == 3
    ensures Merged(7, StudentBody(s, Some(3))).id == 7
    ensures MergedAsWritten(7, StudentBody(s, None)) == Merged(7, StudentBody(s, None))
  {
  }

  /** PUT /api/students/:id: a failure by its kind; 404 with code -1 when no row was affected; otherwise 200 with the merged record. */
  function UpdateResponse(id: int, b: StudentBody, r: Result<nat, Failure>): Response {
    match r
    case Err(f) => FailureResponse(f)
    case Ok(affected) =>
      if affected == 0 then Response(404, Missing(-1, NotFoundMessage(id)))
      else Response(200, Record(0, Merged(id, b)))
  }

  /** DELETE /api/students/:id: 500 on a storage error, 404 when no row was affected, otherwise 200. */
  function DeleteResponse(id: int, r: Result<nat, string>): Response {
    match r
    case Err(m) => Response(500, Outcome(false, Some(m)))
    case Ok(affected) =>
      if affected == 0 then Response(404, Outcome(false, Some(NotFoundMessage(id))))
      else Response(200, Outcome(true, None))
  }

  /** GET /api/students: 500 on a storage error, otherwise 200 with the page. */
  function ListResponse(r: Result<Page, string>): Response {
    match r
    case Err(m) => Response(500, Outcome(false, Some(m)))
    case Ok(p) => Response(200, Listed(true, p))
  }

  /**
   * Not found: an update or delete that affects no row is answered 404,
   * each in its own shape, and one that affects a row is answered 200 with
   * success.
   */
  lemma AffectedRowsRule(id: int, b: StudentBody, n: nat)
    ensures UpdateResponse(id, b, Ok(n)).status == 404 <==> n == 0
    ensures DeleteResponse(id, Ok(n)).status == 404 <==> n == 0
    ensures n == 0 ==> UpdateResponse(id, b, Ok(n)).body == Missing(-1, NotFoundMessage(id))
    ensures n == 0 ==> DeleteResponse(id, Ok(n)).body == Outcome(false, Some(NotFoundMessage(id)))
    ensures n > 0 ==> UpdateResponse(id, b, Ok(n)) == Response(200, Record(0, Row(id, b.fields)))
    ensures n > 0 ==> DeleteResponse(id, Ok(n)) == Response(200, Outcome(true, None))
  {
  }

  /** A response with status 200 and code 0 comes only from a successful write. */
  lemma SuccessCodeMeansWritten(r: Result<Row, Failure>)
    ensures CreateResponse(r).body.Record? <==> r.Ok?
    ensures CreateResponse(r).body.Coded? ==> CreateResponse(r).body.code != 0
  {
    if r.Err? {
      FailureResponseFacts(r.error);
    }
  }
}
