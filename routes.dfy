/**
 * The four endpoints of app.js wired to the table: each handler calls the
 * data access operation and answers with the response the mapping in `Api`
 * gives its outcome. The lemmas state the endpoints' observable behaviour
 * for each kind of request, from the table before the request.
 */
module Routes {
  import opened Model
  import opened Duplicates
  import opened Listing
  import opened Store
  import opened Api

  /** POST /api/students with body `{ student, force }`; an absent `force` is false. */
  method PostStudent(t: StudentTable, student: StudentBody, force: Option<bool>) returns (resp: Response)
    requires t.Valid()
    modifies t
    ensures t.Valid()
    ensures var (t', r) := Add(old(t.State()), student.fields, ForceFlag(force));
      t.State() == t' && resp == CreateResponse(r)
  {
    var r := t.AddStudent(student.fields, ForceFlag(force));
    resp := CreateResponse(r);
  }

  /** GET /api/students with its query string. */
  method GetStudentList(t: StudentTable, q: Query) returns (resp: Response)
    requires q.page.None? || q.page.value >= 0
    requires q.pageSize.None? || q.pageSize.value >= 0
    requires Answered(ListOptionsOf(q))
    ensures resp == ListResponse(List(t.rows, ListOptionsOf(q)))
  {
    ListDefaults(q);
    var r := t.GetStudents(ListOptionsOf(q));
    resp := ListResponse(r);
  }

  /** PUT /api/students/:id with body `{ student, force }`. */
  method PutStudent(t: StudentTable, id: int, student: StudentBody, force: Option<bool>) returns (resp: Response)
    requires t.Valid()
    modifies t
    ensures t.Valid()
    ensures var (t', r) := Update(old(t.State()), id, student.fields, ForceFlag(force));
      t.State() == t' && resp == UpdateResponse(id, student, r)
  {
    var r := t.UpdateStudent(id, student.fields, force);
    resp := UpdateResponse(id, student, r);
  }

  /** DELETE /api/students/:id. */
  method DeleteStudentById(t: StudentTable, id: int) returns (resp: Response)
    requires t.Valid()
    modifies t
    ensures t.Valid()
    ensures var (t', n) := Delete(old(t.State()), id);
      t.State() == t' && resp == DeleteResponse(id, Ok(n))
  {
    var n := t.DeleteStudent(id);
    resp := DeleteResponse(id, Ok(n));
  }

  // ---------------------------------------------------------------------------
  // Observable behaviour of the endpoints

  /**
   * Creating: new values in all four checked columns give 200, code 0 and
   * the submitted fields under a fresh key; without force, a taken
   * studentId, phone or email gives 500 with code -2, -3 or -4 and a taken
   * name (alone) 200 with code 1, none of them adding a row; with force, only
   * a taken studentId fails, with 500 and code -1.
   */
  lemma CreateOutcomes(t: Table, s: Student, force: bool)
    requires Consistent(t)
    ensures var (t', r) := Add(t, s, force); var resp := CreateResponse(r);
      && (CheckDuplicate(t.rows, s, None).None? ==>
            resp == Response(200, Record(0, Row(t.nextId, s))) && t'.rows == t.rows + [Row(t.nextId, s)])
      && (!force && Collides(t.rows, StudentId, s.studentId, None) ==>
            resp.status == 500 && resp.body.code == -2 && t'.rows == t.rows)
      && (!force && CheckDuplicate(t.rows, s, None) == Some(PhoneErr) ==>
            resp.status == 500 && resp.body.code == -3 && t'.rows == t.rows)
      && (!force && CheckDuplicate(t.rows, s, None) == Some(EmailErr) ==>
            resp.status == 500 && resp.body.code == -4 && t'.rows == t.rows)
      && (!force && CheckDuplicate(t.rows, s, None) == Some(Duplicate) ==>
            resp.status == 200 && resp.body.code == 1 && t'.rows == t.rows)
      && (force ==>
            if Collides(t.rows, StudentId, s.studentId, None)
            then resp == Response(500, Coded(-1, "error", UNIQUE_VIOLATION)) && t'.rows == t.rows
            else resp == Response(200, Record(0, Row(t.nextId, s))) && t'.rows == t.rows + [Row(t.nextId, s)])
  {
    AddFacts(t, s, force);
    CheckDuplicateReports(t.rows, s, None);
    assert CHECK_ORDER[0] == StudentId;
  }

  /**
   * A name duplicate is soft under force: a student colliding only on its
   * name is refused with code 1 without force and added with force.
   */
  lemma ForceOverridesNameDuplicate(t: Table, s: Student)
    requires Consistent(t)
    requires CheckDuplicate(t.rows, s, None) == Some(Duplicate)
    ensures CreateResponse(Add(t, s, false).1) == Response(200, Coded(1, "duplicate", "Name exists!"))
    ensures Add(t, s, false).0 == t
    ensures CreateResponse(Add(t, s, true).1) == Response(200, Record(0, Row(t.nextId, s)))
    ensures Add(t, s, true).0.rows == t.rows + [Row(t.nextId, s)]
  {
    AddFacts(t, s, true);
  }

  /**
   * Updating: a key no row has gives 404 unless the duplicate check fails
   * first; an existing key whose new values collide with no other row gives
   * 200 with the path id and the submitted fields, that row rewritten.
   */
  lemma UpdateOutcomes(t: Table, id: int, b: StudentBody, force: bool)
    requires Consistent(t)
    ensures var (t', r) := Update(t, id, b.fields, force); var resp := UpdateResponse(id, b, r);
      && (!HasId(t.rows, id) && (force || CheckDuplicate(t.rows, b.fields, Some(id)).None?) ==>
            resp == Response(404, Missing(-1, NotFoundMessage(id))) && t' == t)
      && (HasId(t.rows, id) && CheckDuplicate(t.rows, b.fields, Some(id)).None? ==>
            resp == Response(200, Record(0, Row(id, b.fields))) &&
            (forall i :: 0 <= i < |t.rows| ==> t'.rows[i] == if t.rows[i].id == id then Row(id, b.fields) else t.rows[i]))
      && (!force && CheckDuplicate(t.rows, b.fields, Some(id)).Some? ==>
            resp == FailureResponse(CheckDuplicate(t.rows, b.fields, Some(id)).value) && t' == t)
  {
    UpdateFacts(t, id, b.fields, force);
    CountIdIsZeroOrOne(t.rows, id);
    if HasId(t.rows, id) && CheckDuplicate(t.rows, b.fields, Some(id)).None? {
      CheckDuplicateReports(t.rows, b.fields, Some(id));
      assert !Collides(t.rows, CHECK_ORDER[0], Field(b.fields, CHECK_ORDER[0]), Some(id));
    }
    if !HasId(t.rows, id) {
      ReplaceContents(t.rows, id, b.fields);
      assert Replace(t.rows, id, b.fields) == t.rows;
    }
  }

  /** Deleting an existing key gives 200 with success and removes that row; a key no row has gives 404. */
  lemma DeleteOutcomes(t: Table, id: int)
    requires Consistent(t)
    ensures var (t', n) := Delete(t, id); var resp := DeleteResponse(id, Ok(n));
      && (HasId(t.rows, id) ==> resp == Response(200, Outcome(true, None)) && !HasId(t'.rows, id))
      && (!HasId(t.rows, id) ==> resp == Response(404, Outcome(false, Some(NotFoundMessage(id)))) && t'.rows == t.rows)
  {
    DeleteFacts(t, id);
    if !HasId(t.rows, id) {
      WithoutIdAbsent(t.rows, id);
    }
  }

  /** A list request on an empty table with default paging answers 200 with no rows, a total of 0, one page, page 1. */
  lemma ListEmptyDefault(q: Query)
    requires q.page.None? && q.pageSize.None?
    requires ResolveFilter(ListOptionsOf(q).filterColumn, ListOptionsOf(q).filterKeyword).Ok?
    requires !SortQueryFails(ListOptionsOf(q).sortField)
    ensures ListResponse(List([], ListOptionsOf(q))) == Response(200, Listed(true, Page([], 0, 1, 1)))
  {
  }
}
