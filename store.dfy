/**
 * The data access layer (db.js) over an in-memory table: the table's rows
 * and the SERIAL counter that hands out keys. Each statement's row-set
 * meaning is a function from the table before to the table after and the
 * callback's outcome; the class `StudentTable` performs the same steps in
 * place and is proved against those functions.
 */
module Store {
  import opened Model
  import opened Duplicates
  import opened Listing

  /** The message PostgreSQL reports when a write breaks the UNIQUE constraint on studentId. */
  const UNIQUE_VIOLATION := "duplicate key value violates unique constraint \"students_studentId_key\""

  /** The table's contents and the next value of its key sequence. */
  datatype Table = Table(rows: seq<Row>, nextId: int)

  /**
   * What the schema keeps true: every key was handed out by the sequence
   * (from 1, below its next value), keys are distinct, and so are
   * studentIds (the UNIQUE constraint). Name, phone and email are NOT
   * unique here: a forced write may duplicate them.
   */
  predicate Consistent(t: Table) {
    && 1 <= t.nextId
    && (forall i :: 0 <= i < |t.rows| ==> 1 <= t.rows[i].id < t.nextId)
    && DistinctIds(t.rows)
    && DistinctStudentIds(t.rows)
  }

  /** All four pre-checked columns are pairwise distinct: the state that non-forced writes alone would keep. */
  predicate AllUnique(rows: seq<Row>) {
    forall i, j :: 0 <= i < j < |rows| ==>
      && rows[i].student.studentId != rows[j].student.studentId
      && rows[i].student.phone != rows[j].student.phone
      && rows[i].student.email != rows[j].student.email
      && rows[i].student.name != rows[j].student.name
  }

  // ---------------------------------------------------------------------------
  // Statements as functions of the table

  /**
   * `INSERT ... RETURNING id`: the sequence hands out its next value (and
   * does not take it back if the statement fails); the UNIQUE constraint
   * rejects an existing studentId.
   */
  function Inserted(t: Table, s: Student): (Table, Result<Row, Failure>) {
    var id := t.nextId;
    if Collides(t.rows, StudentId, s.studentId, None) then
      (Table(t.rows, id + 1), Err(StorageError(UNIQUE_VIOLATION)))
    else
      (Table(t.rows + [Row(id, s)], id + 1), Ok(Row(id, s)))
  }

  /** `addStudent`: the duplicate check unless forced, then the insert. */
  function Add(t: Table, s: Student, force: bool): (Table, Result<Row, Failure>) {
    var info := if force then None else CheckDuplicate(t.rows, s, None);
    if info.Some? then (t, Err(info.value)) else Inserted(t, s)
  }

  /**
   * `UPDATE ... WHERE id = $8`: rewrites the row with that key, if any; the
   * UNIQUE constraint rejects a studentId that another row holds. The
   * outcome is the affected-row count.
   */
  function Updated(t: Table, id: int, s: Student): (Table, Result<nat, Failure>) {
    if HasId(t.rows, id) && Collides(t.rows, StudentId, s.studentId, Some(id)) then
      (t, Err(StorageError(UNIQUE_VIOLATION)))
    else
      (Table(Replace(t.rows, id, s), t.nextId), Ok(CountId(t.rows, id)))
  }

  /** `updateStudent`: the duplicate check excluding the row itself unless forced, then the update. */
  function Update(t: Table, id: int, s: Student, force: bool): (Table, Result<nat, Failure>) {
    var info := if force then None else CheckDuplicate(t.rows, s, Some(id));
    if info.Some? then (t, Err(info.value)) else Updated(t, id, s)
  }

  /** `deleteStudent`: `DELETE ... WHERE id = $1` and its affected-row count. */
  function Delete(t: Table, id: int): (Table, nat) {
    (Table(WithoutId(t.rows, id), t.nextId), CountId(t.rows, id))
  }

  // ---------------------------------------------------------------------------
  // What the statements promise

  /**
   * Creating a student: a failed check reports the validator's kind and
   * changes nothing; otherwise exactly one row is appended, the submitted
   * fields under a key no row has had. A passing check always inserts; a
   * forced insert of a taken studentId fails with the UNIQUE violation. The
   * table stays consistent.
   */
  lemma AddFacts(t: Table, s: Student, force: bool)
    requires Consistent(t)
    ensures var (t', r) := Add(t, s, force);
      && Consistent(t')
      && t'.nextId >= t.nextId
      && (!force && CheckDuplicate(t.rows, s, None).Some? ==>
            t' == t && r == Err(CheckDuplicate(t.rows, s, None).value))
      && (force || CheckDuplicate(t.rows, s, None).None? ==>
            t'.nextId == t.nextId + 1 &&
            (r.Ok? <==> !Collides(t.rows, StudentId, s.studentId, None)))
      && (!force && CheckDuplicate(t.rows, s, None).None? ==> r.Ok?)
      && (force && Collides(t.rows, StudentId, s.studentId, None) ==> r == Err(StorageError(UNIQUE_VIOLATION)))
      && (r.Ok? ==> r.value == Row(t.nextId, s) && t'.rows == t.rows + [r.value] &&
                    (forall x :: x in t.rows ==> x.id < r.value.id))
      && (r.Err? ==> t'.rows == t.rows)
      && (r.Err? && r.error.StorageError? ==> r.error.message == UNIQUE_VIOLATION && force)
  {
    var (t', r) := Add(t, s, force);
    if !force && CheckDuplicate(t.rows, s, None).None? {
      CheckDuplicateReports(t.rows, s, None);
      assert !Collides(t.rows, CHECK_ORDER[0], Field(s, CHECK_ORDER[0]), None);
    }
    if r.Ok? {
      var rows' := t'.rows;
      forall i, j | 0 <= i < j < |rows'|
        ensures rows'[i].id != rows'[j].id && rows'[i].student.studentId != rows'[j].student.studentId
      {
        if j == |rows'| - 1 {
          assert rows'[i] in t.rows;
        }
      }
      forall x | x in t.rows ensures x.id < r.value.id {
        var k :| 0 <= k < |t.rows| && t.rows[k] == x;
      }
    }
  }

  /** Writes that go through the duplicate check keep all four checked columns unique. */
  lemma AddKeepsUnique(t: Table, s: Student)
    requires AllUnique(t.rows)
    ensures AllUnique(Add(t, s, false).0.rows)
  {
    var rows' := Add(t, s, false).0.rows;
    if rows' != t.rows {
      forall i, j | 0 <= i < j < |rows'| && j == |rows'| - 1
        ensures rows'[i].student.studentId != rows'[j].student.studentId && rows'[i].student.phone != rows'[j].student.phone
        ensures rows'[i].student.email != rows'[j].student.email && rows'[i].student.name != rows'[j].student.name
      {
        CreateCheckSeesEveryRow(t.rows, s, rows'[i]);
      }
    }
  }

  /**
   * Updating a student: a failed check reports the validator's kind and
   * changes nothing; otherwise the affected count is 1 if a row has the key
   * and 0 if none has, that row alone takes all seven new fields and keeps
   * its key, and every other row, the row order and the key sequence are
   * unchanged. A passing check always writes; a forced update of an existing
   * row fails, with the UNIQUE violation, exactly on a studentId another row
   * holds. The table stays consistent.
   */
  lemma UpdateFacts(t: Table, id: int, s: Student, force: bool)
    requires Consistent(t)
    ensures var (t', r) := Update(t, id, s, force);
      && Consistent(t')
      && t'.nextId == t.nextId
      && |t'.rows| == |t.rows|
      && (!force && CheckDuplicate(t.rows, s, Some(id)).Some? ==>
            t' == t && r == Err(CheckDuplicate(t.rows, s, Some(id)).value))
      && (!force && CheckDuplicate(t.rows, s, Some(id)).None? ==> r.Ok?)
      && (force && HasId(t.rows, id) ==> (r.Ok? <==> !Collides(t.rows, StudentId, s.studentId, Some(id))))
      && (force && HasId(t.rows, id) && Collides(t.rows, StudentId, s.studentId, Some(id)) ==>
            r == Err(StorageError(UNIQUE_VIOLATION)) && t' == t)
      && (force && !HasId(t.rows, id) ==> r == Ok(0) && t' == t)
      && (r.Err? ==> t' == t)
      && (r.Ok? ==>
            && r.value == (if HasId(t.rows, id) then 1 else 0)
            && (forall i :: 0 <= i < |t.rows| ==> t'.rows[i].id == t.rows[i].id)
            && (forall i :: 0 <= i < |t.rows| && t.rows[i].id != id ==> t'.rows[i] == t.rows[i])
            && (forall i :: 0 <= i < |t.rows| && t.rows[i].id == id ==> t'.rows[i] == Row(id, s)))
  {
    var (t', r) := Update(t, id, s, force);
    if !force && CheckDuplicate(t.rows, s, Some(id)).None? {
      CheckDuplicateReports(t.rows, s, Some(id));
      assert !Collides(t.rows, CHECK_ORDER[0], Field(s, CHECK_ORDER[0]), Some(id));
    }
    CountIdIsZeroOrOne(t.rows, id);
    ReplaceContents(t.rows, id, s);
    if r.Ok? {
      var rows, rows' := t.rows, t'.rows;
      if !HasId(rows, id) {
        assert rows' == rows;
      } else {
        assert !Collides(rows, StudentId, s.studentId, Some(id)) by {
          if !force {
            CheckDuplicateReports(rows, s, Some(id));
            assert !Collides(rows, CHECK_ORDER[0], Field(s, CHECK_ORDER[0]), Some(id));
          }
        }
        forall i, j | 0 <= i < j < |rows'|
          ensures rows'[i].student.studentId != rows'[j].student.studentId
        {
          if rows[i].id == id {
            assert rows[j] in rows;
          } else if rows[j].id == id {
            assert rows[i] in rows;
          }
        }
      }
    }
  }

  /** An update that goes through the duplicate check keeps all four checked columns unique. */
  lemma UpdateKeepsUnique(t: Table, id: int, s: Student)
    requires DistinctIds(t.rows) && AllUnique(t.rows)
    ensures AllUnique(Update(t, id, s, false).0.rows)
  {
    var rows, rows' := t.rows, Update(t, id, s, false).0.rows;
    ReplaceContents(rows, id, s);
    if rows' != rows {
      CheckDuplicateIgnoresSelf(rows, s, id);
      WithoutIdContents(rows, id);
      forall i, j | 0 <= i < j < |rows'|
        ensures rows'[i].student.studentId != rows'[j].student.studentId && rows'[i].student.phone != rows'[j].student.phone
        ensures rows'[i].student.email != rows'[j].student.email && rows'[i].student.name != rows'[j].student.name
      {
        if rows[i].id == id && rows[j].id != id {
          assert rows[j] in WithoutId(rows, id);
          CreateCheckSeesEveryRow(WithoutId(rows, id), s, rows[j]);
        } else if rows[j].id == id && rows[i].id != id {
          assert rows[i] in WithoutId(rows, id);
          CreateCheckSeesEveryRow(WithoutId(rows, id), s, rows[i]);
        }
      }
    }
  }

  /**
   * Deleting a student: the affected count is 1 if a row has the key and 0
   * if none has; exactly the rows with other keys remain, in their order,
   * and the key sequence is unchanged. The table stays consistent.
   */
  lemma DeleteFacts(t: Table, id: int)
    requires Consistent(t)
    ensures var (t', n) := Delete(t, id);
      && Consistent(t')
      && t'.nextId == t.nextId
      && n == (if HasId(t.rows, id) then 1 else 0)
      && (forall x :: x in t'.rows <==> x in t.rows && x.id != id)
      && !HasId(t'.rows, id)
      && |t'.rows| == |t.rows| - n
  {
    var (t', n) := Delete(t, id);
    CountIdIsZeroOrOne(t.rows, id);
    WithoutIdContents(t.rows, id);
    WithoutIdIsSubsequence(t.rows, id);
  }

  /** The kept rows are the original ones in their original relative order, so the constraints carry over. */
  lemma {:induction false} WithoutIdIsSubsequence(rows: seq<Row>, id: int)
    requires DistinctIds(rows) && DistinctStudentIds(rows)
    ensures DistinctIds(WithoutId(rows, id)) && DistinctStudentIds(WithoutId(rows, id))
  {
    if rows != [] {
      var tail := rows[1..];
      assert DistinctIds(tail) && DistinctStudentIds(tail) by {
        forall i, j | 0 <= i < j < |tail|
          ensures tail[i].id != tail[j].id && tail[i].student.studentId != tail[j].student.studentId
        {
          assert tail[i] == rows[i + 1] && tail[j] == rows[j + 1];
        }
      }
      WithoutIdIsSubsequence(tail, id);
      WithoutIdContents(tail, id);
      if rows[0].id != id {
        var w := WithoutId(tail, id);
        var r := [rows[0]] + w;
        forall i, j | 0 <= i < j < |r|
          ensures r[i].id != r[j].id && r[i].student.studentId != r[j].student.studentId
        {
          if i == 0 {
            assert r[j] == w[j - 1] && w[j - 1] in tail;
            var k :| 0 <= k < |tail| && tail[k] == r[j];
            assert rows[k + 1] == r[j];
          } else {
            assert r[i] == w[i - 1] && r[j] == w[j - 1];
          }
        }
      }
    }
  }

  /** A created student can be read back: the list filter on its studentId selects the returned record. */
  lemma CreatedRowIsFound(t: Table, s: Student, force: bool)
    requires Add(t, s, force).1.Ok? && s.studentId != ""
    ensures ResolveFilter("studentId", s.studentId).Ok?
    ensures Add(t, s, force).1.value in Filtered(Add(t, s, force).0.rows, ResolveFilter("studentId", s.studentId).value)
  {
    var (t', r) := Add(t, s, force);
    Text.ILikeSelf(s.studentId);
    ResolveFilterMeaning("studentId", s.studentId, r.value);
    FilteredContents(t'.rows, ResolveFilter("studentId", s.studentId).value);
    assert r.value in t'.rows by {
      assert t'.rows[|t'.rows| - 1] == r.value;
    }
  }

  /** A deleted student no longer appears in any page of any listing. */
  lemma DeletedRowIsNotListed(t: Table, id: int, o: ListOptions)
    requires Consistent(t) && o.page >= 1 && o.pageSize >= 1 && Answered(o)
    requires List(Delete(t, id).0.rows, o).Ok?
    ensures forall x :: x in List(Delete(t, id).0.rows, o).value.list ==> x.id != id
  {
    DeleteFacts(t, id);
    ListFacts(Delete(t, id).0.rows, o);
  }

  /** A listing of an empty table: no rows, a total of 0, one page, the page asked for. */
  lemma ListEmptyTable(o: ListOptions)
    requires o.page >= 1 && o.pageSize >= 1
    requires ResolveFilter(o.filterColumn, o.filterKeyword).Ok? && Answered(o)
    ensures List([], o) == Ok(Page([], 0, 1, o.page))
  {
  }

  // ---------------------------------------------------------------------------
  // The table in place

  class StudentTable {
    var rows: seq<Row>
    var nextId: int

    ghost predicate Valid()
      reads this
    {
      Consistent(State())
    }

    function State(): Table
      reads this
    {
      Table(rows, nextId)
    }

    /** A freshly created table: no rows, and a key sequence starting at 1. */
    constructor ()
      ensures Valid() && rows == [] && nextId == 1
    {
      rows := [];
      nextId := 1;
    }

    /** The `insert` step of `addStudent`. */
    method InsertRow(s: Student) returns (r: Result<Row, Failure>)
      requires Valid()
      modifies this
      ensures (State(), r) == Inserted(old(State()), s)
    {
      var id := nextId;
      nextId := nextId + 1;
      if Collides(rows, StudentId, s.studentId, None) {
        r := Err(StorageError(UNIQUE_VIOLATION));
      } else {
        rows := rows + [Row(id, s)];
        r := Ok(Row(id, s));
      }
    }

    method AddStudent(s: Student, force: bool) returns (r: Result<Row, Failure>)
      requires Valid()
      modifies this
      ensures Valid()
      ensures (State(), r) == Add(old(State()), s, force)
    {
      AddFacts(State(), s, force);
      if !force {
        var info := CheckDuplicate(rows, s, None);
        if info.Some? {
          return Err(info.value);
        }
      }
      r := InsertRow(s);
    }

    /** The `update` step of `updateStudent`. */
    method UpdateRow(id: int, s: Student) returns (r: Result<nat, Failure>)
      requires Valid()
      modifies this
      ensures (State(), r) == Updated(old(State()), id, s)
    {
      if HasId(rows, id) && Collides(rows, StudentId, s.studentId, Some(id)) {
        r := Err(StorageError(UNIQUE_VIOLATION));
      } else {
        r := Ok(CountId(rows, id));
        rows := Model.Replace(rows, id, s);
      }
    }

    /** `updateStudent`; an absent `force` is false. */
    method UpdateStudent(id: int, s: Student, force: Option<bool>) returns (r: Result<nat, Failure>)
      requires Valid()
      modifies this
      ensures Valid()
      ensures (State(), r) == Update(old(State()), id, s, ForceFlag(force))
    {
      UpdateFacts(State(), id, s, ForceFlag(force));
      var force := ForceFlag(force);
      if !force {
        var info := CheckDuplicate(rows, s, Some(id));
        if info.Some? {
          return Err(info.value);
        }
      }
      r := UpdateRow(id, s);
    }

    method DeleteStudent(id: int) returns (affected: nat)
      requires Valid()
      modifies this
      ensures Valid()
      ensures (State(), affected) == Delete(old(State()), id)
      ensures affected <= 1
    {
      DeleteFacts(State(), id);
      affected := CountId(rows, id);
      rows := WithoutId(rows, id);
    }

    /**
     * `getStudents`: the WHERE clause shared by the count and the list
     * query, the ORDER BY column and direction, the offset, the count, the
     * page count and the window. The list query fails when it sorts on
     * `studentId` or `birthDate`, which the source does not survive, so a
     * caller asks for those only when the count query fails first.
     */
    method GetStudents(o: ListOptions) returns (r: Result<Page, string>)
      requires o.page >= 1 && o.pageSize >= 1
      requires Answered(o)
      ensures r == List(rows, o)
      ensures r.Ok? ==> |r.value.list| <= o.pageSize && r.value.currentPage == o.page
      ensures r.Ok? ==> forall x :: x in r.value.list ==> x in rows
    {
      ListFacts(rows, o);
      var filter := ResolveFilter(o.filterColumn, o.filterKeyword);
      var sortBy := SortColumn(o.sortField);
      var desc := Descending(o.sortOrder);
      var offset := Offset(o.page, o.pageSize);
      if filter.Err? {
        return Err(filter.error);
      }
      var matching := Filtered(rows, filter.value);
      var total := |matching|;
      var totalPages := TotalPages(total, o.pageSize);
      var list := Window(SortRows(matching, sortBy, desc), offset, o.pageSize);
      r := Ok(Page(list, total, totalPages, o.page));
    }
  }
}
