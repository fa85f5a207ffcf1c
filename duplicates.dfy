/**
 * The duplicate validator run before a non-forced create or update
 * (db.js, `checkDuplicate`): four lookups, studentId, phone, email, name, in
 * that order, each stopping the chain on the first row found. The row whose
 * key is the one being updated never counts against itself.
 */
module Duplicates {
  import opened Model

  /**
   * `SELECT 1 FROM students WHERE <c> = $1 AND (id != $2 OR $2 IS NULL)`
   * returns a row; `self` is the key being updated, or None on create.
   */
  predicate Collides(rows: seq<Row>, c: Column, value: string, self: Option<int>)
    requires c != Id
  {
    exists r :: r in rows && Field(r.student, c) == value && (self.None? || r.id != self.value)
  }

  /** The checked columns, in the order the validator looks them up. */
  const CHECK_ORDER: seq<Column> := [StudentId, Phone, Email, Name]

  predicate Checked(c: Column) {
    c == StudentId || c == Phone || c == Email || c == Name
  }

  /** The failure reported for a collision on a checked column. */
  function FailureFor(c: Column): (f: Failure)
    requires Checked(c)
    ensures !f.StorageError?
  {
    match c
    case StudentId => IdErr
    case Phone => PhoneErr
    case Email => EmailErr
    case Name => Duplicate
  }

  /** The failure kinds name their column: no two checked columns share one. */
  lemma FailureForInjective(c: Column, d: Column)
    requires Checked(c) && Checked(d)
    ensures FailureFor(c) == FailureFor(d) <==> c == d
  {
  }

  /** The validator as the source writes it: a chain of four lookups, stopping on the first collision. */
  function CheckDuplicate(rows: seq<Row>, s: Student, self: Option<int>): (r: Option<Failure>)
    ensures r.Some? ==> !r.value.StorageError?
  {
    if Collides(rows, StudentId, s.studentId, self) then Some(IdErr)
    else if Collides(rows, Phone, s.phone, self) then Some(PhoneErr)
    else if Collides(rows, Email, s.email, self) then Some(EmailErr)
    else if Collides(rows, Name, s.name, self) then Some(Duplicate)
    else None
  }

  /** Reference definition: an ordered list of independent checks, evaluated in sequence, short-circuiting on the first failure. */
  function FirstCollision(rows: seq<Row>, s: Student, self: Option<int>, cols: seq<Column>): Option<Failure>
    requires forall k :: 0 <= k < |cols| ==> Checked(cols[k])
  {
    if cols == [] then None
    else assert Checked(cols[0]); if Collides(rows, cols[0], Field(s, cols[0]), self) then Some(FailureFor(cols[0]))
    else FirstCollision(rows, s, self, cols[1..])
  }

  /** The first failure of an ordered scan is that of the first column that collides; no failure means no column collides. */
  lemma {:induction false} FirstCollisionIsFirst(rows: seq<Row>, s: Student, self: Option<int>, cols: seq<Column>)
    requires forall k :: 0 <= k < |cols| ==> Checked(cols[k])
    ensures FirstCollision(rows, s, self, cols).None? <==>
              forall k :: 0 <= k < |cols| ==> !Collides(rows, cols[k], Field(s, cols[k]), self)
    ensures forall k :: 0 <= k < |cols| && Collides(rows, cols[k], Field(s, cols[k]), self) &&
                        (forall j :: 0 <= j < k ==> !Collides(rows, cols[j], Field(s, cols[j]), self)) ==>
              FirstCollision(rows, s, self, cols) == Some(FailureFor(cols[k]))
  {
    if cols != [] {
      FirstCollisionIsFirst(rows, s, self, cols[1..]);
      forall k | 0 <= k < |cols| && Collides(rows, cols[k], Field(s, cols[k]), self) &&
                 (forall j :: 0 <= j < k ==> !Collides(rows, cols[j], Field(s, cols[j]), self))
        ensures FirstCollision(rows, s, self, cols) == Some(FailureFor(cols[k]))
      {
        if k > 0 {
          assert cols[1..][k - 1] == cols[k];
          forall j | 0 <= j < k - 1
            ensures !Collides(rows, cols[1..][j], Field(s, cols[1..][j]), self)
          {
            assert cols[1..][j] == cols[j + 1];
          }
        }
      }
      if FirstCollision(rows, s, self, cols).None? {
        forall k | 0 <= k < |cols| ensures !Collides(rows, cols[k], Field(s, cols[k]), self) {
          if k > 0 {
            assert cols[1..][k - 1] == cols[k];
          }
        }
      }
      if forall k :: 0 <= k < |cols| ==> !Collides(rows, cols[k], Field(s, cols[k]), self) {
        forall k | 0 <= k < |cols[1..]| ensures !Collides(rows, cols[1..][k], Field(s, cols[1..][k]), self) {
          assert cols[1..][k] == cols[k + 1];
        }
      }
    }
  }

  /** The source's nested chain is the ordered scan over studentId, phone, email, name. */
  lemma CheckDuplicateIsOrderedScan(rows: seq<Row>, s: Student, self: Option<int>)
    ensures CheckDuplicate(rows, s, self) == FirstCollision(rows, s, self, CHECK_ORDER)
  {
    var tail3, tail2, tail1 := [Phone, Email, Name], [Email, Name], [Name];
    assert CHECK_ORDER[1..] == tail3 && tail3[1..] == tail2 && tail2[1..] == tail1 && tail1[1..] == [];
    assert FirstCollision(rows, s, self, tail1) ==
      if Collides(rows, Name, s.name, self) then Some(Duplicate) else None;
    assert FirstCollision(rows, s, self, tail2) ==
      if Collides(rows, Email, s.email, self) then Some(EmailErr) else FirstCollision(rows, s, self, tail1);
    assert FirstCollision(rows, s, self, tail3) ==
      if Collides(rows, Phone, s.phone, self) then Some(PhoneErr) else FirstCollision(rows, s, self, tail2);
  }

  /** What the validator reports, stated through the order: the kind of the first colliding column, or none when no column collides. */
  lemma CheckDuplicateReports(rows: seq<Row>, s: Student, self: Option<int>)
    ensures CheckDuplicate(rows, s, self).None? <==>
              forall k :: 0 <= k < |CHECK_ORDER| ==> !Collides(rows, CHECK_ORDER[k], Field(s, CHECK_ORDER[k]), self)
    ensures forall k :: 0 <= k < |CHECK_ORDER| && Collides(rows, CHECK_ORDER[k], Field(s, CHECK_ORDER[k]), self) &&
                        (forall j :: 0 <= j < k ==> !Collides(rows, CHECK_ORDER[j], Field(s, CHECK_ORDER[j]), self)) ==>
              CheckDuplicate(rows, s, self) == Some(FailureFor(CHECK_ORDER[k]))
  {
    CheckDuplicateIsOrderedScan(rows, s, self);
    FirstCollisionIsFirst(rows, s, self, CHECK_ORDER);
  }

  /** On create every row is a candidate: a passing check means no row shares studentId, phone, email or name with the new student. */
  lemma CreateCheckSeesEveryRow(rows: seq<Row>, s: Student, r: Row)
    requires CheckDuplicate(rows, s, None).None?
    requires r in rows
    ensures r.student.studentId != s.studentId && r.student.phone != s.phone
    ensures r.student.email != s.email && r.student.name != s.name
  {
  }

  /** Self-exclusion: with a key given, a lookup behaves as if the row with that key were not in the table. */
  lemma CollidesIgnoresSelf(rows: seq<Row>, c: Column, value: string, id: int)
    requires c != Id
    ensures Collides(rows, c, value, Some(id)) == Collides(WithoutId(rows, id), c, value, None)
  {
    WithoutIdContents(rows, id);
  }

  /** Self-exclusion for the whole validator: updating row `id` is checked against every other row, and only against them. */
  lemma CheckDuplicateIgnoresSelf(rows: seq<Row>, s: Student, id: int)
    ensures CheckDuplicate(rows, s, Some(id)) == CheckDuplicate(WithoutId(rows, id), s, None)
  {
    CollidesIgnoresSelf(rows, StudentId, s.studentId, id);
    CollidesIgnoresSelf(rows, Phone, s.phone, id);
    CollidesIgnoresSelf(rows, Email, s.email, id);
    CollidesIgnoresSelf(rows, Name, s.name, id);
  }

  /** Whatever the row being updated currently holds, it never produces a collision. */
  lemma CheckDuplicateIgnoresSelfContents(rows: seq<Row>, s: Student, id: int, t: Student)
    ensures CheckDuplicate(Replace(rows, id, t), s, Some(id)) == CheckDuplicate(rows, s, Some(id))
  {
    var rows' := Replace(rows, id, t);
    ReplaceContents(rows, id, t);
    WithoutIdContents(rows, id);
    WithoutIdContents(rows', id);
    forall c, v: string | c != Id ensures Collides(rows', c, v, Some(id)) == Collides(rows, c, v, Some(id)) {
      if Collides(rows', c, v, Some(id)) {
        var r :| r in rows' && Field(r.student, c) == v && r.id != id;
        var i :| 0 <= i < |rows'| && rows'[i] == r;
        assert rows[i] == r;
      }
      if Collides(rows, c, v, Some(id)) {
        var r :| r in rows && Field(r.student, c) == v && r.id != id;
        var i :| 0 <= i < |rows| && rows[i] == r;
        assert rows'[i] == r;
      }
    }
  }

  /** An update key that no row has is checked exactly like a create. */
  lemma AbsentSelfIsCreate(rows: seq<Row>, s: Student, id: int)
    requires !HasId(rows, id)
    ensures CheckDuplicate(rows, s, Some(id)) == CheckDuplicate(rows, s, None)
  {
    forall c, v: string | c != Id ensures Collides(rows, c, v, Some(id)) == Collides(rows, c, v, None) {
      if Collides(rows, c, v, None) {
        var r :| r in rows && Field(r.student, c) == v;
        var i :| 0 <= i < |rows| && rows[i] == r;
      }
    }
  }
}
