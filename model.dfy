/**
 * The data model of the students service: the `students` table's columns,
 * its rows, the failure kinds the data access layer reports, and the
 * row-set operations that the table's SQL statements perform
 * (`WHERE id = $1` selections, `UPDATE ... WHERE id`, `DELETE ... WHERE id`).
 */
module Model {

  datatype Option<T> = None | Some(value: T) {
    function GetOr(default: T): T {
      match this
      case Some(v) => v
      case None => default
    }
  }

  datatype Result<T, E> = Ok(value: T) | Err(error: E)

  /** The seven client-supplied columns of a student, in the table's column order. */
  datatype Student = Student(
    name: string,
    gender: string,
    studentId: string,
    birthDate: string,
    phone: string,
    email: string,
    address: string)

  /** A stored row: the SERIAL primary key and the seven columns. */
  datatype Row = Row(id: int, student: Student)

  /** The eight columns of the table. */
  datatype Column = Id | Name | Gender | StudentId | BirthDate | Phone | Email | Address

  /** The column's name as the schema declares it (case matters: two of them are quoted). */
  function ColumnName(c: Column): string {
    match c
    case Id => "id"
    case Name => "name"
    case Gender => "gender"
    case StudentId => "studentId"
    case BirthDate => "birthDate"
    case Phone => "phone"
    case Email => "email"
    case Address => "address"
  }

  /** The column a name denotes, if any: exact, case-sensitive match on the eight names. */
  function ParseColumn(s: string): (r: Option<Column>)
    ensures r.Some? ==> ColumnName(r.value) == s
  {
    if s == "id" then Some(Id)
    else if s == "name" then Some(Name)
    else if s == "gender" then Some(Gender)
    else if s == "studentId" then Some(StudentId)
    else if s == "birthDate" then Some(BirthDate)
    else if s == "phone" then Some(Phone)
    else if s == "email" then Some(Email)
    else if s == "address" then Some(Address)
    else None
  }

  /** Every column is found again from its own name, so a name denotes at most one column. */
  lemma ParseColumnName(c: Column)
    ensures ParseColumn(ColumnName(c)) == Some(c)
  {
  }

  /** The text held in one of the seven text columns of a student. */
  function Field(s: Student, c: Column): string
    requires c != Id
  {
    match c
    case Name => s.name
    case Gender => s.gender
    case StudentId => s.studentId
    case BirthDate => s.birthDate
    case Phone => s.phone
    case Email => s.email
    case Address => s.address
  }

  /**
   * The failures that adding or updating a student reports: one per
   * pre-checked unique field, and a generic storage error that carries the
   * store's own message.
   */
  datatype Failure = IdErr | PhoneErr | EmailErr | Duplicate | StorageError(message: string) {

    /** The `type` discriminator carried to the client. */
    function Type(): string {
      match this
      case IdErr => "idErr"
      case PhoneErr => "phoneErr"
      case EmailErr => "emailErr"
      case Duplicate => "duplicate"
      case StorageError(_) => "error"
    }

    /** The `msg` carried to the client. */
    function Msg(): string {
      match this
      case IdErr => "ID duplicate!"
      case PhoneErr => "Phone duplicate!"
      case EmailErr => "Email duplicate!"
      case Duplicate => "Name exists!"
      case StorageError(m) => m
    }
  }

  /** The discriminator tells the kinds apart: it is enough to recover the kind of a validation failure. */
  lemma TypeDistinguishesKinds(f: Failure, g: Failure)
    ensures f.Type() == g.Type() <==> (f.StorageError? && g.StorageError?) || (!f.StorageError? && f == g)
  {
  }

  /** A write's `force` flag, absent meaning false (the default parameter of the data access layer). */
  function ForceFlag(force: Option<bool>): bool {
    force.GetOr(false)
  }

  // ---------------------------------------------------------------------------
  // Row-set operations

  /** Some row has this primary key. */
  predicate HasId(rows: seq<Row>, id: int) {
    exists i :: 0 <= i < |rows| && rows[i].id == id
  }

  /** The number of rows a statement `... WHERE id = $1` selects. */
  function CountId(rows: seq<Row>, id: int): nat {
    if rows == [] then 0
    else (if rows[0].id == id then 1 else 0) + CountId(rows[1..], id)
  }

  /** The primary keys are pairwise distinct. */
  predicate DistinctIds(rows: seq<Row>) {
    forall i, j :: 0 <= i < j < |rows| ==> rows[i].id != rows[j].id
  }

  /** The UNIQUE constraint on studentId holds. */
  predicate DistinctStudentIds(rows: seq<Row>) {
    forall i, j :: 0 <= i < j < |rows| ==> rows[i].student.studentId != rows[j].student.studentId
  }

  /** For a table with distinct keys, a targeted statement selects one row when the key is present and none otherwise. */
  lemma {:induction false} CountIdIsZeroOrOne(rows: seq<Row>, id: int)
    requires DistinctIds(rows)
    ensures CountId(rows, id) == if HasId(rows, id) then 1 else 0
  {
    if rows != [] {
      assert DistinctIds(rows[1..]) by {
        forall i, j | 0 <= i < j < |rows[1..]|
          ensures rows[1..][i].id != rows[1..][j].id
        {
          assert rows[1..][i] == rows[i + 1] && rows[1..][j] == rows[j + 1];
        }
      }
      CountIdIsZeroOrOne(rows[1..], id);
      if rows[0].id == id {
        assert !HasId(rows[1..], id) by {
          forall i | 0 <= i < |rows[1..]| ensures rows[1..][i].id != id {
            assert rows[1..][i] == rows[i + 1];
          }
        }
      } else {
        if HasId(rows, id) {
          var i :| 0 <= i < |rows| && rows[i].id == id;
          assert rows[1..][i - 1] == rows[i];
        }
        if HasId(rows[1..], id) {
          var i :| 0 <= i < |rows[1..]| && rows[1..][i].id == id;
          assert rows[i + 1] == rows[1..][i];
        }
      }
    }
  }

  /** `DELETE FROM students WHERE id = $1`: the rows whose key differs, in their order. */
  function WithoutId(rows: seq<Row>, id: int): seq<Row> {
    if rows == [] then []
    else if rows[0].id == id then WithoutId(rows[1..], id)
    else [rows[0]] + WithoutId(rows[1..], id)
  }

  /** Deleting keeps exactly the rows with another key, and removes as many rows as it selects. */
  lemma {:induction false} WithoutIdContents(rows: seq<Row>, id: int)
    ensures forall r :: r in WithoutId(rows, id) <==> r in rows && r.id != id
    ensures |WithoutId(rows, id)| == |rows| - CountId(rows, id)
  {
    if rows != [] {
      WithoutIdContents(rows[1..], id);
      assert rows == [rows[0]] + rows[1..];
    }
  }

  /** Deleting a key that no row has leaves the rows as they were. */
  lemma {:induction false} WithoutIdAbsent(rows: seq<Row>, id: int)
    requires !HasId(rows, id)
    ensures WithoutId(rows, id) == rows
  {
    if rows != [] {
      assert !HasId(rows[1..], id) by {
        forall i | 0 <= i < |rows[1..]| ensures rows[1..][i].id != id {
          assert rows[1..][i] == rows[i + 1];
        }
      }
      WithoutIdAbsent(rows[1..], id);
      assert rows == [rows[0]] + rows[1..];
    }
  }

  /** `UPDATE students SET <seven columns> WHERE id = $8`: the selected rows take the new columns and keep their key. */
  function Replace(rows: seq<Row>, id: int, s: Student): (r: seq<Row>)
    ensures |r| == |rows|
  {
    seq(|rows|, i requires 0 <= i < |rows| => if rows[i].id == id then Row(id, s) else rows[i])
  }

  /** Updating rewrites the rows with that key, in place, and leaves every other row and every key as it was. */
  lemma ReplaceContents(rows: seq<Row>, id: int, s: Student)
    ensures forall i :: 0 <= i < |rows| ==> Replace(rows, id, s)[i].id == rows[i].id
    ensures forall i :: 0 <= i < |rows| && rows[i].id != id ==> Replace(rows, id, s)[i] == rows[i]
    ensures forall i :: 0 <= i < |rows| && rows[i].id == id ==> Replace(rows, id, s)[i].student == s
    ensures CountId(Replace(rows, id, s), id) == CountId(rows, id)
  {
    ReplaceCount(rows, id, s);
  }

  lemma {:induction false} ReplaceCount(rows: seq<Row>, id: int, s: Student)
    ensures CountId(Replace(rows, id, s), id) == CountId(rows, id)
  {
    if rows != [] {
      ReplaceCount(rows[1..], id, s);
      assert Replace(rows, id, s)[1..] == Replace(rows[1..], id, s);
    }
  }
}
