/**
 * The attendance registry behind the web application's route handlers.
 *
 * Two tables, admins and students, each with a login flag; the handlers are
 * transitions over them, guarded by who is recorded in the web session. Each
 * handler is stated twice: once as a pure step function over a `Db` value
 * (the specification, with its properties proved as lemmas), once as a
 * method of class `Registry`, which updates the two tables in place and is
 * proved to perform exactly that step.
 *
 * Password hashing is salted and so is not a function of the password: a new
 * row receives its hash as an input. Password checking is a parameter
 * `checkPassword(hash, password)`, left uninterpreted.
 */
module Attendance {
  import opened Wrappers
  import opened Query
  import Collation

  /** The registration code an admin must present. */
  const ADMIN_SECRET_KEY := "69420"

  /** The first row of the downloaded attendance sheet. */
  const CSV_HEADER := ["Student ID", "Username"]

  /** A row of the admin table; `id` is the integer primary key. */
  datatype Admin = Admin(id: nat, idname: string, username: string, passwordHash: string, sessionActive: bool)

  /** A row of the student table. */
  datatype Student = Student(studentId: string, username: string, passwordHash: string, isLoggedIn: bool)

  /** Both tables, each in row (insertion) order. */
  datatype Db = Db(admins: seq<Admin>, students: seq<Student>)

  /** The projection that `active_students` returns for each student. */
  datatype StudentRow = StudentRow(studentId: string, username: string)

  /** What a handler leaves behind: the new tables and its reply. */
  datatype Step<R> = Step(db: Db, reply: R)

  datatype AdminRegistration = AdminRegistered | InvalidSecretKey | AdminExists

  datatype StudentRegistration = StudentRegistered | StudentExists

  /**
   * Reply of `start_session` and `end_session`: done, refused with 403 when
   * no admin is in the session, or a server error when the session names an
   * admin id that has no row (the handler then dereferences `None` and
   * nothing is committed).
   */
  datatype SessionReply = Done | Unauthorized | ServerError

  // ---------------------------------------------------------------------
  // Table constraints

  /**
   * Admin ids are the row numbers 1, 2, ... (an integer primary key on a
   * table that is never deleted from), and `idname` and `username` are
   * unique.
   */
  predicate AdminsWellFormed(admins: seq<Admin>)
  {
    && (forall i :: 0 <= i < |admins| ==> admins[i].id == i + 1)
    && (forall i, j :: 0 <= i < j < |admins| ==>
          admins[i].idname != admins[j].idname && admins[i].username != admins[j].username)
  }

  /** `student_id` and `username` are unique among students. */
  predicate StudentsWellFormed(students: seq<Student>)
  {
    forall i, j :: 0 <= i < j < |students| ==>
      students[i].studentId != students[j].studentId && students[i].username != students[j].username
  }

  predicate WellFormed(db: Db)
  {
    AdminsWellFormed(db.admins) && StudentsWellFormed(db.students)
  }

  // ---------------------------------------------------------------------
  // Lookups: `query.filter(...).first()`

  function AdminById(admins: seq<Admin>, id: nat): Option<nat>
  {
    First(admins, (a: Admin) => a.id == id)
  }

  function AdminByUsername(admins: seq<Admin>, username: string): Option<nat>
  {
    First(admins, (a: Admin) => a.username == username)
  }

  /** The admin `register_admin` finds with its `idname == ... OR username == ...` filter. */
  function AdminClash(admins: seq<Admin>, idname: string, username: string): (r: Option<nat>)
    ensures r.Some? <==> exists i :: 0 <= i < |admins| && (admins[i].idname == idname || admins[i].username == username)
  {
    First(admins, (a: Admin) => a.idname == idname || a.username == username)
  }

  function StudentById(students: seq<Student>, studentId: string): Option<nat>
  {
    First(students, (s: Student) => s.studentId == studentId)
  }

  function StudentByUsername(students: seq<Student>, username: string): Option<nat>
  {
    First(students, (s: Student) => s.username == username)
  }

  /** The student `register_student` finds with its `student_id == ... OR username == ...` filter. */
  function StudentClash(students: seq<Student>, studentId: string, username: string): (r: Option<nat>)
    ensures r.Some? <==>
      exists i :: 0 <= i < |students| && (students[i].studentId == studentId || students[i].username == username)
  {
    First(students, (s: Student) => s.studentId == studentId || s.username == username)
  }

  /** Every student logged out, as the bulk update of `end_session` leaves them. */
  function LoggedOutAll(students: seq<Student>): (r: seq<Student>)
    ensures |r| == |students|
    ensures forall i :: 0 <= i < |r| ==> !r[i].isLoggedIn
    ensures forall i :: 0 <= i < |r| ==>
      r[i].studentId == students[i].studentId && r[i].username == students[i].username &&
      r[i].passwordHash == students[i].passwordHash
  {
    seq(|students|, i requires 0 <= i < |students| => students[i].(isLoggedIn := false))
  }

  // ---------------------------------------------------------------------
  // Handlers as steps

  /** `register_admin`: the secret key is checked first, then uniqueness. */
  function RegisterAdminStep(db: Db, idname: string, username: string, passwordHash: string, secretKey: string)
    : (s: Step<AdminRegistration>)
    ensures s.reply == InvalidSecretKey <==> secretKey != ADMIN_SECRET_KEY
    ensures s.reply == AdminExists <==>
      secretKey == ADMIN_SECRET_KEY &&
      exists i :: 0 <= i < |db.admins| && (db.admins[i].idname == idname || db.admins[i].username == username)
    ensures s.reply != AdminRegistered ==> s.db == db
    ensures s.reply == AdminRegistered ==>
      s.db == db.(admins := db.admins + [Admin(|db.admins| + 1, idname, username, passwordHash, false)])
    ensures WellFormed(db) ==> WellFormed(s.db)
  {
    if secretKey != ADMIN_SECRET_KEY then Step(db, InvalidSecretKey)
    else if AdminClash(db.admins, idname, username).Some? then Step(db, AdminExists)
    else
      var admin := Admin(|db.admins| + 1, idname, username, passwordHash, false);
      Step(db.(admins := db.admins + [admin]), AdminRegistered)
  }

  /** `register_student`: refused if the id or the username is taken. */
  function RegisterStudentStep(db: Db, studentId: string, username: string, passwordHash: string)
    : (s: Step<StudentRegistration>)
    ensures s.reply == StudentExists <==>
      exists i :: 0 <= i < |db.students| &&
        (db.students[i].studentId == studentId || db.students[i].username == username)
    ensures s.reply == StudentExists ==> s.db == db
    ensures s.reply == StudentRegistered ==>
      s.db == db.(students := db.students + [Student(studentId, username, passwordHash, false)])
    ensures WellFormed(db) ==> WellFormed(s.db)
  {
    if StudentClash(db.students, studentId, username).Some? then Step(db, StudentExists)
    else Step(db.(students := db.students + [Student(studentId, username, passwordHash, false)]), StudentRegistered)
  }

  /**
   * `login_admin`: the id it stores in the session, if the first admin with
   * that username passes the password check. The tables do not change.
   */
  function LoginAdmin(db: Db, username: string, password: string, checkPassword: (string, string) -> bool)
    : (r: Option<nat>)
    ensures r.Some? ==>
      exists i :: 0 <= i < |db.admins| && db.admins[i].id == r.value &&
        db.admins[i].username == username && checkPassword(db.admins[i].passwordHash, password)
  {
    match AdminByUsername(db.admins, username)
    case None => None
    case Some(k) =>
      if checkPassword(db.admins[k].passwordHash, password) then Some(db.admins[k].id) else None
  }

  /**
   * `login_student`: on success the student's id goes into the session and
   * exactly that student's row is marked logged in. The admins' session
   * flags are not consulted.
   */
  function LoginStudentStep(db: Db, username: string, password: string, checkPassword: (string, string) -> bool)
    : (s: Step<Option<string>>)
    ensures s.reply.None? ==> s.db == db
    ensures s.reply.Some? ==>
      exists k :: 0 <= k < |db.students| &&
        db.students[k].username == username && checkPassword(db.students[k].passwordHash, password) &&
        s.reply.value == db.students[k].studentId &&
        s.db == db.(students := db.students[k := db.students[k].(isLoggedIn := true)])
    ensures WellFormed(db) ==> WellFormed(s.db)
  {
    match StudentByUsername(db.students, username)
    case None => Step(db, None)
    case Some(k) =>
      if checkPassword(db.students[k].passwordHash, password) then
        Step(db.(students := db.students[k := db.students[k].(isLoggedIn := true)]), Some(db.students[k].studentId))
      else Step(db, None)
  }

  /**
   * `logout`: the student named by the session, if any and if found, is
   * marked logged out; then the session is cleared (by the caller).
   */
  function LogoutStep(db: Db, sessionStudent: Option<string>): (r: Db)
    ensures r.admins == db.admins && |r.students| == |db.students|
    ensures sessionStudent.None? ==> r == db
    ensures forall k :: 0 <= k < |db.students| ==>
      r.students[k] == db.students[k] ||
      (sessionStudent == Some(db.students[k].studentId) && r.students[k] == db.students[k].(isLoggedIn := false))
    ensures sessionStudent.Some? && StudentById(db.students, sessionStudent.value).Some? ==>
      var k := StudentById(db.students, sessionStudent.value).value;
      !r.students[k].isLoggedIn
    ensures sessionStudent.Some? && StudentById(db.students, sessionStudent.value).None? ==> r == db
    ensures WellFormed(db) ==> WellFormed(r)
  {
    match sessionStudent
    case None => db
    case Some(id) =>
      match StudentById(db.students, id)
      case None => db
      case Some(k) => db.(students := db.students[k := db.students[k].(isLoggedIn := false)])
  }

  /** `start_session`: the session's admin gets `session_active` set. */
  function StartSessionStep(db: Db, sessionAdmin: Option<nat>): (s: Step<SessionReply>)
    ensures s.reply == Unauthorized <==> sessionAdmin.None?
    ensures s.reply == ServerError <==>
      sessionAdmin.Some? && forall i :: 0 <= i < |db.admins| ==> db.admins[i].id != sessionAdmin.value
    ensures s.reply != Done ==> s.db == db
    ensures s.reply == Done ==>
      exists k :: 0 <= k < |db.admins| && Some(db.admins[k].id) == sessionAdmin &&
        s.db == db.(admins := db.admins[k := db.admins[k].(sessionActive := true)])
    ensures WellFormed(db) ==> WellFormed(s.db)
  {
    match sessionAdmin
    case None => Step(db, Unauthorized)
    case Some(id) =>
      match AdminById(db.admins, id)
      case None => Step(db, ServerError)
      case Some(k) => Step(db.(admins := db.admins[k := db.admins[k].(sessionActive := true)]), Done)
  }

  /**
   * `end_session`: the session's admin gets `session_active` cleared and
   * every student, whoever's class they were in, is logged out.
   */
  function EndSessionStep(db: Db, sessionAdmin: Option<nat>): (s: Step<SessionReply>)
    ensures s.reply == Unauthorized <==> sessionAdmin.None?
    ensures s.reply == ServerError <==>
      sessionAdmin.Some? && forall i :: 0 <= i < |db.admins| ==> db.admins[i].id != sessionAdmin.value
    ensures s.reply != Done ==> s.db == db
    ensures s.reply == Done ==>
      (exists k :: 0 <= k < |db.admins| && Some(db.admins[k].id) == sessionAdmin &&
        s.db.admins == db.admins[k := db.admins[k].(sessionActive := false)]) &&
      |s.db.students| == |db.students| &&
      forall i :: 0 <= i < |db.students| ==> s.db.students[i] == db.students[i].(isLoggedIn := false)
    ensures WellFormed(db) ==> WellFormed(s.db)
  {
    match sessionAdmin
    case None => Step(db, Unauthorized)
    case Some(id) =>
      match AdminById(db.admins, id)
      case None => Step(db, ServerError)
      case Some(k) =>
        Step(Db(db.admins[k := db.admins[k].(sessionActive := false)], LoggedOutAll(db.students)), Done)
  }

  // ---------------------------------------------------------------------
  // Queries: `active_students` and `download_attendance`

  function RowOf(s: Student): StudentRow
  {
    StudentRow(s.studentId, s.username)
  }

  /** The logged-in students, projected, in row order (before `ORDER BY`). */
  function LoggedInRows(students: seq<Student>): (rows: seq<StudentRow>)
    ensures forall row :: row in rows <==>
      exists i :: 0 <= i < |students| && students[i].isLoggedIn && RowOf(students[i]) == row
  {
    if |students| == 0 then []
    else
      var rest := LoggedInRows(students[1..]);
      assert forall i :: 1 <= i < |students| ==> students[i] == students[1..][i - 1];
      if students[0].isLoggedIn then [RowOf(students[0])] + rest else rest
  }

  predicate SortedById(rows: seq<StudentRow>)
  {
    forall i, j :: 0 <= i < j < |rows| ==> Collation.Le(rows[i].studentId, rows[j].studentId)
  }

  /** Sorted by id with no id twice. */
  predicate StrictlySortedById(rows: seq<StudentRow>)
  {
    forall i, j :: 0 <= i < j < |rows| ==>
      Collation.Le(rows[i].studentId, rows[j].studentId) && rows[i].studentId != rows[j].studentId
  }

  function InsertById(row: StudentRow, rows: seq<StudentRow>): (r: seq<StudentRow>)
    requires SortedById(rows)
    ensures SortedById(r)
    ensures multiset(r) == multiset(rows) + multiset{row}
  {
    if |rows| == 0 then [row]
    else if Collation.Le(row.studentId, rows[0].studentId) then
      forall j | 0 <= j < |rows| ensures Collation.Le(row.studentId, rows[j].studentId) {
        if j > 0 { Collation.LeTransitive(row.studentId, rows[0].studentId, rows[j].studentId); }
      }
      [row] + rows
    else
      var rest := InsertById(row, rows[1..]);
      Collation.LeTotal(row.studentId, rows[0].studentId);
      assert rows == [rows[0]] + rows[1..];
      forall x | x in rest ensures Collation.Le(rows[0].studentId, x.studentId) {
        assert x in multiset(rest);
        if x != row {
          assert x in rows[1..];
        }
      }
      [rows[0]] + rest
  }

  /** The deterministic stand-in for the database's `ORDER BY student_id`. */
  function SortById(rows: seq<StudentRow>): (r: seq<StudentRow>)
    ensures SortedById(r)
    ensures multiset(r) == multiset(rows)
  {
    if |rows| == 0 then []
    else
      assert rows == [rows[0]] + rows[1..];
      InsertById(rows[0], SortById(rows[1..]))
  }

  /** `active_students`: the logged-in students ordered by `student_id`. */
  function ActiveStudents(students: seq<Student>): (r: seq<StudentRow>)
    ensures SortedById(r)
    ensures multiset(r) == multiset(LoggedInRows(students))
  {
    SortById(LoggedInRows(students))
  }

  /** `download_attendance`: a header, then one row per active student. */
  function AttendanceCsv(students: seq<Student>): (rows: seq<seq<string>>)
    ensures |rows| == |ActiveStudents(students)| + 1 && rows[0] == CSV_HEADER
    ensures forall i :: 0 <= i < |ActiveStudents(students)| ==>
      rows[i + 1] == [ActiveStudents(students)[i].studentId, ActiveStudents(students)[i].username]
  {
    var active := ActiveStudents(students);
    [CSV_HEADER] + seq(|active|, i requires 0 <= i < |active| => [active[i].studentId, active[i].username])
  }

  // ---------------------------------------------------------------------
  // Lemmas

  /** A row is listed by `active_students` exactly when a logged-in student projects to it. */
  lemma ActiveStudentsMembers(students: seq<Student>, row: StudentRow)
    ensures row in ActiveStudents(students) <==>
      exists i :: 0 <= i < |students| && students[i].isLoggedIn && RowOf(students[i]) == row
  {
    var active := ActiveStudents(students);
    assert row in active <==> row in multiset(active);
    assert row in LoggedInRows(students) <==> row in multiset(LoggedInRows(students));
  }

  /** With unique student ids the logged-in rows have unique ids too. */
  lemma {:induction false} LoggedInRowsDistinct(students: seq<Student>)
    requires StudentsWellFormed(students)
    ensures forall i, j :: 0 <= i < j < |LoggedInRows(students)| ==>
      LoggedInRows(students)[i].studentId != LoggedInRows(students)[j].studentId
  {
    if |students| > 0 {
      var rest := LoggedInRows(students[1..]);
      assert StudentsWellFormed(students[1..]) by {
        forall i, j | 0 <= i < j < |students[1..]|
          ensures students[1..][i].studentId != students[1..][j].studentId
        {
          assert students[1..][i] == students[i + 1] && students[1..][j] == students[j + 1];
        }
      }
      LoggedInRowsDistinct(students[1..]);
      if students[0].isLoggedIn {
        var rows := [RowOf(students[0])] + rest;
        assert rows == LoggedInRows(students);
        forall j | 0 < j < |rows| ensures rows[0].studentId != rows[j].studentId {
          assert rows[j] in rest;
          var i :| 0 <= i < |students[1..]| && students[1..][i].isLoggedIn && RowOf(students[1..][i]) == rows[j];
          assert students[1..][i] == students[i + 1];
        }
      }
    }
  }

  /** A sequence whose elements differ pairwise holds each at most once. */
  lemma {:induction false} DistinctCountsOnce(rows: seq<StudentRow>, x: StudentRow)
    requires forall i, j :: 0 <= i < j < |rows| ==> rows[i].studentId != rows[j].studentId
    ensures multiset(rows)[x] <= 1
  {
    if |rows| > 0 {
      assert rows == [rows[0]] + rows[1..];
      DistinctCountsOnce(rows[1..], x);
      if rows[0] == x {
        assert x !in rows[1..] by {
          forall j | 0 <= j < |rows[1..]| ensures rows[1..][j] != x {
            assert rows[1..][j] == rows[j + 1];
          }
        }
      }
    }
  }

  /** A sequence holding the same element at two positions counts it twice. */
  lemma TwiceCountsTwice(rows: seq<StudentRow>, i: nat, j: nat)
    requires i < j < |rows| && rows[i] == rows[j]
    ensures multiset(rows)[rows[i]] >= 2
  {
    assert rows == rows[..j] + [rows[j]] + rows[j + 1..];
    assert rows[i] in rows[..j];
  }

  /** With unique student ids, `active_students` lists no id twice. */
  lemma ActiveStudentsStrictlySorted(students: seq<Student>)
    requires StudentsWellFormed(students)
    ensures StrictlySortedById(ActiveStudents(students))
  {
    var active, rows := ActiveStudents(students), LoggedInRows(students);
    LoggedInRowsDistinct(students);
    forall i, j | 0 <= i < j < |active| ensures active[i].studentId != active[j].studentId {
      if active[i].studentId == active[j].studentId {
        ActiveStudentsMembers(students, active[i]);
        ActiveStudentsMembers(students, active[j]);
        var a :| 0 <= a < |students| && students[a].isLoggedIn && RowOf(students[a]) == active[i];
        var b :| 0 <= b < |students| && students[b].isLoggedIn && RowOf(students[b]) == active[j];
        assert a == b;
        TwiceCountsTwice(active, i, j);
        DistinctCountsOnce(rows, active[i]);
        assert false;
      }
    }
  }

  /**
   * Two strictly sorted lists with the same rows are the same list: the
   * order of `active_students` is fixed by the ids alone.
   */
  lemma {:induction false} StrictlySortedUnique(a: seq<StudentRow>, b: seq<StudentRow>)
    requires StrictlySortedById(a) && StrictlySortedById(b)
    requires forall x :: x in a <==> x in b
    ensures a == b
  {
    assert |a| > 0 ==> a[0] in b;
    assert |b| > 0 ==> b[0] in a;
    if |a| > 0 && |b| > 0 {
      var ka :| 0 <= ka < |b| && b[ka] == a[0];
      var kb :| 0 <= kb < |a| && a[kb] == b[0];
      if ka > 0 {
        if kb > 0 {
          Collation.LeAntisymmetric(a[0].studentId, b[0].studentId);
        }
        assert false;
      }
      assert a[0] == b[0];
      forall x ensures x in a[1..] <==> x in b[1..] {
        if x in a[1..] {
          var i :| 0 <= i < |a[1..]| && a[1..][i] == x;
          assert a[i + 1] == x && a[0] != x;
          assert x in b;
          var j :| 0 <= j < |b| && b[j] == x;
          assert j > 0;
          assert b[1..][j - 1] == x;
        }
        if x in b[1..] {
          var j :| 0 <= j < |b[1..]| && b[1..][j] == x;
          assert b[j + 1] == x && b[0] != x;
          assert x in a;
          var i :| 0 <= i < |a| && a[i] == x;
          assert i > 0;
          assert a[1..][i - 1] == x;
        }
      }
      assert StrictlySortedById(a[1..]) by {
        forall i, j | 0 <= i < j < |a[1..]|
          ensures Collation.Le(a[1..][i].studentId, a[1..][j].studentId) && a[1..][i].studentId != a[1..][j].studentId
        {
          assert a[1..][i] == a[i + 1] && a[1..][j] == a[j + 1];
        }
      }
      assert StrictlySortedById(b[1..]) by {
        forall i, j | 0 <= i < j < |b[1..]|
          ensures Collation.Le(b[1..][i].studentId, b[1..][j].studentId) && b[1..][i].studentId != b[1..][j].studentId
        {
          assert b[1..][i] == b[i + 1] && b[1..][j] == b[j + 1];
        }
      }
      StrictlySortedUnique(a[1..], b[1..]);
      assert a == [a[0]] + a[1..] && b == [b[0]] + b[1..];
    }
  }

  /**
   * `active_students` is THE list of logged-in students' rows in increasing
   * `student_id` order: any list with those rows in that order equals it.
   */
  lemma ActiveStudentsDetermined(students: seq<Student>, rows: seq<StudentRow>)
    requires StudentsWellFormed(students)
    requires StrictlySortedById(rows)
    requires forall row :: row in rows <==>
      exists i :: 0 <= i < |students| && students[i].isLoggedIn && RowOf(students[i]) == row
    ensures rows == ActiveStudents(students)
  {
    ActiveStudentsStrictlySorted(students);
    forall row ensures row in rows <==> row in ActiveStudents(students) {
      ActiveStudentsMembers(students, row);
    }
    StrictlySortedUnique(rows, ActiveStudents(students));
  }

  /** With unique usernames, `login_admin` succeeds exactly for a matching admin. */
  lemma LoginAdminExactly(db: Db, username: string, password: string, checkPassword: (string, string) -> bool)
    requires WellFormed(db)
    ensures LoginAdmin(db, username, password, checkPassword).Some? <==>
      exists i :: 0 <= i < |db.admins| &&
        db.admins[i].username == username && checkPassword(db.admins[i].passwordHash, password)
  {
    if i :| 0 <= i < |db.admins| && db.admins[i].username == username && checkPassword(db.admins[i].passwordHash, password) {
      var k := AdminByUsername(db.admins, username);
      assert k.Some?;
      assert k.value == i;
    }
  }

  /** With unique usernames, `login_student` succeeds exactly for a matching student. */
  lemma LoginStudentExactly(db: Db, username: string, password: string, checkPassword: (string, string) -> bool)
    requires WellFormed(db)
    ensures LoginStudentStep(db, username, password, checkPassword).reply.Some? <==>
      exists i :: 0 <= i < |db.students| &&
        db.students[i].username == username && checkPassword(db.students[i].passwordHash, password)
  {
    if i :| 0 <= i < |db.students| && db.students[i].username == username && checkPassword(db.students[i].passwordHash, password) {
      var k := StudentByUsername(db.students, username);
      assert k.Some?;
      assert k.value == i;
    }
  }

  /** A student who logs in is then listed by `active_students`. */
  lemma LoginThenActive(db: Db, username: string, password: string, checkPassword: (string, string) -> bool)
    ensures var s := LoginStudentStep(db, username, password, checkPassword);
      s.reply.Some? ==> exists row :: row in ActiveStudents(s.db.students) && row.studentId == s.reply.value
  {
    var s := LoginStudentStep(db, username, password, checkPassword);
    if s.reply.Some? {
      var k :| 0 <= k < |db.students| && s.reply.value == db.students[k].studentId &&
        s.db == db.(students := db.students[k := db.students[k].(isLoggedIn := true)]);
      ActiveStudentsMembers(s.db.students, RowOf(s.db.students[k]));
    }
  }

  /** With unique ids, after `logout` the session's student is not listed. */
  lemma LogoutThenInactive(db: Db, studentId: string)
    requires WellFormed(db)
    ensures forall row :: row in ActiveStudents(LogoutStep(db, Some(studentId)).students) ==>
      row.studentId != studentId
  {
    var after := LogoutStep(db, Some(studentId));
    forall row | row in ActiveStudents(after.students) ensures row.studentId != studentId {
      ActiveStudentsMembers(after.students, row);
      var i :| 0 <= i < |after.students| && after.students[i].isLoggedIn && RowOf(after.students[i]) == row;
    }
  }

  /** Logging out twice is logging out once. */
  lemma LogoutIdempotent(db: Db, sessionStudent: Option<string>)
    ensures LogoutStep(LogoutStep(db, sessionStudent), sessionStudent) == LogoutStep(db, sessionStudent)
  {
    if sessionStudent.Some? {
      var once := LogoutStep(db, sessionStudent);
      FirstAgrees(db.students, once.students,
        (s: Student) => s.studentId == sessionStudent.value, (s: Student) => s.studentId == sessionStudent.value);
    }
  }

  /** After `end_session` nobody is active and the sheet holds only its header. */
  lemma EndSessionClearsAttendance(db: Db, sessionAdmin: Option<nat>)
    ensures var s := EndSessionStep(db, sessionAdmin);
      s.reply == Done ==> ActiveStudents(s.db.students) == [] && AttendanceCsv(s.db.students) == [CSV_HEADER]
  {
    var s := EndSessionStep(db, sessionAdmin);
    if s.reply == Done {
      var active := ActiveStudents(s.db.students);
      if |active| > 0 {
        ActiveStudentsMembers(s.db.students, active[0]);
        assert false;
      }
    }
  }

  /** `start_session` and `end_session` never touch the other admins. */
  lemma SessionStepsTouchOneAdmin(db: Db, sessionAdmin: Option<nat>, i: nat)
    requires i < |db.admins| && Some(db.admins[i].id) != sessionAdmin
    ensures StartSessionStep(db, sessionAdmin).db.admins[i] == db.admins[i]
    ensures EndSessionStep(db, sessionAdmin).db.admins[i] == db.admins[i]
  {
  }

  // ---------------------------------------------------------------------
  // The tables, updated in place by the handlers

  class Registry {
    var admins: seq<Admin>
    var students: seq<Student>

    ghost predicate Valid()
      reads this
    {
      WellFormed(State())
    }

    function State(): Db
      reads this
    {
      Db(admins, students)
    }

    /** Both tables start empty. */
    constructor ()
      ensures Valid() && admins == [] && students == []
    {
      admins := [];
      students := [];
    }

    method RegisterAdmin(idname: string, username: string, passwordHash: string, secretKey: string)
      returns (reply: AdminRegistration)
      requires Valid()
      modifies this
      ensures Valid()
      ensures Step(State(), reply) == RegisterAdminStep(old(State()), idname, username, passwordHash, secretKey)
    {
      if secretKey != ADMIN_SECRET_KEY {
        return InvalidSecretKey;
      }
      if AdminClash(admins, idname, username).Some? {
        return AdminExists;
      }
      admins := admins + [Admin(|admins| + 1, idname, username, passwordHash, false)];
      reply := AdminRegistered;
    }

    method RegisterStudent(studentId: string, username: string, passwordHash: string)
      returns (reply: StudentRegistration)
      requires Valid()
      modifies this
      ensures Valid()
      ensures Step(State(), reply) == RegisterStudentStep(old(State()), studentId, username, passwordHash)
    {
      if StudentClash(students, studentId, username).Some? {
        return StudentExists;
      }
      students := students + [Student(studentId, username, passwordHash, false)];
      reply := StudentRegistered;
    }

    /** Returns the student id stored in the session on success. */
    method LoginStudent(username: string, password: string, checkPassword: (string, string) -> bool)
      returns (session: Option<string>)
      requires Valid()
      modifies this
      ensures Valid()
      ensures Step(State(), session) == LoginStudentStep(old(State()), username, password, checkPassword)
    {
      session := None;
      var found := StudentByUsername(students, username);
      if found.Some? {
        var k := found.value;
        if checkPassword(students[k].passwordHash, password) {
          session := Some(students[k].studentId);
          students := students[k := students[k].(isLoggedIn := true)];
        }
      }
    }

    method Logout(sessionStudent: Option<string>)
      requires Valid()
      modifies this
      ensures Valid()
      ensures State() == LogoutStep(old(State()), sessionStudent)
    {
      if sessionStudent.Some? {
        var found := StudentById(students, sessionStudent.value);
        if found.Some? {
          var k := found.value;
          students := students[k := students[k].(isLoggedIn := false)];
        }
      }
    }

    method StartSession(sessionAdmin: Option<nat>) returns (reply: SessionReply)
      requires Valid()
      modifies this
      ensures Valid()
      ensures Step(State(), reply) == StartSessionStep(old(State()), sessionAdmin)
    {
      if sessionAdmin.None? {
        return Unauthorized;
      }
      var found := AdminById(admins, sessionAdmin.value);
      if found.None? {
        return ServerError;
      }
      var k := found.value;
      admins := admins[k := admins[k].(sessionActive := true)];
      reply := Done;
    }

    /** Clears the admin's flag, then logs out the students row by row. */
    method EndSession(sessionAdmin: Option<nat>) returns (reply: SessionReply)
      requires Valid()
      modifies this
      ensures Valid()
      ensures Step(State(), reply) == EndSessionStep(old(State()), sessionAdmin)
    {
      if sessionAdmin.None? {
        return Unauthorized;
      }
      var found := AdminById(admins, sessionAdmin.value);
      if found.None? {
        return ServerError;
      }
      var k := found.value;
      admins := admins[k := admins[k].(sessionActive := false)];
      var i := 0;
      while i < |students|
        invariant 0 <= i <= |students| == |old(students)|
        invariant forall j :: 0 <= j < i ==> students[j] == old(students)[j].(isLoggedIn := false)
        invariant forall j :: i <= j < |students| ==> students[j] == old(students)[j]
        invariant admins == old(admins)[k := old(admins)[k].(sessionActive := false)]
      {
        students := students[i := students[i].(isLoggedIn := false)];
        i := i + 1;
      }
      assert students == LoggedOutAll(old(students));
      reply := Done;
    }
  }
}
