/**
 * The API layer: the three tables held in memory, and one member per route.
 * Every route but login takes the claims that token authentication produced;
 * the clock's readings (`today`, `now`) and the hashing primitive are
 * parameters.
 */
module Api {
  import opened Outcomes
  import opened Query
  import opened Schema
  import opened Auth
  import opened Upload

  /** The account summary login returns. */
  datatype Profile = Profile(id: int, username: string, name: string, role: Role, className: Option<string>)

  /** A successful login: the claims the signed token carries, and the account summary. */
  datatype Session = Session(token: Claims, user: Profile)

  /** A row of the materials list: the material and its uploader's name (NULL when no account matches). */
  datatype MaterialRow = MaterialRow(material: Material, uploadedByName: Option<string>)

  /** A row of a student's own attendance list. */
  datatype OwnAttendanceRow = OwnAttendanceRow(record: Attendance, studentName: Option<string>)

  /** A row of the full attendance report, which also carries the student's class. */
  datatype ReportRow = ReportRow(record: Attendance, studentName: Option<string>, studentClass: Option<string>)

  /** The attendance list: a student's own rows, or the report teachers and admins see. */
  datatype AttendanceView = Own(own: seq<OwnAttendanceRow>) | Report(report: seq<ReportRow>)

  /** A row of the students list. */
  datatype StudentRow = StudentRow(id: int, username: string, name: string, className: Option<string>)

  /** The answer to "have I marked attendance today": the flag and the record found. */
  datatype TodayAttendance = TodayAttendance(hasAttendance: bool, attendance: Option<Attendance>)

  /** The text fields of a material upload; a field the client left out is None. */
  datatype MaterialForm = MaterialForm(title: Option<string>, description: Option<string>, subject: Option<string>, className: Option<string>)

  /** A file the upload middleware received: the client's name for it, its declared type, and where it was stored. */
  datatype UploadedFile = UploadedFile(originalName: string, mimetype: string, storedPath: string)

  /** The body of an attendance submission. */
  datatype AttendanceForm = AttendanceForm(status: Option<string>, notes: Option<string>)

  /** The body of a successful upload: the new row's id and a message. */
  datatype Created = Created(id: int, message: string)

  const MaterialUploaded := "Material uploaded successfully"
  const MaterialDeleted := "Material deleted successfully"
  const AttendanceMarked := "Attendance marked successfully"

  /** JavaScript truthiness of an optional text field: present and non-empty. */
  predicate Given(field: Option<string>)
  {
    field.Some? && field.value != []
  }

  /** The accounts created when the database is first set up; every student shares one password hash. */
  function SeedUsers(adminHash: string, teacherHash: string, studentHash: string): seq<User>
  {
    [ User(1, "admin", adminHash, "Administrator", Admin, None),
      User(2, "guru1", teacherHash, "Bapak Andi Saputra", Teacher, None),
      User(3, "siswa1", studentHash, "Ahmad Rizki", Student, Some("Kelas 1")),
      User(4, "siswa2", studentHash, "Siti Aminah", Student, Some("Kelas 1")),
      User(5, "siswa3", studentHash, "Budi Santoso", Student, Some("Kelas 2")),
      User(6, "siswa4", studentHash, "Dewi Sartika", Student, Some("Kelas 2")),
      User(7, "siswa5", studentHash, "Fajar Nugraha", Student, Some("Kelas 3")) ]
  }

  /** The account a LEFT JOIN on `users.id` finds, if any. */
  function AccountOf(users: seq<User>, id: int): Option<User>
  {
    FirstWhere(users, (u: User) => u.id == id)
  }

  function NameOf(users: seq<User>, id: int): SqlText
  {
    match AccountOf(users, id)
    case None => None
    case Some(u) => Some(u.name)
  }

  function ClassOf(users: seq<User>, id: int): SqlText
  {
    match AccountOf(users, id)
    case None => None
    case Some(u) => u.className
  }

  /** The record the lookup before an attendance insert finds. */
  function RecordOn(rows: seq<Attendance>, studentId: int, date: string): Option<Attendance>
  {
    FirstWhere(rows, (a: Attendance) => a.studentId == studentId && a.date == date)
  }

  function OwnRecords(rows: seq<Attendance>, studentId: int): seq<Attendance>
  {
    Where(rows, (a: Attendance) => a.studentId == studentId)
  }

  function StudentAccounts(users: seq<User>): seq<User>
  {
    Where(users, (u: User) => u.role == Student)
  }

  /** The materials table after `DELETE FROM materials WHERE id = ?`. */
  function WithoutMaterial(rows: seq<Material>, id: int): seq<Material>
  {
    Where(rows, (m: Material) => m.id != id)
  }

  /** The file the delete handler removes: the first row's stored path, when it has a non-empty one. */
  function FileToRemove(rows: seq<Material>, id: int): (path: Option<string>)
    ensures path.Some? ==> path.value != [] && exists m :: m in rows && m.id == id && m.filePath == path
    ensures (forall m :: m in rows ==> m.id != id) ==> path.None?
  {
    match FirstWhere(rows, (m: Material) => m.id == id)
    case None => None
    case Some(m) => if Given(m.filePath) then m.filePath else None
  }

  /**
   * With ids unique, the row that carries the id decides the file: its
   * stored path when that is non-empty, and nothing otherwise.
   */
  lemma FileToRemoveOfRow(rows: seq<Material>, next: int, m: Material)
    requires IdsBelow(rows, MaterialId, next) && m in rows
    ensures FileToRemove(rows, m.id) == (if Given(m.filePath) then m.filePath else None)
  {
    var found := FirstWhere(rows, (x: Material) => x.id == m.id);
    var first := found.value;
    var i :| 0 <= i < |rows| && rows[i] == m;
    var j :| 0 <= j < |rows| && rows[j] == first;
    assert i == j;
  }

  // The rows the read queries return, joined and in table order, before ORDER BY.

  function MaterialRows(rows: seq<Material>, users: seq<User>): seq<MaterialRow>
  {
    seq(|rows|, i requires 0 <= i < |rows| => MaterialRow(rows[i], NameOf(users, rows[i].uploadedBy)))
  }

  function OwnRows(rows: seq<Attendance>, users: seq<User>): seq<OwnAttendanceRow>
  {
    seq(|rows|, i requires 0 <= i < |rows| => OwnAttendanceRow(rows[i], NameOf(users, rows[i].studentId)))
  }

  function ReportRows(rows: seq<Attendance>, users: seq<User>): seq<ReportRow>
  {
    seq(|rows|, i requires 0 <= i < |rows| =>
      ReportRow(rows[i], NameOf(users, rows[i].studentId), ClassOf(users, rows[i].studentId)))
  }

  function StudentRows(users: seq<User>): seq<StudentRow>
  {
    seq(|users|, i requires 0 <= i < |users| => StudentRow(users[i].id, users[i].username, users[i].name, users[i].className))
  }

  // The ORDER BY clauses of the read queries.

  /** `ORDER BY m.created_at DESC` */
  function MaterialKey(row: MaterialRow): seq<SqlText> { [Some(row.material.createdAt)] }
  const MaterialOrder := [Desc]

  /** `ORDER BY a.date DESC` */
  function OwnKey(row: OwnAttendanceRow): seq<SqlText> { [Some(row.record.date)] }
  const OwnOrder := [Desc]

  /** `ORDER BY a.date DESC, u.name` */
  function ReportKey(row: ReportRow): seq<SqlText> { [Some(row.record.date), row.studentName] }
  const ReportOrder := [Desc, Asc]

  /** `ORDER BY class, name` */
  function StudentKey(row: StudentRow): seq<SqlText> { [row.className, Some(row.name)] }
  const StudentOrder := [Asc, Asc]

  /**
   * Rows in AUTOINCREMENT order: ids ascending in table order, all at least
   * 1 and below the next id the counter will hand out.
   */
  ghost predicate IdsBelow<T>(rows: seq<T>, id: T -> int, next: int)
  {
    && 1 <= next
    && (forall i :: 0 <= i < |rows| ==> 1 <= id(rows[i]) < next)
    && (forall i, j :: 0 <= i < j < |rows| ==> id(rows[i]) < id(rows[j]))
  }

  function MaterialId(m: Material): int { m.id }
  function AttendanceId(a: Attendance): int { a.id }

  /** A row given the counter's id may be appended; the counter then moves on. */
  lemma AppendFreshId<T>(rows: seq<T>, x: T, id: T -> int, next: int)
    requires IdsBelow(rows, id, next) && id(x) == next
    ensures IdsBelow(rows + [x], id, next + 1)
    ensures forall y :: y in rows ==> id(y) != id(x)
  {
    var r := rows + [x];
    forall i, j | 0 <= i < j < |r| ensures id(r[i]) < id(r[j]) {
      if j == |rows| { assert r[i] == rows[i]; } else { assert r[i] == rows[i] && r[j] == rows[j]; }
    }
  }

  /** Deleting rows keeps the remaining ids ascending and below the counter. */
  lemma {:induction false} WhereKeepsIds<T>(rows: seq<T>, p: T -> bool, id: T -> int, next: int)
    requires IdsBelow(rows, id, next)
    ensures IdsBelow(Where(rows, p), id, next)
  {
    if rows != [] {
      var rest := Where(rows[1..], p);
      WhereKeepsIds(rows[1..], p, id, next);
      var r := Where(rows, p);
      assert r == (if p(rows[0]) then [rows[0]] else []) + rest;
      if p(rows[0]) {
        forall j | 1 <= j < |r| ensures id(rows[0]) < id(r[j]) {
          assert r[j] == rest[j - 1];
          assert rest[j - 1] in rows[1..];
          var k :| 0 <= k < |rows[1..]| && rows[1..][k] == r[j];
          assert rows[k + 1] == r[j];
        }
      }
    }
  }

  /** The database: the three tables and the AUTOINCREMENT counters of the two that grow. */
  class School {
    var users: seq<User>
    var materials: seq<Material>
    var attendance: seq<Attendance>
    var nextMaterialId: int
    var nextAttendanceId: int

    ghost predicate Valid()
      reads this
    {
      && UniqueAccounts(users)
      && IdsBelow(materials, MaterialId, nextMaterialId)
      && IdsBelow(attendance, AttendanceId, nextAttendanceId)
      && OnePerStudentPerDay(attendance)
    }

    /** A new database holding the seeded accounts and no materials or attendance. */
    constructor (adminHash: string, teacherHash: string, studentHash: string)
      ensures Valid()
      ensures users == SeedUsers(adminHash, teacherHash, studentHash)
      ensures materials == [] && attendance == []
    {
      users := SeedUsers(adminHash, teacherHash, studentHash);
      materials := [];
      attendance := [];
      nextMaterialId := 1;
      nextAttendanceId := 1;
    }

    /**
     * `POST /api/login`. `passwordMatches(password, hash)` stands for the
     * hashing library's comparison. An unknown username and a wrong password
     * get the same answer; a success carries exactly the stored account's
     * id, username, role and name.
     */
    function Login(username: string, password: string, passwordMatches: (string, string) -> bool): (r: Result<Session>)
      reads this
      ensures r.Err? ==> r.failure == InvalidCredentials
      ensures r.Ok? ==> exists u :: u in users && u.username == username && passwordMatches(password, u.passwordHash)
                                    && r.value.token == Claims(u.id, u.username, u.role, u.name)
                                    && r.value.user == Profile(u.id, u.username, u.name, u.role, u.className)
      ensures UniqueAccounts(users) ==>
                (r.Ok? <==> exists u :: u in users && u.username == username && passwordMatches(password, u.passwordHash))
    {
      match FirstWhere(users, (u: User) => u.username == username)
      case None => Err(InvalidCredentials)
      case Some(u) =>
        if passwordMatches(password, u.passwordHash) then
          Ok(Session(Claims(u.id, u.username, u.role, u.name), Profile(u.id, u.username, u.name, u.role, u.className)))
        else
          UsernameIdentifiesAccount(u, username);
          Err(InvalidCredentials)
    }

    lemma UsernameIdentifiesAccount(u: User, username: string)
      requires u in users && u.username == username
      ensures UniqueAccounts(users) ==> forall v :: v in users && v.username == username ==> v == u
    {
      if UniqueAccounts(users) {
        forall v | v in users && v.username == username ensures v == u {
          var i :| 0 <= i < |users| && users[i] == u;
          var j :| 0 <= j < |users| && users[j] == v;
          assert i == j;
        }
      }
    }

    /** `GET /api/materials`: the materials with their uploaders' names, newest first. */
    function MaterialList(): (rows: seq<MaterialRow>)
      reads this
      ensures multiset(rows) == multiset(MaterialRows(materials, users))
      ensures Ordered(rows, MaterialOrder, MaterialKey)
    {
      OrderBy(MaterialRows(materials, users), MaterialOrder, MaterialKey)
    }

    /** Every material is listed exactly once, with its uploader's name, and nothing else is. */
    lemma MaterialListIsComplete()
      ensures |MaterialList()| == |materials|
      ensures forall m :: m in materials ==> MaterialRow(m, NameOf(users, m.uploadedBy)) in MaterialList()
      ensures forall row :: row in MaterialList() ==> row.material in materials && row.uploadedByName == NameOf(users, row.material.uploadedBy)
    {
      var joined := MaterialRows(materials, users);
      var rows := MaterialList();
      assert |rows| == |multiset(rows)| == |joined|;
      forall m | m in materials ensures MaterialRow(m, NameOf(users, m.uploadedBy)) in rows {
        var i :| 0 <= i < |materials| && materials[i] == m;
        assert joined[i] in multiset(rows);
      }
      forall row | row in rows ensures row.material in materials && row.uploadedByName == NameOf(users, row.material.uploadedBy) {
        assert row in multiset(joined);
        var i :| 0 <= i < |joined| && joined[i] == row;
      }
    }

    /**
     * `GET /api/attendance`: a student gets their own records, newest date
     * first; a teacher or admin gets every record, newest date first and then
     * by student name.
     */
    function AttendanceList(caller: Claims): (v: AttendanceView)
      reads this
      ensures v.Own? <==> caller.role == Student
      ensures v.Own? ==> multiset(v.own) == multiset(OwnRows(OwnRecords(attendance, caller.id), users))
      ensures v.Own? ==> Ordered(v.own, OwnOrder, OwnKey)
      ensures v.Report? ==> multiset(v.report) == multiset(ReportRows(attendance, users))
      ensures v.Report? ==> Ordered(v.report, ReportOrder, ReportKey)
    {
      if caller.role == Student then Own(OrderBy(OwnRows(OwnRecords(attendance, caller.id), users), OwnOrder, OwnKey))
      else Report(OrderBy(ReportRows(attendance, users), ReportOrder, ReportKey))
    }

    /** A student sees exactly the records whose student is the caller, and no one else's. */
    lemma StudentSeesOnlyOwnRecords(caller: Claims)
      requires caller.role == Student
      ensures forall row :: row in AttendanceList(caller).own ==> row.record in attendance && row.record.studentId == caller.id
      ensures forall a :: a in attendance && a.studentId == caller.id ==> OwnAttendanceRow(a, NameOf(users, caller.id)) in AttendanceList(caller).own
    {
      var mine := OwnRecords(attendance, caller.id);
      var joined := OwnRows(mine, users);
      var rows := AttendanceList(caller).own;
      forall row | row in rows ensures row.record in attendance && row.record.studentId == caller.id {
        assert row in multiset(joined);
        var i :| 0 <= i < |joined| && joined[i] == row;
        assert mine[i] in mine;
      }
      forall a | a in attendance && a.studentId == caller.id ensures OwnAttendanceRow(a, NameOf(users, caller.id)) in rows {
        assert a in mine;
        var i :| 0 <= i < |mine| && mine[i] == a;
        assert joined[i] in multiset(rows);
      }
    }

    /** A teacher or admin sees every record once. */
    lemma ReportHasEveryRecord(caller: Claims)
      requires caller.role != Student
      ensures |AttendanceList(caller).report| == |attendance|
      ensures forall a :: a in attendance ==> ReportRow(a, NameOf(users, a.studentId), ClassOf(users, a.studentId)) in AttendanceList(caller).report
    {
      var joined := ReportRows(attendance, users);
      var rows := AttendanceList(caller).report;
      assert |rows| == |multiset(rows)| == |joined|;
      forall a | a in attendance ensures ReportRow(a, NameOf(users, a.studentId), ClassOf(users, a.studentId)) in rows {
        var i :| 0 <= i < |attendance| && attendance[i] == a;
        assert joined[i] in multiset(rows);
      }
    }

    /** `GET /api/students`: refused to students; otherwise the student accounts, by class and then name. */
    function StudentList(caller: Claims): (r: Result<seq<StudentRow>>)
      reads this
      ensures r.Err? <==> caller.role == Student
      ensures r.Err? ==> r.failure == AccessDenied
      ensures r.Ok? ==> multiset(r.value) == multiset(StudentRows(StudentAccounts(users)))
      ensures r.Ok? ==> Ordered(r.value, StudentOrder, StudentKey)
    {
      if caller.role == Student then Err(AccessDenied)
      else Ok(OrderBy(StudentRows(StudentAccounts(users)), StudentOrder, StudentKey))
    }

    /** The students list holds every student account and no other account. */
    lemma StudentListHoldsStudentsOnly(caller: Claims)
      requires caller.role != Student
      ensures forall u :: u in users && u.role == Student ==> StudentRow(u.id, u.username, u.name, u.className) in StudentList(caller).value
      ensures forall row :: row in StudentList(caller).value ==>
                exists u :: u in users && u.role == Student && row == StudentRow(u.id, u.username, u.name, u.className)
    {
      var accounts := StudentAccounts(users);
      var joined := StudentRows(accounts);
      var rows := StudentList(caller).value;
      forall u | u in users && u.role == Student ensures StudentRow(u.id, u.username, u.name, u.className) in rows {
        assert u in accounts;
        var i :| 0 <= i < |accounts| && accounts[i] == u;
        assert joined[i] in multiset(rows);
      }
      forall row | row in rows ensures exists u :: u in users && u.role == Student && row == StudentRow(u.id, u.username, u.name, u.className) {
        assert row in multiset(joined);
        var i :| 0 <= i < |joined| && joined[i] == row;
        assert accounts[i] in accounts;
      }
    }

    /** `GET /api/attendance/today`: students only; whether the caller has a record for `today`, and the record. */
    function TodayStatus(caller: Claims, today: string): (r: Result<TodayAttendance>)
      reads this
      ensures r.Err? <==> caller.role != Student
      ensures r.Err? ==> r.failure == AccessDenied
      ensures r.Ok? ==> (r.value.hasAttendance <==> HasRecord(attendance, caller.id, today))
      ensures r.Ok? ==> (r.value.attendance.Some? <==> r.value.hasAttendance)
      ensures r.Ok? && r.value.attendance.Some? ==>
                var a := r.value.attendance.value; a in attendance && a.studentId == caller.id && a.date == today
    {
      if caller.role != Student then Err(AccessDenied)
      else
        var found := RecordOn(attendance, caller.id, today);
        Ok(TodayAttendance(found.Some?, found))
    }

    /**
     * `POST /api/materials`. The upload filter runs first, then the role
     * check, then the title check; a success appends one row with a fresh id
     * and the caller as uploader.
     */
    method CreateMaterial(caller: Claims, form: MaterialForm, file: Option<UploadedFile>, now: string) returns (r: Result<Created>)
      requires Valid()
      modifies this`materials, this`nextMaterialId
      ensures Valid()
      ensures file.Some? && !FileAllowed(file.value.originalName, file.value.mimetype) ==> r == Err(FileTypeNotAllowed)
      ensures (file.None? || FileAllowed(file.value.originalName, file.value.mimetype)) && caller.role == Student ==>
                r == Err(AccessDenied)
      ensures (file.None? || FileAllowed(file.value.originalName, file.value.mimetype)) && caller.role != Student && !Given(form.title) ==>
                r == Err(TitleRequired)
      ensures r.Ok? <==> (file.None? || FileAllowed(file.value.originalName, file.value.mimetype)) && caller.role != Student && Given(form.title)
      ensures r.Err? ==> materials == old(materials) && nextMaterialId == old(nextMaterialId)
      ensures r.Ok? ==>
                && r.value == Created(old(nextMaterialId), MaterialUploaded)
                && (forall m :: m in old(materials) ==> m.id != r.value.id)
                && nextMaterialId == old(nextMaterialId) + 1
                && materials == old(materials) + [Material(
                     r.value.id, form.title.value, form.description,
                     if file.Some? then Some(file.value.storedPath) else None,
                     if file.Some? then Some(file.value.originalName) else None,
                     form.subject, form.className, caller.id, now)]
    {
      if file.Some? && !FileAllowed(file.value.originalName, file.value.mimetype) {
        return Err(FileTypeNotAllowed);
      }
      if caller.role == Student {
        return Err(AccessDenied);
      }
      if !Given(form.title) {
        return Err(TitleRequired);
      }
      var filePath := if file.Some? then Some(file.value.storedPath) else None;
      var fileName := if file.Some? then Some(file.value.originalName) else None;
      var id := nextMaterialId;
      var row := Material(id, form.title.value, form.description, filePath, fileName, form.subject, form.className, caller.id, now);
      AppendFreshId(materials, row, MaterialId, nextMaterialId);
      materials := materials + [row];
      nextMaterialId := nextMaterialId + 1;
      r := Ok(Created(id, MaterialUploaded));
    }

    /**
     * `DELETE /api/materials/:id`. Refused to students. Otherwise every row
     * with the id goes and the rest stay; `removed` is the stored file the
     * handler asks the file system to delete, whose outcome never reaches
     * the response. An id that matches nothing still succeeds.
     */
    method DeleteMaterial(caller: Claims, id: int) returns (r: Result<string>, removed: Option<string>)
      requires Valid()
      modifies this`materials
      ensures Valid()
      ensures caller.role == Student ==> r == Err(AccessDenied) && removed.None? && materials == old(materials)
      ensures caller.role != Student ==>
                && r == Ok(MaterialDeleted)
                && removed == FileToRemove(old(materials), id)
                && materials == WithoutMaterial(old(materials), id)
      ensures caller.role != Student ==> forall m :: m in materials <==> m in old(materials) && m.id != id
      ensures caller.role != Student ==>
                forall m :: m in old(materials) && m.id == id ==> removed == (if Given(m.filePath) then m.filePath else None)
    {
      if caller.role == Student {
        return Err(AccessDenied), None;
      }
      removed := FileToRemove(materials, id);
      forall m | m in materials && m.id == id
        ensures removed == (if Given(m.filePath) then m.filePath else None)
      {
        FileToRemoveOfRow(materials, nextMaterialId, m);
      }
      materials := WithoutMaterial(materials, id);
      WhereKeepsIds(old(materials), (m: Material) => m.id != id, MaterialId, nextMaterialId);
      r := Ok(MaterialDeleted);
    }

    /**
     * `POST /api/attendance`. Students only. The lookup for a record of the
     * caller on `today` comes before the insert; the stored status is the
     * given one or `present`, and a status outside the CHECK constraint makes
     * the insert fail.
     */
    method SubmitAttendance(caller: Claims, form: AttendanceForm, today: string, now: string) returns (r: Result<string>)
      requires Valid()
      modifies this`attendance, this`nextAttendanceId
      ensures Valid()
      ensures caller.role != Student ==> r == Err(AccessDenied)
      ensures caller.role == Student && HasRecord(old(attendance), caller.id, today) ==> r == Err(AlreadyMarked)
      ensures caller.role == Student && !HasRecord(old(attendance), caller.id, today) && StoredStatus(form.status).None? ==>
                r == Err(DatabaseError)
      ensures r.Ok? <==> caller.role == Student && !HasRecord(old(attendance), caller.id, today) && StoredStatus(form.status).Some?
      ensures r.Err? ==> attendance == old(attendance) && nextAttendanceId == old(nextAttendanceId)
      ensures r.Ok? ==>
                && r.value == AttendanceMarked
                && nextAttendanceId == old(nextAttendanceId) + 1
                && attendance == old(attendance) + [Attendance(
                     old(nextAttendanceId), caller.id, today, StoredStatus(form.status).value, form.notes, now)]
      ensures caller.role == Student && r != Err(DatabaseError) ==> HasRecord(attendance, caller.id, today)
    {
      if caller.role != Student {
        return Err(AccessDenied);
      }
      var existing := RecordOn(attendance, caller.id, today);
      if existing.Some? {
        return Err(AlreadyMarked);
      }
      var status := StoredStatus(form.status);
      if status.None? {
        return Err(DatabaseError);
      }
      var row := Attendance(nextAttendanceId, caller.id, today, status.value, form.notes, now);
      AppendKeepsOnePerDay(attendance, row);
      AppendFreshId(attendance, row, AttendanceId, nextAttendanceId);
      attendance := attendance + [row];
      nextAttendanceId := nextAttendanceId + 1;
      assert row in attendance;
      r := Ok(AttendanceMarked);
    }
  }

  /**
   * A student logs in, finds no record for today, marks attendance, finds it,
   * and is refused a second time; one record remains.
   */
  method AttendanceOncePerDay(adminHash: string, teacherHash: string, studentHash: string,
                              passwordMatches: (string, string) -> bool, today: string, now: string)
    requires passwordMatches("student123", studentHash)
  {
    var school := new School(adminHash, teacherHash, studentHash);
    var siswa1 := school.users[2];
    assert siswa1 in school.users && siswa1.username == "siswa1";
    school.UsernameIdentifiesAccount(siswa1, "siswa1");
    var login := school.Login("siswa1", "student123", passwordMatches);
    assert passwordMatches("student123", siswa1.passwordHash);
    assert login.Ok?;
    var me := login.value.token;
    assert me == Claims(3, "siswa1", Student, "Ahmad Rizki");
    var before := school.TodayStatus(me, today);
    assert before == Ok(TodayAttendance(false, None));
    assert StoredStatus(Some("present")) == Some(Present);
    var first := school.SubmitAttendance(me, AttendanceForm(Some("present"), None), today, now);
    assert first == Ok(AttendanceMarked);
    var after := school.TodayStatus(me, today);
    assert after.value.hasAttendance;
    var second := school.SubmitAttendance(me, AttendanceForm(Some("present"), None), today, now);
    assert second == Err(AlreadyMarked);
    assert |school.attendance| == 1;
  }

  /** A teacher uploads a material without a file; the list then shows it, with no stored file. */
  method UploadWithoutFile(adminHash: string, teacherHash: string, studentHash: string,
                           passwordMatches: (string, string) -> bool, now: string)
    requires passwordMatches("teacher123", teacherHash)
  {
    var school := new School(adminHash, teacherHash, studentHash);
    var guru1 := school.users[1];
    assert guru1 in school.users && guru1.username == "guru1";
    school.UsernameIdentifiesAccount(guru1, "guru1");
    var login := school.Login("guru1", "teacher123", passwordMatches);
    assert passwordMatches("teacher123", guru1.passwordHash);
    assert login.Ok?;
    var teacher := login.value.token;
    assert teacher == Claims(2, "guru1", Teacher, "Bapak Andi Saputra");
    assert Given(Some("Bab 1"));
    var created := school.CreateMaterial(teacher, MaterialForm(Some("Bab 1"), None, None, None), None, now);
    assert created.Ok?;
    var m := school.materials[0];
    assert m.title == "Bab 1" && m.filePath.None? && m.uploadedBy == 2;
    assert school.users[1..][0] == guru1;
    assert AccountOf(school.users, 2) == Some(guru1);
    assert NameOf(school.users, m.uploadedBy) == Some("Bapak Andi Saputra");
    assert m in school.materials;
    school.MaterialListIsComplete();
    assert MaterialRow(m, Some("Bapak Andi Saputra")) in school.MaterialList();
  }
}
