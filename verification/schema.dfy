/** The rows of the three tables and the constraints the schema and handlers put on them. */
module Schema {
  import opened Outcomes

  /** The `role` column: its CHECK constraint admits exactly these three. */
  datatype Role = Student | Teacher | Admin

  /** A row of `users`; `className` is the nullable `class` column. */
  datatype User = User(id: int, username: string, passwordHash: string, name: string, role: Role, className: Option<string>)

  /** A row of `materials`. Only `title` and the timestamp are NOT NULL. */
  datatype Material = Material(
    id: int,
    title: string,
    description: Option<string>,
    filePath: Option<string>,
    fileName: Option<string>,
    subject: Option<string>,
    className: Option<string>,
    uploadedBy: int,
    createdAt: string)

  /** The `status` column: its CHECK constraint admits exactly these three. */
  datatype Status = Present | Absent | Late

  /** A row of `attendance`; `date` is the `YYYY-MM-DD` text the handler computes. */
  datatype Attendance = Attendance(id: int, studentId: int, date: string, status: Status, notes: Option<string>, createdAt: string)

  function StatusText(s: Status): string
  {
    match s
    case Present => "present"
    case Absent => "absent"
    case Late => "late"
  }

  /** The status column's CHECK constraint: which texts it stores, and as what. */
  function ParseStatus(text: string): (s: Option<Status>)
    ensures s.Some? <==> text in {"present", "absent", "late"}
    ensures s.Some? ==> StatusText(s.value) == text
  {
    if text == "present" then Some(Present)
    else if text == "absent" then Some(Absent)
    else if text == "late" then Some(Late)
    else None
  }

  /** The status an attendance insert stores: `status || 'present'`, then the CHECK constraint (None: the insert fails). */
  function StoredStatus(given: Option<string>): (s: Option<Status>)
    ensures given.None? || given == Some("") ==> s == Some(Present)
    ensures given.Some? && given.value != "" ==> (s.Some? <==> given.value in {"present", "absent", "late"})
    ensures s.Some? && given.Some? && given.value != "" ==> StatusText(s.value) == given.value
  {
    if given.None? || given.value == "" then ParseStatus("present") else ParseStatus(given.value)
  }

  /** Primary keys and the UNIQUE username: no two accounts share an id or a username. */
  ghost predicate UniqueAccounts(users: seq<User>)
  {
    forall i, j :: 0 <= i < j < |users| ==> users[i].id != users[j].id && users[i].username != users[j].username
  }

  /** Some record exists for this student on this date. */
  ghost predicate HasRecord(rows: seq<Attendance>, studentId: int, date: string)
  {
    exists a :: a in rows && a.studentId == studentId && a.date == date
  }

  /**
   * At most one attendance record per student and date. The schema has no
   * UNIQUE constraint on (student_id, date): this holds only because the
   * submit handler looks before it inserts.
   */
  ghost predicate OnePerStudentPerDay(rows: seq<Attendance>)
  {
    forall i, j :: 0 <= i < j < |rows| ==> rows[i].studentId != rows[j].studentId || rows[i].date != rows[j].date
  }

  /**
   * Appending a record keeps at most one record per student and day exactly
   * when the table held none for that student and day: the handler's lookup
   * is the whole of what protects the invariant.
   */
  lemma {:induction false} AppendKeepsOnePerDay(rows: seq<Attendance>, a: Attendance)
    requires OnePerStudentPerDay(rows)
    ensures OnePerStudentPerDay(rows + [a]) <==> !HasRecord(rows, a.studentId, a.date)
  {
    var r := rows + [a];
    if HasRecord(rows, a.studentId, a.date) {
      var b :| b in rows && b.studentId == a.studentId && b.date == a.date;
      var i :| 0 <= i < |rows| && rows[i] == b;
      assert r[i] == b && r[|rows|] == a;
    } else {
      forall i, j | 0 <= i < j < |r|
        ensures r[i].studentId != r[j].studentId || r[i].date != r[j].date
      {
        if j == |rows| {
          assert r[i] in rows;
        } else {
          assert r[i] == rows[i] && r[j] == rows[j];
        }
      }
    }
  }
}
