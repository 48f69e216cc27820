/**
 * The documents the routes read and write, the token payload they exchange,
 * and the JSON replies they send.
 */
module Models {
  import opened Wrappers
  import opened Crypto

  /** A document's `_id` (an ObjectId), abstracted to a number. */
  type Id = nat

  /** A student document with the fields the routes set and query. */
  datatype Student = Student(
    id: Id,
    userid: string,
    passwordHash: string,
    name: string,
    roll: string,
    course: string,
    year: string,
    semester: string,
    photo: Option<string>,
    approved: bool)

  /** A teacher document; only its `_id` matters to the routes modelled here. */
  datatype Teacher = Teacher(id: Id, userid: string, name: string)

  /** An attendance document: which student, which day, present or absent. */
  datatype AttendanceRecord = AttendanceRecord(studentId: Id, date: string, status: string)

  /** The `user` object a token carries and the guard copies into `req.user`. */
  datatype UserClaim = UserClaim(id: Id, role: string)

  /** A token payload `{ user: ... }`; a token signed elsewhere may lack `user`. */
  datatype Payload = Payload(user: Option<UserClaim>)

  type Token = Jwt<Payload>

  const StudentRole := "student"
  const TeacherRole := "teacher"
  const AdminRole := "admin"

  /** What a handler sends: `res.status(s).json({ msg })`, `res.json({ token })` or a JSON array. */
  datatype Response =
    | Message(status: nat, msg: string)
    | TokenReply(token: Token)
    | StudentsReply(students: seq<Student>)
    | TeachersReply(teachers: seq<Teacher>)
    | AttendanceReply(records: seq<AttendanceRecord>)

  function StudentId(s: Student): Id { s.id }
  function StudentUserid(s: Student): string { s.userid }
  function TeacherId(t: Teacher): Id { t.id }
  function RecordStudentId(a: AttendanceRecord): Id { a.studentId }

  /** Every student document has its own `_id`. */
  ghost predicate DistinctIds(s: seq<Student>)
  {
    forall i, j :: 0 <= i < j < |s| ==> s[i].id != s[j].id
  }

  /** No two students share a login handle. */
  ghost predicate UniqueUserids(s: seq<Student>)
  {
    forall i, j :: 0 <= i < j < |s| ==> s[i].userid != s[j].userid
  }
}
