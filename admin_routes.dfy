/**
 * The admin routes: list every student, list every teacher, and remove a
 * user by `_id`. All three sit behind `authMiddleware('admin')`.
 */
module AdminRoutes {
  import opened Wrappers
  import opened Models
  import opened Query
  import opened Store
  import opened AuthMiddleware

  const RemovedReply := Message(200, "User removed")

  /** `GET /students`: for an admin's token, the whole student collection, unfiltered. */
  function StudentsRoute(secret: string, header: Header, now: int, students: seq<Student>): (r: Response)
    ensures r.StudentsReply? <==> Authenticate(secret, header, Some(AdminRole), now).Next?
    ensures r.StudentsReply? ==> header.token.payload.user.value.role == AdminRole && r.students == students
    ensures !r.StudentsReply? ==> r == Authenticate(secret, header, Some(AdminRole), now).reply
  {
    match Authenticate(secret, header, Some(AdminRole), now)
    case Deny(reply) => reply
    case Next(_) => StudentsReply(students)
  }

  /** `GET /teachers`: for an admin's token, the whole teacher collection, unfiltered. */
  function TeachersRoute(secret: string, header: Header, now: int, teachers: seq<Teacher>): (r: Response)
    ensures r.TeachersReply? <==> Authenticate(secret, header, Some(AdminRole), now).Next?
    ensures r.TeachersReply? ==> header.token.payload.user.value.role == AdminRole && r.teachers == teachers
    ensures !r.TeachersReply? ==> r == Authenticate(secret, header, Some(AdminRole), now).reply
  {
    match Authenticate(secret, header, Some(AdminRole), now)
    case Deny(reply) => reply
    case Next(_) => TeachersReply(teachers)
  }

  /**
   * What `Student.findByIdAndDelete(id) || Teacher.findByIdAndDelete(id)` leaves:
   * the student with that `_id` goes if there is one; only otherwise is the
   * teacher collection consulted, and then the teacher with that `_id` goes. At most one document disappears, and every
   * document with another `_id` stays.
   */
  function RemoveUser(students: seq<Student>, teachers: seq<Teacher>, id: Id): (r: (seq<Student>, seq<Teacher>))
    ensures FindOne(students, StudentId, id).Some? ==> r.0 == DeleteFirst(students, StudentId, id) && r.1 == teachers
    ensures FindOne(students, StudentId, id).Some? ==> |r.0| == |students| - 1
    ensures FindOne(students, StudentId, id).None? ==> r.0 == students && r.1 == DeleteFirst(teachers, TeacherId, id)
    ensures FindOne(students, StudentId, id).None? && FindOne(teachers, TeacherId, id).Some? ==> |r.1| == |teachers| - 1
    ensures FindOne(students, StudentId, id).None? && FindOne(teachers, TeacherId, id).None? ==> r == (students, teachers)
    ensures |students| + |teachers| - 1 <= |r.0| + |r.1| <= |students| + |teachers|
    ensures forall x: Student :: x.id != id ==> multiset(r.0)[x] == multiset(students)[x]
    ensures forall t: Teacher :: t.id != id ==> multiset(r.1)[t] == multiset(teachers)[t]
  {
    if FindOne(students, StudentId, id).Some? then (DeleteFirst(students, StudentId, id), teachers)
    else (students, DeleteFirst(teachers, TeacherId, id))
  }

  /**
   * `DELETE /remove/:id`. For an admin's token the user is removed as
   * `RemoveUser` says and the reply is "User removed", whether or not a
   * document matched; otherwise nothing changes and the guard's refusal is sent.
   */
  method RemoveRoute(db: Database, secret: string, header: Header, now: int, id: Id) returns (r: Response)
    requires db.Valid()
    modifies db
    ensures db.Valid()
    ensures db.attendance == old(db.attendance) && db.nextId == old(db.nextId)
    ensures db.everApproved == old(db.everApproved)
    ensures Authenticate(secret, header, Some(AdminRole), now).Next? ==>
      r == RemovedReply && (db.students, db.teachers) == RemoveUser(old(db.students), old(db.teachers), id)
    ensures Authenticate(secret, header, Some(AdminRole), now).Deny? ==>
      r == Authenticate(secret, header, Some(AdminRole), now).reply &&
      db.students == old(db.students) && db.teachers == old(db.teachers)
  {
    match Authenticate(secret, header, Some(AdminRole), now)
    case Deny(reply) =>
      r := reply;
    case Next(_) =>
      var deleted := db.DeleteStudentById(id);
      if deleted.None? {
        var deletedTeacher := db.DeleteTeacherById(id);
      }
      r := RemovedReply;
  }
}
