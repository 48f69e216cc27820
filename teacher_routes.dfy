/**
 * The teacher's approval routes: `GET /approve` lists the students still
 * waiting, `POST /approve/:id` approves one. Both sit behind
 * `authMiddleware('teacher')`.
 */
module TeacherRoutes {
  import opened Wrappers
  import opened Models
  import opened Query
  import opened Store
  import opened AuthMiddleware

  const ApprovedReply := Message(200, "Student approved")

  /** The filter `{ approved: false }`. */
  function IsPending(s: Student): bool { !s.approved }

  /**
   * `GET /approve`: for a teacher's token, every student whose `approved` is
   * false, as often as the collection holds it; otherwise the guard's refusal.
   */
  function PendingRoute(secret: string, header: Header, now: int, students: seq<Student>): (r: Response)
    ensures r.StudentsReply? <==> Authenticate(secret, header, Some(TeacherRole), now).Next?
    ensures r.StudentsReply? ==> header.token.payload.user.value.role == TeacherRole
    ensures r.StudentsReply? ==>
      forall x :: multiset(r.students)[x] == if x.approved then 0 else multiset(students)[x]
    ensures !r.StudentsReply? ==> r == Authenticate(secret, header, Some(TeacherRole), now).reply
  {
    match Authenticate(secret, header, Some(TeacherRole), now)
    case Deny(reply) => reply
    case Next(_) => StudentsReply(Filter(students, IsPending))
  }

  /**
   * `POST /approve/:id`. For a teacher's token the student with that `_id`
   * is approved and the reply is "Student approved", also when no student has
   * that `_id`; otherwise nothing changes and the guard's refusal is sent.
   */
  method ApproveRoute(db: Database, secret: string, header: Header, now: int, id: Id) returns (r: Response)
    requires db.Valid()
    modifies db
    ensures db.Valid()
    ensures db.teachers == old(db.teachers) && db.attendance == old(db.attendance) && db.nextId == old(db.nextId)
    ensures old(db.everApproved) <= db.everApproved
    ensures Authenticate(secret, header, Some(TeacherRole), now).Next? ==>
      r == ApprovedReply && db.students == Approve(old(db.students), id)
    ensures Authenticate(secret, header, Some(TeacherRole), now).Deny? ==>
      r == Authenticate(secret, header, Some(TeacherRole), now).reply && db.students == old(db.students)
  {
    match Authenticate(secret, header, Some(TeacherRole), now)
    case Deny(reply) =>
      r := reply;
    case Next(_) =>
      db.ApproveById(id);
      r := ApprovedReply;
  }

  /**
   * With distinct `_id`s, approval touches exactly the student with that
   * `_id`, and of it only the `approved` field.
   */
  lemma ApproveOnlyTarget(s: seq<Student>, id: Id)
    requires DistinctIds(s)
    ensures |Approve(s, id)| == |s|
    ensures forall j :: 0 <= j < |s| ==>
      Approve(s, id)[j] == if s[j].id == id then s[j].(approved := true) else s[j]
  {
  }

  /** Approving the same `_id` twice is the same as approving it once. */
  lemma ApproveIdempotent(s: seq<Student>, id: Id)
    ensures Approve(Approve(s, id), id) == Approve(s, id)
  {
  }

  /** Approving an already approved student, or an `_id` nobody has, leaves the students as they were. */
  lemma ApproveApprovedUnchanged(s: seq<Student>, id: Id)
    requires forall j :: 0 <= j < |s| && s[j].id == id ==> s[j].approved
    ensures Approve(s, id) == s
  {
  }

  /** After approving `id`, the student with that `_id` is no longer listed as pending. */
  lemma ApprovedLeavesPendingList(s: seq<Student>, id: Id)
    requires DistinctIds(s)
    ensures forall y :: y in Filter(Approve(s, id), IsPending) ==> y.id != id
  {
    ApproveOnlyTarget(s, id);
    var t := Approve(s, id);
    forall y | y in Filter(t, IsPending) ensures y.id != id {
      assert multiset(Filter(t, IsPending))[y] > 0;
      var j :| 0 <= j < |t| && t[j] == y;
    }
  }
}
