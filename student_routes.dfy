/**
 * The student's routes: `GET /attendance` and `POST /complaint`, both behind
 * `authMiddleware('student')`. Neither writes to the database.
 */
module StudentRoutes {
  import opened Wrappers
  import opened Models
  import opened Query
  import opened AuthMiddleware

  const ComplaintReply := Message(200, "Complaint submitted")

  /** The filter `{ studentId: id }`. */
  function OfStudent(id: Id): AttendanceRecord -> bool
  {
    (a: AttendanceRecord) => a.studentId == id
  }

  /**
   * `GET /attendance`: for a student's token, exactly the attendance records
   * whose `studentId` is the token's `user.id`, as often as the collection
   * holds them; otherwise the guard's refusal.
   */
  function AttendanceRoute(secret: string, header: Header, now: int, records: seq<AttendanceRecord>): (r: Response)
    ensures r.AttendanceReply? <==> Authenticate(secret, header, Some(StudentRole), now).Next?
    ensures r.AttendanceReply? ==>
      header.token.payload.user.Some? && header.token.payload.user.value.role == StudentRole &&
      forall a :: multiset(r.records)[a] ==
        if a.studentId == header.token.payload.user.value.id then multiset(records)[a] else 0
    ensures !r.AttendanceReply? ==> r == Authenticate(secret, header, Some(StudentRole), now).reply
  {
    match Authenticate(secret, header, Some(StudentRole), now)
    case Deny(reply) => reply
    case Next(user) => AttendanceReply(Filter(records, OfStudent(user.value.id)))
  }

  /**
   * `POST /complaint`: the complaint text is read and dropped; a student's
   * token always gets "Complaint submitted", any other request the guard's refusal.
   */
  function ComplaintRoute(secret: string, header: Header, now: int, complaint: string): (r: Response)
    ensures Authenticate(secret, header, Some(StudentRole), now).Next? <==> r == ComplaintReply
    ensures Authenticate(secret, header, Some(StudentRole), now).Deny? ==>
      r == Authenticate(secret, header, Some(StudentRole), now).reply
  {
    match Authenticate(secret, header, Some(StudentRole), now)
    case Deny(reply) => reply
    case Next(_) => ComplaintReply
  }
}
