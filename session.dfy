/**
 * Properties of whole request sequences: approval is one-way, the
 * register / approve / login path, and what the guard makes of the tokens
 * login issues.
 */
module Session {
  import opened Wrappers
  import opened Crypto
  import opened Models
  import opened Query
  import opened Store
  import opened AuthMiddleware
  import opened AuthRoutes
  import opened TeacherRoutes
  import opened AdminRoutes
  import opened StudentRoutes

  /** Every student approved before is still approved after, wherever it now sits. */
  ghost predicate ApprovalKept(before: seq<Student>, after: seq<Student>)
  {
    forall i, j :: 0 <= i < |before| && 0 <= j < |after| && before[i].id == after[j].id && before[i].approved ==>
      after[j].approved
  }

  // ------------------------------------------------ approval is never cleared

  /** Registering a student with a fresh `_id` clears nobody's approval. */
  lemma RegisterKeepsApproval(s: seq<Student>, x: Student)
    requires DistinctIds(s)
    requires forall i :: 0 <= i < |s| ==> s[i].id != x.id
    ensures ApprovalKept(s, s + [x])
  {
  }

  /** Approving a student clears nobody's approval. */
  lemma ApproveKeepsApproval(s: seq<Student>, id: Id)
    requires DistinctIds(s)
    ensures ApprovalKept(s, Approve(s, id))
  {
  }

  /** Removing a user clears nobody's approval among the students that remain. */
  lemma RemoveKeepsApproval(s: seq<Student>, teachers: seq<Teacher>, id: Id)
    requires DistinctIds(s)
    ensures ApprovalKept(s, RemoveUser(s, teachers, id).0)
  {
    var t := RemoveUser(s, teachers, id).0;
    forall i, j | 0 <= i < |s| && 0 <= j < |t| && s[i].id == t[j].id && s[i].approved
      ensures t[j].approved
    {
      assert t[j] in t;
      var k :| 0 <= k < |s| && s[k] == t[j];
    }
  }

  /**
   * In every state the routes can reach (`Valid()`), no `_id` that was ever
   * approved is listed as pending, and every approved student's `_id` is
   * recorded as ever approved. Register and remove keep `everApproved` and
   * approve only grows it, while new `_id`s lie above all of it, so a
   * student approved once is never pending again, even after removal and
   * re-registration.
   */
  lemma ApprovedNeverPendingAgain(db: Database)
    requires db.Valid()
    ensures forall y :: y in Filter(db.students, IsPending) ==> y.id !in db.everApproved
    ensures ApprovedIds(db.students) <= db.everApproved
  {
    forall y | y in Filter(db.students, IsPending) ensures y.id !in db.everApproved {
      assert multiset(Filter(db.students, IsPending))[y] > 0;
      var j :| 0 <= j < |db.students| && db.students[j] == y;
    }
  }

  // ------------------------------------------------- the account's life cycle

  /**
   * Register, then log in: refused as pending. A teacher approves the new
   * `_id`: the same credentials now get a token, and with that token (under
   * a secret shared by login and guard) the student reads exactly their own
   * attendance until the token expires.
   */
  lemma ApprovalOpensLogin(students: seq<Student>, id: Id, form: RegisterForm, upload: Option<string>, salt: Salt,
                           now: int, later: int, records: seq<AttendanceRecord>)
    requires DistinctIds(students) && UniqueUserids(students)
    requires FindOne(students, StudentUserid, form.userid).None?
    requires forall i :: 0 <= i < |students| ==> students[i].id != id
    requires later < now + TokenLifetime
    ensures Login(students + [Enrolled(id, form, upload, salt)], form.userid, form.password, now) == PendingApprovalReply
    ensures Login(Approve(students + [Enrolled(id, form, upload, salt)], id), form.userid, form.password, now) ==
      TokenReply(IssueToken(id, now))
    ensures AttendanceRoute(SigningSecret, Compact(IssueToken(id, now)), later, records) ==
      AttendanceReply(Filter(records, OfStudent(id)))
  {
    var x := Enrolled(id, form, upload, salt);
    var registered := students + [x];
    FreshRegistrationPending(students, id, form, upload, salt, form.password, now);
    RegisterKeepsUseridsUnique(students, x);
    assert DistinctIds(registered) by {
      forall i, j | 0 <= i < j < |registered| ensures registered[i].id != registered[j].id {
        if j == |students| { assert registered[i] == students[i]; }
      }
    }
    ApproveOnlyTarget(registered, id);
    var approved := Approve(registered, id);
    var y := x.(approved := true);
    assert approved[|students|] == y;
    assert forall i :: 0 <= i < |students| ==> approved[i] == students[i];
    assert UniqueUserids(approved) by {
      forall i, j | 0 <= i < j < |approved| ensures approved[i].userid != approved[j].userid {
        assert approved[i].userid == registered[i].userid && approved[j].userid == registered[j].userid;
      }
    }
    assert y in approved;
    LoginOutcome(approved, y, form.password, now);
  }

  // ------------------------------------------- tokens issued by login at the guard

  /**
   * As written, login signs with "your_jwt_secret" and the guard verifies with
   * "secret": every token login issues is refused with 401 "Invalid Token" at
   * every protected route, whatever the role and the time.
   */
  lemma IssuedTokenRejected(students: seq<Student>, userid: string, password: string, now: int,
                            role: Option<string>, at: int)
    requires Login(students, userid, password, now).TokenReply?
    ensures Authenticate(VerifySecret, Compact(Login(students, userid, password, now).token), role, at) ==
      Deny(InvalidTokenReply)
  {
  }

  /**
   * With one secret shared by login and guard, a token login issues admits its
   * student to the student routes, as that student, until it expires.
   */
  lemma SharedSecretAdmitsIssuedToken(students: seq<Student>, userid: string, password: string, now: int, at: int)
    requires Login(students, userid, password, now).TokenReply?
    requires at < now + TokenLifetime
    ensures exists x :: (x in students && x.userid == userid &&
      Authenticate(SigningSecret, Compact(Login(students, userid, password, now).token), Some(StudentRole), at) ==
        Next(Some(UserClaim(x.id, StudentRole))))
  {
  }

  /** Even under the shared secret, a student's token is refused with 403 by the teacher and admin routes. */
  lemma StudentTokenDeniedElsewhere(id: Id, now: int, at: int, students: seq<Student>, teachers: seq<Teacher>)
    requires at < now + TokenLifetime
    ensures PendingRoute(SigningSecret, Compact(IssueToken(id, now)), at, students) == AccessDeniedReply
    ensures StudentsRoute(SigningSecret, Compact(IssueToken(id, now)), at, students) == AccessDeniedReply
    ensures TeachersRoute(SigningSecret, Compact(IssueToken(id, now)), at, teachers) == AccessDeniedReply
  {
  }

  /**
   * A student who rewrites the role in their own token to "teacher" is
   * refused with 401 at the teacher routes, under any secret and at any time:
   * the signature still covers the original claims.
   */
  lemma ForgedRoleRejected(id: Id, now: int, at: int, secret: string, students: seq<Student>)
    ensures var forged := IssueToken(id, now).(payload := Payload(Some(UserClaim(id, TeacherRole))));
      PendingRoute(secret, Compact(forged), at, students) == InvalidTokenReply
  {
    var t := IssueToken(id, now);
    var forged := t.(payload := Payload(Some(UserClaim(id, TeacherRole))));
    EditedClaimsRejected(t, forged, secret, at);
  }

  /** Once five hours have passed, the token is refused with 401 under any secret. */
  lemma IssuedTokenExpires(id: Id, now: int, at: int, secret: string, role: Option<string>)
    requires at >= now + TokenLifetime
    ensures Authenticate(secret, Compact(IssueToken(id, now)), role, at) == Deny(InvalidTokenReply)
  {
  }
}
