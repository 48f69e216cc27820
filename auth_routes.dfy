/**
 * `POST /register` and `POST /login`: the student account lifecycle's
 * entry points. Registration creates an unapproved student with a hashed
 * password; login refuses unknown handles, then unapproved accounts, then
 * wrong passwords, and otherwise issues a five-hour token.
 */
module AuthRoutes {
  import opened Wrappers
  import opened Crypto
  import opened Models
  import opened Query
  import opened Store

  /** The secret login signs tokens with. */
  const SigningSecret := "your_jwt_secret"

  /** `expiresIn: '5h'`, in seconds. */
  const TokenLifetime: nat := 5 * 60 * 60

  const DuplicateReply := Message(400, "User already exists")
  const RegisteredReply := Message(201, "Registered successfully. Awaiting approval.")
  const InvalidCredentialsReply := Message(400, "Invalid Credentials")
  const PendingApprovalReply := Message(403, "Account pending approval by teacher/admin")

  /** The body fields of the registration form. */
  datatype RegisterForm = RegisterForm(
    userid: string, password: string, name: string, roll: string,
    course: string, year: string, semester: string)

  /**
   * The document registration stores for `form`: the submitted fields, the
   * uploaded photo's file name (null without a file), not yet approved, and
   * the bcrypt hash in place of the password.
   */
  function Enrolled(id: Id, form: RegisterForm, upload: Option<string>, salt: Salt): (s: Student)
    ensures s.id == id && !s.approved
    ensures s.userid == form.userid && s.name == form.name && s.roll == form.roll
    ensures s.course == form.course && s.year == form.year && s.semester == form.semester
    ensures s.photo == upload
    ensures s.passwordHash != form.password
    ensures forall p :: Compare(p, s.passwordHash) <==> p == form.password
  {
    Student(id, form.userid, Hash(form.password, salt), form.name, form.roll,
            form.course, form.year, form.semester, upload, false)
  }

  /**
   * `POST /register`. `upload` is the file name multer gave the photo, if any;
   * `salt` is what `bcrypt.genSalt(10)` drew.
   */
  method Register(db: Database, form: RegisterForm, upload: Option<string>, salt: Salt) returns (r: Response)
    requires db.Valid()
    modifies db
    ensures db.Valid()
    ensures db.teachers == old(db.teachers) && db.attendance == old(db.attendance)
    ensures FindOne(old(db.students), StudentUserid, form.userid).Some? ==>
      r == DuplicateReply && db.students == old(db.students) && db.nextId == old(db.nextId)
    ensures FindOne(old(db.students), StudentUserid, form.userid).None? ==>
      r == RegisteredReply && db.students == old(db.students) + [Enrolled(old(db.nextId), form, upload, salt)] &&
      db.nextId == old(db.nextId) + 1
    ensures db.everApproved == old(db.everApproved)
  {
    var existing := FindOne(db.students, StudentUserid, form.userid);
    if existing.Some? {
      return DuplicateReply;
    }
    var id := db.NewObjectId();
    var student := Student(id, form.userid, form.password, form.name, form.roll,
                           form.course, form.year, form.semester, upload, false);
    // The plaintext is replaced by its hash before the document is saved.
    student := student.(passwordHash := Hash(form.password, salt));
    assert forall i :: 0 <= i < |db.students| ==> db.students[i] in db.students;
    db.Save(student);
    r := RegisteredReply;
  }

  /** Appending a student whose handle is not yet taken keeps handles unique. */
  lemma RegisterKeepsUseridsUnique(s: seq<Student>, x: Student)
    requires UniqueUserids(s)
    requires FindOne(s, StudentUserid, x.userid).None?
    ensures UniqueUserids(s + [x])
  {
  }

  /** The token login issues to student `id` at time `now`. */
  function IssueToken(id: Id, now: int): (t: Token)
    ensures t.payload == Payload(Some(UserClaim(id, StudentRole)))
    ensures t.exp == Some(now + TokenLifetime)
    ensures forall at :: at < now + TokenLifetime ==> Verify(t, SigningSecret, at) == Success(t.payload)
  {
    Sign(Payload(Some(UserClaim(id, StudentRole))), SigningSecret, now, Some(TokenLifetime))
  }

  /**
   * `POST /login` at clock time `now`. It reads the students and changes nothing.
   * Only three replies are possible, and a token is only ever issued to a
   * registered, approved student whose password matches.
   */
  function Login(students: seq<Student>, userid: string, password: string, now: int): (r: Response)
    ensures r == InvalidCredentialsReply || r == PendingApprovalReply || r.TokenReply?
    ensures r.TokenReply? ==>
      exists x :: x in students && x.userid == userid && x.approved &&
        Compare(password, x.passwordHash) && r.token == IssueToken(x.id, now)
    ensures (forall x :: x in students ==> x.userid != userid) ==> r == InvalidCredentialsReply
  {
    match FindOne(students, StudentUserid, userid)
    case None => InvalidCredentialsReply
    case Some(student) =>
      if !student.approved then PendingApprovalReply
      else if !Compare(password, student.passwordHash) then InvalidCredentialsReply
      else TokenReply(IssueToken(student.id, now))
  }

  /** With unique handles, `findOne` finds the one student who has it. */
  lemma FindOwnUserid(s: seq<Student>, x: Student)
    requires UniqueUserids(s)
    requires x in s
    ensures FindOne(s, StudentUserid, x.userid) == Some(x)
  {
  }

  /**
   * The whole login decision for a registered student: the approval gate comes
   * before the password check, so an unapproved student gets 403 whatever the
   * password, and an approved one gets a token exactly when the password matches.
   */
  lemma LoginOutcome(students: seq<Student>, x: Student, password: string, now: int)
    requires UniqueUserids(students)
    requires x in students
    ensures Login(students, x.userid, password, now) ==
      if !x.approved then PendingApprovalReply
      else if Compare(password, x.passwordHash) then TokenReply(IssueToken(x.id, now))
      else InvalidCredentialsReply
  {
  }

  /** An unknown handle and a wrong password get the very same reply. */
  lemma UnknownAndWrongPasswordAlike(students: seq<Student>, unknown: string, x: Student, password: string, now: int)
    requires UniqueUserids(students)
    requires forall y :: y in students ==> y.userid != unknown
    requires x in students && x.approved && !Compare(password, x.passwordHash)
    ensures Login(students, unknown, password, now) == Login(students, x.userid, password, now)
  {
  }

  /** Right after registering, a student is refused with 403 whatever password is tried. */
  lemma FreshRegistrationPending(students: seq<Student>, id: Id, form: RegisterForm, upload: Option<string>,
                                 salt: Salt, password: string, now: int)
    requires FindOne(students, StudentUserid, form.userid).None?
    ensures Login(students + [Enrolled(id, form, upload, salt)], form.userid, password, now) == PendingApprovalReply
  {
    var x := Enrolled(id, form, upload, salt);
    var s := students + [x];
    assert s[|students|] == x;
    assert forall j :: 0 <= j < |students| ==> s[j] == students[j];
  }
}
