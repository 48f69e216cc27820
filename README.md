# Student accounts and role guard of an attendance-management backend

This project models the authentication and authorisation core of a small
Express/Mongoose attendance application in Dafny and proves properties of it:

- student registration and login (`backend/routes/auth.js`);
- the `authMiddleware(role)` guard that every protected route passes through
  (`backend/middleware/authMiddleware.js`);
- the teacher's approval routes (`backend/routes/teacher.js`);
- the admin's listing and removal routes (`backend/routes/admin.js`);
- the student's attendance and complaint routes (`backend/routes/student.js`).

The database is a `Store.Database` object with three collections kept as
sequences in natural (insertion) order, plus the ObjectId generator. `findOne`,
`findByIdAndUpdate` and `findByIdAndDelete` act on the first matching document,
and `find` returns every match (module `Query`). The routes that write
(register, approve, remove) are methods that change the database. The routes
that only read (login, the listings, attendance, complaint) are functions of
the collections, so by construction they never change the store.

bcryptjs and jsonwebtoken are idealised in module `Crypto`:

- A bcrypt hash is `"$2a$10$"`, then the 22-character salt, then the password
  itself, standing in for bcrypt's digest. `Compare(p, Hash(p, salt))` holds. No other password
  matches, and the hash is never the plaintext.
- A token carries its payload, `iat`, `exp` and a tag that only its secret can
  produce. `Verify` checks the tag first and the expiry second, as
  `jwt.verify` does. A token verifies under its own secret until
  `now >= exp`, and never verifies under any other secret.

The `x-auth-token` header is one of three things: missing, a string that is
not a token (the empty string among them), or a token. Each guarded route
takes the guard's verification secret as a configuration parameter. The code
fixes that secret to `"secret"` (`AuthMiddleware.VerifySecret`), while login
signs with `"your_jwt_secret"` (`AuthRoutes.SigningSecret`). See Findings.

Behaviour of the code that the model keeps as it is:

- Login answers an unknown `userid` with 400 "Invalid Credentials".
- Login takes no role. Only students can register or log in.
- The guard does not look the subject up again in the database. A deleted
  student's token keeps passing the guard until it expires.
- The teacher and admin listings return whole student documents, password
  hashes included.
- The routes use the fields `userid` and `approved`.
  `backend/models/Student.js:4-7` declares `email` and `isApproved` instead.
  The model uses the routes' names.

The database invariant `Store.Database.Valid` says three things. Every `_id`,
including each attendance record's `studentId`, lies below the id counter. No
two students share an `_id` or a login handle. A student is approved exactly
when its `_id` is in the ghost set `everApproved`, and that set only ever grows.

## Model

| member | source | states |
|---|---|---|
| `Crypto.Hash` | backend/routes/auth.js:46-47 | the stored hash matches the submitted password and no other, and is never the plaintext |
| `Crypto.CompareAtMostOne` | backend/routes/auth.js:72 | `bcrypt.compare` against one stored hash succeeds for at most one password |
| `Crypto.EditedClaimsRejected` | backend/middleware/authMiddleware.js:9 | a token whose payload, `iat` or `exp` was changed after signing fails verification under every secret |
| `Crypto.Verify` | backend/middleware/authMiddleware.js:9 | a token verifies only under the secret it was signed with and only before `exp`; it succeeds only when its signature covers exactly its payload, `iat` and `exp`, and then yields that payload |
| `Crypto.Sign` | backend/routes/auth.js:85 | a signed token verifies under its secret until `now + expiresIn`, then fails as expired, and always fails under any other secret |
| `Query.IndexOf` | backend/routes/auth.js:62 | the position found holds the key and no earlier document does; none is found exactly when no document has the key |
| `Query.FindOne` | backend/routes/auth.js:27 | the document found is in the collection and has the key; null exactly when no document has it |
| `Query.Filter` | backend/routes/teacher.js:13 | a `find` returns every accepted document exactly as often as the collection holds it, and nothing else |
| `Query.DeleteFirst` | backend/routes/admin.js:32 | without a match nothing changes; with one, exactly the first matching document goes and the rest keep their order; documents with other keys all stay |
| `Store.Approve` | backend/routes/teacher.js:24 | same length; the first student with the `_id` gets `approved = true`; every other student is unchanged or is a match with only `approved` set; no approval is cleared; a missing `_id` changes nothing |
| `Store.Database.NewObjectId` | backend/routes/auth.js:33 | the `_id` a new student receives belongs to no student or teacher, is named by no attendance record, and was never approved |
| `Store.Database.Save` | backend/routes/auth.js:49 | `save()` appends exactly the new student; the invariant, including unique ids and handles, is kept |
| `Store.Database.ApproveById` | backend/routes/teacher.js:24 | the students become `Approve(old students, id)`; the invariant is kept and `everApproved` only grows |
| `Store.Database.DeleteStudentById` | backend/routes/admin.js:32 | returns the first student with the id (or null) and removes exactly it |
| `Store.Database.DeleteTeacherById` | backend/routes/admin.js:32 | returns the first teacher with the id (or null) and removes exactly it |
| `Store.DeleteKeepsStudentsDistinct` | backend/routes/admin.js:32 | removing a student keeps the remaining `_id`s and login handles distinct |
| `AuthMiddleware.Authenticate` | backend/middleware/authMiddleware.js:3-21 | 401 "No token" exactly for a missing or empty header; 401 "Invalid Token" exactly for a non-empty string that is not a token, a token that fails verification, or (truthy role) a verified token without `user`; a request passes iff its token verifies and, for a truthy role, names that role; a falsy role passes every verified token; 403 only for a verified token of another role; a pass carries the token's `user` |
| `AuthMiddleware.Guard` | backend/middleware/authMiddleware.js:4-20 | exactly one of `next()` or one reply; the reply is the decision's; `req.user` is the token's `user` once the token verifies, even on the 403 path, and is untouched otherwise |
| `AuthRoutes.Enrolled` | backend/routes/auth.js:33-47 | the new student is unapproved, has the submitted userid/name/roll/course/year/semester, the uploaded file name as photo (null without a file), and a hash matching exactly the submitted password |
| `AuthRoutes.Register` | backend/routes/auth.js:22-55 | a taken `userid` gets 400 "User already exists" and changes nothing; otherwise exactly one `Enrolled` student is appended under a fresh id, the id counter advances by one, and 201 is sent; the invariant, unique handles included, is kept |
| `AuthRoutes.RegisterKeepsUseridsUnique` | backend/routes/auth.js:27-31 | the duplicate check keeps login handles unique |
| `AuthRoutes.IssueToken` | backend/routes/auth.js:78-88 | the payload is `{user: {id, role: 'student'}}`, expiry is five hours after issue, and the token verifies under the signing secret until then |
| `AuthRoutes.Login` | backend/routes/auth.js:58-94 | only 400 "Invalid Credentials", 403 pending, or a token; a token goes only to a registered, approved student whose password matches; an unknown `userid` gets 400 |
| `AuthRoutes.FindOwnUserid` | backend/routes/auth.js:62 | with unique handles the lookup finds the one student that has the handle |
| `AuthRoutes.LoginOutcome` | backend/routes/auth.js:62-87 | for a registered student: unapproved means 403 whatever the password; approved means a token iff the password matches, else 400 |
| `AuthRoutes.UnknownAndWrongPasswordAlike` | backend/routes/auth.js:64-76 | an unknown handle and a wrong password get the identical reply |
| `AuthRoutes.FreshRegistrationPending` | backend/routes/auth.js:68-70 | right after registering, login is refused as pending for every password |
| `TeacherRoutes.PendingRoute` | backend/routes/teacher.js:11-19 | only a verified teacher token gets a listing; the listing is exactly the unapproved students; anything else gets exactly the guard's own reply |
| `TeacherRoutes.ApproveRoute` | backend/routes/teacher.js:22-30 | for a teacher token the students become `Approve(old, id)` and the reply is "Student approved", also for an unknown id; otherwise nothing changes; `everApproved` only grows |
| `TeacherRoutes.ApproveOnlyTarget` | backend/routes/teacher.js:24 | with distinct ids, exactly the student with that id gets `approved = true`; no other field and no other student changes |
| `TeacherRoutes.ApproveIdempotent` | backend/routes/teacher.js:24 | approving twice equals approving once |
| `TeacherRoutes.ApproveApprovedUnchanged` | backend/routes/teacher.js:24 | approving an already approved student, or a missing id, leaves the store unchanged |
| `TeacherRoutes.ApprovedLeavesPendingList` | backend/routes/teacher.js:13 | after approval the student is not in the unapproved listing |
| `AdminRoutes.StudentsRoute` | backend/routes/admin.js:8-16 | only a verified admin token gets a listing, and it is every student unfiltered; anything else gets exactly the guard's own reply |
| `AdminRoutes.TeachersRoute` | backend/routes/admin.js:19-27 | only a verified admin token gets a listing, and it is every teacher unfiltered; anything else gets exactly the guard's own reply |
| `AdminRoutes.RemoveUser` | backend/routes/admin.js:32 | the first student with the id goes if one exists, and teachers are then untouched; otherwise the first teacher with the id goes; at most one document disappears; all documents with other ids stay |
| `AdminRoutes.RemoveRoute` | backend/routes/admin.js:30-38 | for an admin token the collections become `RemoveUser(old, id)` and the reply is "User removed" even without a match; otherwise nothing changes; `everApproved` is untouched |
| `StudentRoutes.AttendanceRoute` | backend/routes/student.js:7-15 | only a verified student token gets records, and they are exactly the records whose `studentId` is the token's `user.id`; anything else gets exactly the guard's own reply |
| `StudentRoutes.ComplaintRoute` | backend/routes/student.js:18-22 | a student token always gets "Complaint submitted", whatever the text; anything else gets exactly the guard's own reply; nothing is stored |
| `Session.RegisterKeepsApproval` | backend/routes/auth.js:42 | registering a fresh `_id` clears no approval |
| `Session.ApproveKeepsApproval` | backend/routes/teacher.js:24 | approving clears no approval |
| `Session.RemoveKeepsApproval` | backend/routes/admin.js:32 | removing a user clears no approval among the remaining students |
| `Session.ApprovedNeverPendingAgain` | backend/routes/teacher.js:13 | in every reachable database state, no `_id` ever approved is in the unapproved listing; since every route only grows `everApproved`, a student once approved never reappears there, not even after removal and re-registration |
| `Session.ApprovalOpensLogin` | backend/routes/auth.js:68-87 | register, then login is 403; approve, then the same credentials get a token; with a shared secret that token reads exactly the student's own attendance until it expires |
| `Session.IssuedTokenRejected` | backend/middleware/authMiddleware.js:9 | as written, every token login issues gets 401 "Invalid Token" at every guarded route, for every role and time |
| `Session.SharedSecretAdmitsIssuedToken` | backend/routes/auth.js:85 | with one secret shared by login and guard, an issued token passes the student guard as its own student until it expires |
| `Session.ForgedRoleRejected` | backend/middleware/authMiddleware.js:9-13 | a student token whose role was rewritten to "teacher" gets 401 "Invalid Token" at the pending listing, under any secret and at any time |
| `Session.StudentTokenDeniedElsewhere` | backend/middleware/authMiddleware.js:12-14 | a student's token gets 403 at the teacher and admin listings |
| `Session.IssuedTokenExpires` | backend/routes/auth.js:85 | five hours after issue the token gets 401 under any secret |

## Left out

- The 500 "Server error" replies: they come from database exceptions, and the database here never fails.
- The multer disk storage and photo file naming use the clock and randomness. The photo's file name is a parameter of `Register`.
- `POST /upload-timetable` in `backend/routes/teacher.js` has no logic beyond its success reply.
- bcrypt is not modelled as one-way, and salt strength is not modelled. The salt is a parameter.
- `Crypto.Hash`: bcryptjs uses only the first 72 bytes of a password, so two passwords that share a 72-byte prefix compare equal. The model's `Compare` is exact, so "no other password matches" holds only for passwords of at most 72 bytes.
- `AuthRoutes.Enrolled`: "the hash matches exactly the submitted password" holds only for passwords of at most 72 bytes, because of bcrypt's 72-byte limit.
- The compact JWT string format and signature algorithms are not modelled. The clock is a parameter, in seconds.
- Mongoose strict mode would strip the fields that `backend/models/Student.js` does not declare. That is not modelled.
- `findByIdAndUpdate` and `findByIdAndDelete` throw a CastError on an id that is not a valid ObjectId. That is not modelled: ids are numbers.
- Request bodies with missing fields are not modelled: every form field is a string.
- A missing `userid` turns the lookup filter into `{}`. That is not modelled.
- Two registrations of one `userid` running at the same time are not modelled. Requests run one at a time.
- The `throw` inside the `jwt.sign` callback is not modelled. Signing a plain payload with a string secret does not fail.
- `backend/models/Teacher.js` is not part of this model. Teachers carry only `_id`, `userid` and `name`.
- Marking attendance and creating teachers happen outside these routes. The database constructor takes those collections as given.
- `frontend/js/main.js` posts `{email, password, role}`, which the login route ignores in favour of `userid`. The frontend is not part of this model.

## Findings

| source | as written | input that shows it | evidently intended | confidence | as-written member | corrected member |
|---|---|---|---|---|---|---|
| backend/middleware/authMiddleware.js:9 | the guard verifies with `'secret'`, but login (backend/routes/auth.js:85) signs with `'your_jwt_secret'` | any token `POST /login` returns, sent as `x-auth-token` to `GET /api/student/attendance` within five hours: 401 "Invalid Token" | one secret shared by signing and verification, so a logged-in student reaches the student routes | high; not executed | `Session.IssuedTokenRejected` | `Session.SharedSecretAdmitsIssuedToken` |
