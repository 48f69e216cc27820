/**
 * The MongoDB database the routes share: the student, teacher and
 * attendance collections, and the ObjectId generator. Each method is one
 * Mongoose call a route makes.
 */
module Store {
  import opened Wrappers
  import opened Models
  import opened Query

  /**
   * `findByIdAndUpdate(id, { approved: true })` on the students: the first
   * student with that `_id` becomes approved, nothing else changes.
   */
  function Approve(s: seq<Student>, id: Id): (r: seq<Student>)
    ensures |r| == |s|
    ensures forall j :: 0 <= j < |s| ==> r[j] == s[j] || (s[j].id == id && r[j] == s[j].(approved := true))
    ensures IndexOf(s, StudentId, id).Some? ==>
      r[IndexOf(s, StudentId, id).value] == s[IndexOf(s, StudentId, id).value].(approved := true)
    ensures forall j :: 0 <= j < |s| ==> s[j].approved ==> r[j].approved
    ensures (forall j :: 0 <= j < |s| ==> s[j].id != id) ==> r == s
  {
    match IndexOf(s, StudentId, id)
    case None => s
    case Some(i) => s[i := s[i].(approved := true)]
  }

  /** The `_id`s of the approved students. */
  ghost function ApprovedIds(s: seq<Student>): set<Id>
  {
    set i | 0 <= i < |s| && s[i].approved :: s[i].id
  }

  class Database {
    var students: seq<Student>
    var teachers: seq<Teacher>
    var attendance: seq<AttendanceRecord>
    /** The next ObjectId the driver hands out. */
    var nextId: Id
    /** Every `_id` a student has ever been approved under. */
    ghost var everApproved: set<Id>

    /**
     * Every `_id` anywhere in the database was handed out before; no two
     * students share an `_id` or a login handle; and a student is approved
     * exactly when its `_id` was ever approved.
     */
    ghost predicate Valid()
      reads this
    {
      (forall i :: 0 <= i < |students| ==> students[i].id < nextId) &&
      (forall i :: 0 <= i < |teachers| ==> teachers[i].id < nextId) &&
      (forall i :: 0 <= i < |attendance| ==> attendance[i].studentId < nextId) &&
      (forall id :: id in everApproved ==> id < nextId) &&
      DistinctIds(students) &&
      UniqueUserids(students) &&
      (forall i :: 0 <= i < |students| ==> (students[i].approved <==> students[i].id in everApproved))
    }

    /** A database with no students yet; teachers and attendance come from code outside this model. */
    constructor (teachers: seq<Teacher>, attendance: seq<AttendanceRecord>)
      ensures Valid()
      ensures students == [] && this.teachers == teachers && this.attendance == attendance
      ensures everApproved == {}
    {
      students := [];
      this.teachers := teachers;
      this.attendance := attendance;
      var t, a := IdBound(teachers, TeacherId), IdBound(attendance, RecordStudentId);
      nextId := if t < a then a else t;
      everApproved := {};
    }

    /** The `_id` a `new Student(...)` receives: one that no document has and no document refers to. */
    method NewObjectId() returns (id: Id)
      requires Valid()
      modifies this`nextId
      ensures Valid()
      ensures id == old(nextId) && nextId == id + 1
      ensures forall i :: 0 <= i < |students| ==> students[i].id != id
      ensures forall i :: 0 <= i < |teachers| ==> teachers[i].id != id
      ensures forall i :: 0 <= i < |attendance| ==> attendance[i].studentId != id
      ensures id !in everApproved
    {
      id := nextId;
      nextId := nextId + 1;
    }

    /** `student.save()` of a new document: appended to the collection. */
    method Save(s: Student)
      requires Valid()
      requires s.id < nextId && s.id !in everApproved
      requires forall i :: 0 <= i < |students| ==> students[i].id != s.id && students[i].userid != s.userid
      modifies this`students, this`everApproved
      ensures Valid()
      ensures students == old(students) + [s]
      ensures everApproved == old(everApproved) + if s.approved then {s.id} else {}
    {
      students := students + [s];
      if s.approved {
        everApproved := everApproved + {s.id};
      }
    }

    /** `Student.findByIdAndUpdate(id, { approved: true })`. */
    method ApproveById(id: Id)
      requires Valid()
      modifies this`students, this`everApproved
      ensures Valid()
      ensures students == Approve(old(students), id)
      ensures old(everApproved) <= everApproved
    {
      var found := IndexOf(students, StudentId, id);
      students := Approve(students, id);
      if found.Some? {
        everApproved := everApproved + {id};
      }
    }

    /** `Student.findByIdAndDelete(id)`: the deleted document, or null. */
    method DeleteStudentById(id: Id) returns (deleted: Option<Student>)
      requires Valid()
      modifies this`students
      ensures Valid()
      ensures deleted == FindOne(old(students), StudentId, id)
      ensures students == DeleteFirst(old(students), StudentId, id)
    {
      deleted := FindOne(students, StudentId, id);
      ghost var before := students;
      students := DeleteFirst(students, StudentId, id);
      DeleteKeepsStudentsDistinct(before, id);
    }

    /** `Teacher.findByIdAndDelete(id)`: the deleted document, or null. */
    method DeleteTeacherById(id: Id) returns (deleted: Option<Teacher>)
      requires Valid()
      modifies this`teachers
      ensures Valid()
      ensures deleted == FindOne(old(teachers), TeacherId, id)
      ensures teachers == DeleteFirst(old(teachers), TeacherId, id)
    {
      deleted := FindOne(teachers, TeacherId, id);
      teachers := DeleteFirst(teachers, TeacherId, id);
    }
  }

  /** Deleting a student keeps the remaining `_id`s and login handles distinct. */
  lemma DeleteKeepsStudentsDistinct(s: seq<Student>, id: Id)
    requires DistinctIds(s) && UniqueUserids(s)
    ensures DistinctIds(DeleteFirst(s, StudentId, id)) && UniqueUserids(DeleteFirst(s, StudentId, id))
  {
    match IndexOf(s, StudentId, id)
    case None =>
    case Some(k) =>
      var r := s[..k] + s[k + 1..];
      forall i, j | 0 <= i < j < |r|
        ensures r[i].id != r[j].id && r[i].userid != r[j].userid
      {
        var i', j' := if i < k then i else i + 1, if j < k then j else j + 1;
        assert r[i] == s[i'] && r[j] == s[j'] && i' < j';
      }
  }
}
