/** The student's own course list, the available-course list, and enroll /
    unenroll (controller/CourseEnrollmentController.java). The caller is the
    authenticated username, passed in. Courses are compared by id: `Course`
    has no equals, and within one persistence context one id is one object. */
module CourseEnrollment {
  import opened Wrappers
  import opened Entities
  import UserService

  /** What a handler reports: the redirect home for a caller without a
      Student profile, or the message it flashes. */
  datatype Outcome =
    | RedirectHome
    | CourseNotFound
    | EnrolledIn(courseName: string)
    | AlreadyEnrolled
    | UnenrolledFrom(courseName: string)
    | NotEnrolled                         // unenroll of a course not enrolled: no message

  /** The caller's Student profile: none when the caller has no account or the
      account has no Student profile. */
  function CallerStudent(db: Db, caller: string): (r: Option<StudentId>)
    requires Valid(db)
    ensures r.Some? <==>
      exists u :: 0 <= u < |db.users| && db.users[u].username == caller && HasStudentProfile(db.students, u)
    ensures r.Some? ==>
      && r.value < |db.students| && db.students[r.value].user.Some?
      && db.users[db.students[r.value].user.value].username == caller
  {
    match UserService.FindByUsername(db.users, caller)
    case None => None
    case Some(u) => StudentOf(db.students, u)
  }

  /** `courseService.getCourseById`. */
  function FindCourse(courses: seq<Course>, id: CourseId): (r: Option<Course>)
    ensures r.Some? ==> r.value in courses && r.value.id == id
    ensures r.None? <==> forall k :: 0 <= k < |courses| ==> courses[k].id != id
  {
    match FirstIndex(courses, (c: Course) => c.id == id)
    case None => None
    case Some(k) => Some(courses[k])
  }

  /** `r` is `s` with some elements left out, the rest in their order. */
  predicate IsSubsequence<T(==)>(r: seq<T>, s: seq<T>)
    decreases |s|
  {
    if |r| == 0 then true
    else if |s| == 0 then false
    else if r[0] == s[0] then IsSubsequence(r[1..], s[1..])
    else IsSubsequence(r, s[1..])
  }

  /** The stream filter: the catalogue without the enrolled courses. */
  function Available(courses: seq<Course>, enrolled: set<CourseId>): (r: seq<Course>)
    ensures forall c :: c in r <==> c in courses && c.id !in enrolled
    ensures IsSubsequence(r, courses)
  {
    if |courses| == 0 then []
    else
      var rest := Available(courses[1..], enrolled);
      if courses[0].id !in enrolled then
        assert forall c :: c in courses <==> c == courses[0] || c in courses[1..];
        [courses[0]] + rest
      else
        assert forall c :: c in courses <==> c == courses[0] || c in courses[1..];
        assert |rest| > 0 ==> rest[0] != courses[0];
        rest
  }

  /** `viewMyCourses`: the caller's enrolled courses, or none for the redirect
      home. */
  function ViewMyCourses(db: Db, caller: string): (r: Option<set<CourseId>>)
    requires Valid(db)
    ensures r.None? <==> CallerStudent(db, caller).None?
    ensures r.Some? ==> r.value == db.students[CallerStudent(db, caller).value].enrolledCourses
  {
    match CallerStudent(db, caller)
    case None => None
    case Some(s) => Some(db.students[s].enrolledCourses)
  }

  /** `viewAvailableCourses`: exactly the catalogue courses the caller is not
      enrolled in, in catalogue order; or none for the redirect home. */
  function ViewAvailableCourses(db: Db, caller: string): (r: Option<seq<Course>>)
    requires Valid(db)
    ensures r.None? <==> CallerStudent(db, caller).None?
    ensures r.Some? ==>
      var enrolled := db.students[CallerStudent(db, caller).value].enrolledCourses;
      && (forall c :: c in r.value <==> c in db.courses && c.id !in enrolled)
      && IsSubsequence(r.value, db.courses)
  {
    match CallerStudent(db, caller)
    case None => None
    case Some(s) => Some(Available(db.courses, db.students[s].enrolledCourses))
  }

  /** `db'` is `db` with the enrolled set of Student `s` replaced by `e`, and
      nothing else changed. */
  predicate OnlyEnrollmentChanged(db: Db, db': Db, s: StudentId, e: set<CourseId>)
    requires s < |db.students|
  {
    db' == db.(students := db.students[s := db.students[s].(enrolledCourses := e)])
  }

  /** `enrollInCourse`. */
  function Enroll(db: Db, caller: string, courseId: CourseId): (res: (Db, Outcome))
    requires Valid(db)
    ensures Valid(res.0)
    ensures ProfilesMatchRoles(db) ==> ProfilesMatchRoles(res.0)
    ensures CallerStudent(db, caller).None? ==> res == (db, RedirectHome)
    ensures CallerStudent(db, caller).Some? && FindCourse(db.courses, courseId).None? ==>
      res == (db, CourseNotFound)
    ensures CallerStudent(db, caller).Some? && FindCourse(db.courses, courseId).Some? ==>
      var s := CallerStudent(db, caller).value;
      var enrolled := db.students[s].enrolledCourses;
      && (courseId in enrolled ==> res == (db, AlreadyEnrolled))
      && (courseId !in enrolled ==>
            && res.1 == EnrolledIn(FindCourse(db.courses, courseId).value.name)
            && OnlyEnrollmentChanged(db, res.0, s, enrolled + {courseId})
            && |enrolled + {courseId}| == |enrolled| + 1)
  {
    match CallerStudent(db, caller)
    case None => (db, RedirectHome)
    case Some(s) =>
      match FindCourse(db.courses, courseId)
      case None => (db, CourseNotFound)
      case Some(course) =>
        var student := db.students[s];
        if course.id !in student.enrolledCourses then
          var db' := db.(students := db.students[s := student.(enrolledCourses := student.enrolledCourses + {course.id})]);
          EnrollmentChangeKeepsValid(db, s, student.enrolledCourses + {course.id});
          (db', EnrolledIn(course.name))
        else
          (db, AlreadyEnrolled)
  }

  /** `unenrollFromCourse`. Unenrolling a course the caller is not enrolled
      in changes nothing and reports no success. */
  function Unenroll(db: Db, caller: string, courseId: CourseId): (res: (Db, Outcome))
    requires Valid(db)
    ensures Valid(res.0)
    ensures ProfilesMatchRoles(db) ==> ProfilesMatchRoles(res.0)
    ensures CallerStudent(db, caller).None? ==> res == (db, RedirectHome)
    ensures CallerStudent(db, caller).Some? && FindCourse(db.courses, courseId).None? ==>
      res == (db, CourseNotFound)
    ensures CallerStudent(db, caller).Some? && FindCourse(db.courses, courseId).Some? ==>
      var s := CallerStudent(db, caller).value;
      var enrolled := db.students[s].enrolledCourses;
      && (courseId !in enrolled ==> res == (db, NotEnrolled))
      && (courseId in enrolled ==>
            && res.1 == UnenrolledFrom(FindCourse(db.courses, courseId).value.name)
            && OnlyEnrollmentChanged(db, res.0, s, enrolled - {courseId})
            && |enrolled - {courseId}| == |enrolled| - 1)
  {
    match CallerStudent(db, caller)
    case None => (db, RedirectHome)
    case Some(s) =>
      match FindCourse(db.courses, courseId)
      case None => (db, CourseNotFound)
      case Some(course) =>
        var student := db.students[s];
        if course.id in student.enrolledCourses then
          var db' := db.(students := db.students[s := student.(enrolledCourses := student.enrolledCourses - {course.id})]);
          EnrollmentChangeKeepsValid(db, s, student.enrolledCourses - {course.id});
          (db', UnenrolledFrom(course.name))
        else
          (db, NotEnrolled)
  }

  /** Replacing one student's enrolled set keeps the store valid and keeps
      every caller resolving to the same Student profile. */
  lemma EnrollmentChangeKeepsValid(db: Db, s: StudentId, e: set<CourseId>)
    requires Valid(db) && s < |db.students|
    ensures var db' := db.(students := db.students[s := db.students[s].(enrolledCourses := e)]);
      && Valid(db')
      && (ProfilesMatchRoles(db) ==> ProfilesMatchRoles(db'))
      && forall caller :: CallerStudent(db', caller) == CallerStudent(db, caller)
  {
    var db' := db.(students := db.students[s := db.students[s].(enrolledCourses := e)]);
    assert forall k :: 0 <= k < |db.students| ==> db'.students[k].user == db.students[k].user;
    assert forall k :: 0 <= k < |db.students| ==> db'.students[k].roll == db.students[k].roll;
    forall u | 0 <= u < |db.users|
      ensures HasStudentProfile(db'.students, u) <==> HasStudentProfile(db.students, u)
      ensures StudentOf(db'.students, u) == StudentOf(db.students, u)
    {
      if HasStudentProfile(db.students, u) {
        var k :| 0 <= k < |db.students| && db.students[k].user == Some(u);
        assert db'.students[k].user == Some(u);
      }
      if HasStudentProfile(db'.students, u) {
        var k :| 0 <= k < |db'.students| && db'.students[k].user == Some(u);
        assert db.students[k].user == Some(u);
      }
    }
    assert Valid(db');
    assert ProfilesMatchRoles(db) ==> ProfilesMatchRoles(db');
    forall caller
      ensures CallerStudent(db', caller) == CallerStudent(db, caller)
    {
    }
  }

  // ---------------------------------------------------------------------
  // Properties across calls
  // ---------------------------------------------------------------------

  /** Enrolling twice is enrolling once: the second call reports "already
      enrolled" (or repeats the first call's refusal) and changes nothing. */
  lemma {:induction false} EnrollIsIdempotent(db: Db, caller: string, courseId: CourseId)
    requires Valid(db)
    ensures var (db1, o1) := Enroll(db, caller, courseId);
      var (db2, o2) := Enroll(db1, caller, courseId);
      && db2 == db1
      && (o1.EnrolledIn? || o1 == AlreadyEnrolled ==> o2 == AlreadyEnrolled)
      && (o1 == RedirectHome || o1 == CourseNotFound ==> o2 == o1)
  {
    var (db1, o1) := Enroll(db, caller, courseId);
    if o1.EnrolledIn? {
      var s := CallerStudent(db, caller).value;
      EnrollmentChangeKeepsValid(db, s, db.students[s].enrolledCourses + {courseId});
      assert CallerStudent(db1, caller) == Some(s);
      assert db1.courses == db.courses;
      assert courseId in db1.students[s].enrolledCourses;
    }
  }

  /** Enroll followed by unenroll of the same course restores the store
      exactly. */
  lemma {:induction false} EnrollThenUnenrollRestores(db: Db, caller: string, courseId: CourseId)
    requires Valid(db)
    requires Enroll(db, caller, courseId).1.EnrolledIn?
    ensures var db1 := Enroll(db, caller, courseId).0;
      Unenroll(db1, caller, courseId) == (db, UnenrolledFrom(Enroll(db, caller, courseId).1.courseName))
  {
    var db1 := Enroll(db, caller, courseId).0;
    var s := CallerStudent(db, caller).value;
    var enrolled := db.students[s].enrolledCourses;
    EnrollmentChangeKeepsValid(db, s, enrolled + {courseId});
    assert CallerStudent(db1, caller) == Some(s);
    assert db1.students[s].enrolledCourses - {courseId} == enrolled;
    assert db1.students[s := db1.students[s].(enrolledCourses := enrolled)] == db.students;
  }

  /** After a successful enroll the course leaves the caller's available list
      and every other available course stays. */
  lemma {:induction false} EnrollRemovesFromAvailable(db: Db, caller: string, courseId: CourseId)
    requires Valid(db)
    requires Enroll(db, caller, courseId).1.EnrolledIn?
    ensures var db1 := Enroll(db, caller, courseId).0;
      && ViewAvailableCourses(db, caller).Some? && ViewAvailableCourses(db1, caller).Some?
      && forall c :: c in ViewAvailableCourses(db1, caller).value <==>
                       c in ViewAvailableCourses(db, caller).value && c.id != courseId
  {
    var db1 := Enroll(db, caller, courseId).0;
    var s := CallerStudent(db, caller).value;
    EnrollmentChangeKeepsValid(db, s, db.students[s].enrolledCourses + {courseId});
    assert CallerStudent(db1, caller) == Some(s);
  }
}
