/** Viewing and partially updating one's own profile
    (controller/ProfileController.java). The caller is the authenticated
    username, passed in. */
module ProfileController {
  import opened Wrappers
  import opened Entities
  import UserService

  /** The `userType` the profile pages select. */
  datatype UserType = StudentType(student: StudentId) | TeacherType(teacher: TeacherId) | NoUserType

  /** The profile page: the caller's account and profile kind, or an empty
      page when the caller has no account. */
  datatype ProfileView = EmptyProfile | ProfileOf(user: UserId, userType: UserType)

  /** `viewProfile` (and `editProfile`, which selects identically): a Student
      profile wins over a Teacher profile; an account with neither (the
      administrator) gets no user type. */
  function ViewProfile(db: Db, caller: string): (v: ProfileView)
    requires UniqueUsernames(db.users)
    ensures v.EmptyProfile? <==> !UserService.ExistsByUsername(db.users, caller)
    ensures v.ProfileOf? ==>
      && v.user < |db.users| && db.users[v.user].username == caller
      && (HasStudentProfile(db.students, v.user) ==>
            v.userType.StudentType? && v.userType.student < |db.students| && db.students[v.userType.student].user == Some(v.user))
      && (!HasStudentProfile(db.students, v.user) && HasTeacherProfile(db.teachers, v.user) ==>
            v.userType.TeacherType? && v.userType.teacher < |db.teachers| && db.teachers[v.userType.teacher].user == Some(v.user))
      && (!HasStudentProfile(db.students, v.user) && !HasTeacherProfile(db.teachers, v.user) ==>
            v.userType == NoUserType)
  {
    match UserService.FindByUsername(db.users, caller)
    case None => EmptyProfile
    case Some(u) =>
      match StudentOf(db.students, u)
      case Some(s) => ProfileOf(u, StudentType(s))
      case None =>
        match TeacherOf(db.teachers, u)
        case Some(t) => ProfileOf(u, TeacherType(t))
        case None => ProfileOf(u, NoUserType)
  }

  /** The optional request parameters of `updateProfile`. */
  datatype ProfileUpdate = ProfileUpdate(
    name: Option<string>,
    email: Option<string>,
    phone: Option<string>,
    currentSemester: Option<int>,
    academicYear: Option<string>)

  /** Null means keep: each of name, email, current semester and academic
      year is overwritten only when given; phone is ignored; the rest of the
      profile is untouched. */
  function MergeStudent(s: Student, p: ProfileUpdate): (s': Student)
    ensures s'.name == (if p.name.Some? then p.name.value else s.name)
    ensures s'.email == (if p.email.Some? then p.email.value else s.email)
    ensures s'.currentSemester == (if p.currentSemester.Some? then p.currentSemester else s.currentSemester)
    ensures s'.academicYear == (if p.academicYear.Some? then p.academicYear else s.academicYear)
    ensures s'.roll == s.roll && s'.user == s.user && s'.enrolledCourses == s.enrolledCourses
  {
    var s1 := if p.name.Some? then s.(name := p.name.value) else s;
    var s2 := if p.email.Some? then s1.(email := p.email.value) else s1;
    var s3 := if p.currentSemester.Some? then s2.(currentSemester := p.currentSemester) else s2;
    if p.academicYear.Some? then s3.(academicYear := p.academicYear) else s3
  }

  /** Null means keep: each of name, email and phone is overwritten only when
      given; current semester and academic year are ignored. */
  function MergeTeacher(t: Teacher, p: ProfileUpdate): (t': Teacher)
    ensures t'.name == (if p.name.Some? then p.name.value else t.name)
    ensures t'.email == (if p.email.Some? then p.email.value else t.email)
    ensures t'.phone == (if p.phone.Some? then p.phone else t.phone)
    ensures t'.user == t.user
  {
    var t1 := if p.name.Some? then t.(name := p.name.value) else t;
    var t2 := if p.email.Some? then t1.(email := p.email.value) else t1;
    if p.phone.Some? then t2.(phone := p.phone) else t2
  }

  /** Merging the same parameters twice is merging them once. */
  lemma MergeStudentIsIdempotent(s: Student, p: ProfileUpdate)
    ensures MergeStudent(MergeStudent(s, p), p) == MergeStudent(s, p)
  {
  }

  lemma MergeTeacherIsIdempotent(t: Teacher, p: ProfileUpdate)
    ensures MergeTeacher(MergeTeacher(t, p), p) == MergeTeacher(t, p)
  {
  }

  /** `ProfileUpdated` is reported for every existing account, with or without
      a profile. `SaveFailed` is the one exception: a teacher email already
      held by another Teacher row makes the save throw, and the handler does
      not catch it. */
  datatype UpdateOutcome = ProfileUpdated | UserNotFound | SaveFailed

  /** Another Teacher row than `t` already has `email`. */
  predicate TeacherEmailClash(teachers: seq<Teacher>, t: TeacherId, email: string) {
    exists k :: 0 <= k < |teachers| && k != t && teachers[k].email == email
  }

  /** `updateProfile`. Only the caller's own profile row can change, and the
      account record never does. */
  function UpdateProfile(db: Db, caller: string, p: ProfileUpdate): (res: (Db, UpdateOutcome))
    requires Valid(db)
    ensures Valid(res.0)
    ensures ProfilesMatchRoles(db) ==> ProfilesMatchRoles(res.0)
    ensures res.0.users == db.users && res.0.courses == db.courses
    ensures res.1 == UserNotFound <==> !UserService.ExistsByUsername(db.users, caller)
    ensures res.1 != ProfileUpdated ==> res.0 == db
    ensures UserService.ExistsByUsername(db.users, caller) ==>
      var u := UserService.FindByUsername(db.users, caller).value;
      && (StudentOf(db.students, u).Some? ==>
            var s := StudentOf(db.students, u).value;
            res == (db.(students := db.students[s := MergeStudent(db.students[s], p)]), ProfileUpdated))
      && (StudentOf(db.students, u).None? && TeacherOf(db.teachers, u).Some? ==>
            var t := TeacherOf(db.teachers, u).value;
            var t' := MergeTeacher(db.teachers[t], p);
            if TeacherEmailClash(db.teachers, t, t'.email) then res == (db, SaveFailed)
            else res == (db.(teachers := db.teachers[t := t']), ProfileUpdated))
      && (StudentOf(db.students, u).None? && TeacherOf(db.teachers, u).None? ==>
            res == (db, ProfileUpdated))
  {
    match UserService.FindByUsername(db.users, caller)
    case None => (db, UserNotFound)
    case Some(u) =>
      match StudentOf(db.students, u)
      case Some(s) =>
        var st := MergeStudent(db.students[s], p);
        StudentRowUpdateKeepsValid(db, s, st);
        (db.(students := db.students[s := st]), ProfileUpdated)
      case None =>
        match TeacherOf(db.teachers, u)
        case Some(t) =>
          var te := MergeTeacher(db.teachers[t], p);
          if TeacherEmailClash(db.teachers, t, te.email) then (db, SaveFailed)
          else
            TeacherRowUpdateKeepsValid(db, t, te);
            (db.(teachers := db.teachers[t := te]), ProfileUpdated)
        case None => (db, ProfileUpdated)
  }

  lemma StudentRowUpdateKeepsValid(db: Db, s: StudentId, st: Student)
    requires Valid(db) && s < |db.students|
    requires st.roll == db.students[s].roll && st.user == db.students[s].user
    ensures var db' := db.(students := db.students[s := st]);
      && Valid(db')
      && (ProfilesMatchRoles(db) ==> ProfilesMatchRoles(db'))
      && forall u :: 0 <= u < |db.users| ==> StudentOf(db'.students, u) == StudentOf(db.students, u)
  {
    var db' := db.(students := db.students[s := st]);
    assert forall k :: 0 <= k < |db.students| ==> db'.students[k].user == db.students[k].user;
    forall u | 0 <= u < |db.users|
      ensures HasStudentProfile(db'.students, u) <==> HasStudentProfile(db.students, u)
      ensures StudentOf(db'.students, u) == StudentOf(db.students, u)
    {
      if HasStudentProfile(db.students, u) {
        var k :| 0 <= k < |db.students| && db.students[k].user == Some(u);
        assert db'.students[k].user == Some(u);
      }
      if HasStudentProfile(db'.students, u) {
        var k :| 0 <= k < |db'.students| && db'.students[k].user == Some(u);
        assert db.students[k].user == Some(u);
      }
    }
  }

  lemma TeacherRowUpdateKeepsValid(db: Db, t: TeacherId, te: Teacher)
    requires Valid(db) && t < |db.teachers|
    requires te.user == db.teachers[t].user
    requires !TeacherEmailClash(db.teachers, t, te.email)
    ensures var db' := db.(teachers := db.teachers[t := te]);
      && Valid(db')
      && (ProfilesMatchRoles(db) ==> ProfilesMatchRoles(db'))
      && forall u :: 0 <= u < |db.users| ==> TeacherOf(db'.teachers, u) == TeacherOf(db.teachers, u)
  {
    var db' := db.(teachers := db.teachers[t := te]);
    assert forall k :: 0 <= k < |db.teachers| ==> db'.teachers[k].user == db.teachers[k].user;
    forall u | 0 <= u < |db.users|
      ensures HasTeacherProfile(db'.teachers, u) <==> HasTeacherProfile(db.teachers, u)
      ensures TeacherOf(db'.teachers, u) == TeacherOf(db.teachers, u)
    {
      if HasTeacherProfile(db.teachers, u) {
        var k :| 0 <= k < |db.teachers| && db.teachers[k].user == Some(u);
        assert db'.teachers[k].user == Some(u);
      }
      if HasTeacherProfile(db'.teachers, u) {
        var k :| 0 <= k < |db'.teachers| && db'.teachers[k].user == Some(u);
        assert db.teachers[k].user == Some(u);
      }
    }
  }

  /** Applying the same update twice is applying it once. */
  lemma {:induction false} UpdateProfileIsIdempotent(db: Db, caller: string, p: ProfileUpdate)
    requires Valid(db)
    ensures var (db1, o1) := UpdateProfile(db, caller, p);
      UpdateProfile(db1, caller, p) == (db1, o1)
  {
    var (db1, o1) := UpdateProfile(db, caller, p);
    if o1 == ProfileUpdated {
      var u := UserService.FindByUsername(db.users, caller).value;
      assert UserService.FindByUsername(db1.users, caller) == Some(u);
      match StudentOf(db.students, u)
      case Some(s) =>
        var st := MergeStudent(db.students[s], p);
        StudentRowUpdateKeepsValid(db, s, st);
        MergeStudentIsIdempotent(db.students[s], p);
        assert StudentOf(db1.students, u) == Some(s);
        assert db1.students[s := MergeStudent(db1.students[s], p)] == db1.students;
      case None =>
        match TeacherOf(db.teachers, u)
        case Some(t) =>
          var te := MergeTeacher(db.teachers[t], p);
          assert !TeacherEmailClash(db.teachers, t, te.email);
          TeacherRowUpdateKeepsValid(db, t, te);
          MergeTeacherIsIdempotent(db.teachers[t], p);
          assert db1 == db.(teachers := db.teachers[t := te]);
          assert StudentOf(db1.students, u).None?;
          assert TeacherOf(db1.teachers, u) == Some(t);
          assert !TeacherEmailClash(db1.teachers, t, te.email) by {
            forall k | 0 <= k < |db1.teachers| && k != t
              ensures db1.teachers[k].email != te.email
            {
              assert db1.teachers[k] == db.teachers[k];
            }
          }
          assert db1.teachers[t := MergeTeacher(db1.teachers[t], p)] == db1.teachers;
        case None =>
    }
  }
}
