/** The record store as mutable state. The service and controller code finds
    a row, changes its fields in place with setters and saves it back; each
    method here does the same steps on the table fields and is proved to
    leave the store exactly as the corresponding transition function of the
    model says. */
module Store {
  import opened Wrappers
  import opened Entities
  import UserService
  import CourseEnrollment
  import ProfileController
  import DataInitializer

  class Repository {
    var users: seq<User>
    var students: seq<Student>
    var teachers: seq<Teacher>
    var courses: seq<Course>

    /** The tables as a value. */
    function Snapshot(): Db
      reads this
    {
      Db(users, students, teachers, courses)
    }

    /** The store's constraints hold. */
    ghost predicate Valid()
      reads this
    {
      Entities.Valid(Snapshot())
    }

    constructor (initial: Db)
      requires Entities.Valid(initial)
      ensures Valid() && Snapshot() == initial
    {
      users := initial.users;
      students := initial.students;
      teachers := initial.teachers;
      courses := initial.courses;
    }

    /** `UserService.registerStudent`: save the account, then the profile
        linked to it; a constraint violation on either save undoes both. */
    method RegisterStudent(username: string, email: string, password: string,
                           name: string, roll: string, salt: nat) returns (r: Result<UserId, StoreError>)
      requires Valid()
      modifies this
      ensures (Snapshot(), r) ==
        UserService.RegisterStudent(old(Snapshot()), username, email, password, name, roll, salt)
      ensures Valid()
      ensures old(ProfilesMatchRoles(Snapshot())) ==> ProfilesMatchRoles(Snapshot())
    {
      if UserService.ExistsByUsername(users, username) || UserService.ExistsByEmail(users, email) {
        return Failure(DuplicateIdentifier);
      }
      var before := users;
      var user := UserService.NewAccount(username, email, password, STUDENT, salt);
      users := users + [user];
      var savedId := |users| - 1;
      if UserService.FindByRoll(students, roll).Some? {
        users := before;
        return Failure(DuplicateIdentifier);
      }
      var student := Student(name, roll, email, None, None, Some(savedId), {});
      students := students + [student];
      return Success(savedId);
    }

    /** `UserService.registerTeacher`. */
    method RegisterTeacher(username: string, email: string, password: string,
                           name: string, phone: Option<string>, salt: nat) returns (r: Result<UserId, StoreError>)
      requires Valid()
      modifies this
      ensures (Snapshot(), r) ==
        UserService.RegisterTeacher(old(Snapshot()), username, email, password, name, phone, salt)
      ensures Valid()
      ensures old(ProfilesMatchRoles(Snapshot())) ==> ProfilesMatchRoles(Snapshot())
    {
      if UserService.ExistsByUsername(users, username) || UserService.ExistsByEmail(users, email) {
        return Failure(DuplicateIdentifier);
      }
      var before := users;
      var user := UserService.NewAccount(username, email, password, TEACHER, salt);
      users := users + [user];
      var savedId := |users| - 1;
      if UserService.FindTeacherByEmail(teachers, email).Some? {
        users := before;
        return Failure(DuplicateIdentifier);
      }
      var teacher := Teacher(name, email, phone, Some(savedId));
      teachers := teachers + [teacher];
      return Success(savedId);
    }

    /** `UserService.generateResetToken`. */
    method GenerateResetToken(email: string, freshToken: string, now: int) returns (token: Option<string>)
      requires Valid() && TokenFresh(users, freshToken)
      modifies this
      ensures (Snapshot(), token) == UserService.GenerateResetToken(old(Snapshot()), email, freshToken, now)
      ensures Valid()
      ensures old(ProfilesMatchRoles(Snapshot())) ==> ProfilesMatchRoles(Snapshot())
    {
      var found := UserService.FindByEmail(users, email);
      if found.None? {
        return None;
      }
      var i := found.value;
      var user := users[i];
      user := user.(resetToken := Some(freshToken));
      user := user.(resetTokenExpiry := Some(now + UserService.ONE_HOUR));
      users := users[i := user];
      return Some(freshToken);
    }

    /** `UserService.resetPassword`. */
    method ResetPassword(token: string, newPassword: string, salt: nat, now: int) returns (ok: bool)
      requires Valid()
      modifies this
      ensures (Snapshot(), ok) == UserService.ResetPassword(old(Snapshot()), token, newPassword, salt, now)
      ensures Valid()
      ensures old(ProfilesMatchRoles(Snapshot())) ==> ProfilesMatchRoles(Snapshot())
    {
      var found := UserService.FindByResetToken(users, token);
      if found.Some? {
        var i := found.value;
        var user := users[i];
        if now < user.resetTokenExpiry.value {
          user := user.(password := Encode(newPassword, salt));
          user := user.(resetToken := None);
          user := user.(resetTokenExpiry := None);
          users := users[i := user];
          return true;
        }
      }
      return false;
    }

    /** `CourseEnrollmentController.enrollInCourse`: add to the caller's
        enrolled set in place, then save the student. */
    method EnrollInCourse(caller: string, courseId: CourseId) returns (o: CourseEnrollment.Outcome)
      requires Valid()
      modifies this
      ensures (Snapshot(), o) == CourseEnrollment.Enroll(old(Snapshot()), caller, courseId)
      ensures Valid()
      ensures old(ProfilesMatchRoles(Snapshot())) ==> ProfilesMatchRoles(Snapshot())
    {
      var s := CourseEnrollment.CallerStudent(Snapshot(), caller);
      if s.None? {
        return CourseEnrollment.RedirectHome;
      }
      var course := CourseEnrollment.FindCourse(courses, courseId);
      if course.None? {
        return CourseEnrollment.CourseNotFound;
      }
      var student := students[s.value];
      if course.value.id !in student.enrolledCourses {
        student := student.(enrolledCourses := student.enrolledCourses + {course.value.id});
        students := students[s.value := student];
        return CourseEnrollment.EnrolledIn(course.value.name);
      }
      return CourseEnrollment.AlreadyEnrolled;
    }

    /** `CourseEnrollmentController.unenrollFromCourse`. */
    method UnenrollFromCourse(caller: string, courseId: CourseId) returns (o: CourseEnrollment.Outcome)
      requires Valid()
      modifies this
      ensures (Snapshot(), o) == CourseEnrollment.Unenroll(old(Snapshot()), caller, courseId)
      ensures Valid()
      ensures old(ProfilesMatchRoles(Snapshot())) ==> ProfilesMatchRoles(Snapshot())
    {
      var s := CourseEnrollment.CallerStudent(Snapshot(), caller);
      if s.None? {
        return CourseEnrollment.RedirectHome;
      }
      var course := CourseEnrollment.FindCourse(courses, courseId);
      if course.None? {
        return CourseEnrollment.CourseNotFound;
      }
      var student := students[s.value];
      if course.value.id in student.enrolledCourses {
        student := student.(enrolledCourses := student.enrolledCourses - {course.value.id});
        students := students[s.value := student];
        return CourseEnrollment.UnenrolledFrom(course.value.name);
      }
      return CourseEnrollment.NotEnrolled;
    }

    /** `ProfileController.updateProfile`: conditional setters on the
        caller's profile row, then save. */
    method UpdateProfile(caller: string, p: ProfileController.ProfileUpdate)
      returns (o: ProfileController.UpdateOutcome)
      requires Valid()
      modifies this
      ensures (Snapshot(), o) == ProfileController.UpdateProfile(old(Snapshot()), caller, p)
      ensures Valid()
      ensures old(ProfilesMatchRoles(Snapshot())) ==> ProfilesMatchRoles(Snapshot())
    {
      var found := UserService.FindByUsername(users, caller);
      if found.None? {
        return ProfileController.UserNotFound;
      }
      var u := found.value;
      var s := StudentOf(students, u);
      if s.Some? {
        var student := students[s.value];
        if p.name.Some? { student := student.(name := p.name.value); }
        if p.email.Some? { student := student.(email := p.email.value); }
        if p.currentSemester.Some? { student := student.(currentSemester := p.currentSemester); }
        if p.academicYear.Some? { student := student.(academicYear := p.academicYear); }
        students := students[s.value := student];
        return ProfileController.ProfileUpdated;
      }
      var t := TeacherOf(teachers, u);
      if t.Some? {
        var teacher := teachers[t.value];
        if p.name.Some? { teacher := teacher.(name := p.name.value); }
        if p.email.Some? { teacher := teacher.(email := p.email.value); }
        if p.phone.Some? { teacher := teacher.(phone := p.phone); }
        if ProfileController.TeacherEmailClash(teachers, t.value, teacher.email) {
          return ProfileController.SaveFailed;
        }
        teachers := teachers[t.value := teacher];
      }
      return ProfileController.ProfileUpdated;
    }

    /** `DataInitializer.run`. */
    method SeedAdmin(salt: nat) returns (o: DataInitializer.SeedOutcome)
      requires Valid()
      modifies this
      ensures (Snapshot(), o) == DataInitializer.Run(old(Snapshot()), salt)
      ensures Valid()
      ensures old(ProfilesMatchRoles(Snapshot())) ==> ProfilesMatchRoles(Snapshot())
    {
      if UserService.ExistsByUsername(users, DataInitializer.ADMIN_USERNAME) {
        return DataInitializer.AdminAlreadyPresent;
      }
      var admin := DataInitializer.AdminAccount(salt);
      if UserService.ExistsByEmail(users, admin.email) {
        return DataInitializer.SeedFailed;
      }
      users := users + [admin];
      return DataInitializer.AdminCreated;
    }
  }
}
