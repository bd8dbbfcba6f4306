/** The persistent entities of the application and the record store that holds
    them, with the constraints the store enforces. */
module Entities {
  import opened Wrappers

  /** Row identifiers. Accounts, students and teachers are identified by their
      position in their table (no operation of the model deletes a row); courses carry
      their own id, since they are looked up by the id in the request path;
      that id is a `Long` path variable, so any integer, negative ones
      included, can be asked for. */
  type UserId = nat
  type StudentId = nat
  type TeacherId = nat
  type CourseId = int

  datatype Role = ADMIN | TEACHER | STUDENT

  /** The exception a save raises when it would break a unique constraint. */
  datatype StoreError = DuplicateIdentifier

  /** A password hash as a symbolic term: the encoder applied to a plaintext
      with a salt. The salt stands for BCrypt's per-call randomness, so two
      encodings of one plaintext are different values; the plaintext is only
      ever consulted through `Matches`, the encoder's verify operation. */
  datatype Hash = Encoded(salt: nat, secret: string)

  function Encode(plain: string, salt: nat): (h: Hash)
    ensures Matches(plain, h)
    ensures forall other :: other != plain ==> !Matches(other, h)
  {
    Encoded(salt, plain)
  }

  predicate Matches(plain: string, h: Hash) {
    h.secret == plain
  }

  /** An account. The reset token and its expiry are nullable columns. */
  datatype User = User(
    username: string,
    email: string,
    password: Hash,
    role: Role,
    enabled: bool,
    resetToken: Option<string>,
    resetTokenExpiry: Option<int>)

  /** A student profile; `user` is the foreign key to the owning account and
      `enrolledCourses` the join table to courses, by course id. */
  datatype Student = Student(
    name: string,
    roll: string,
    email: string,
    currentSemester: Option<int>,
    academicYear: Option<string>,
    user: Option<UserId>,
    enrolledCourses: set<CourseId>)

  datatype Teacher = Teacher(
    name: string,
    email: string,
    phone: Option<string>,
    user: Option<UserId>)

  datatype Course = Course(id: CourseId, name: string, code: string)

  /** A snapshot of the record store: one table per entity. `courses` is in
      catalogue order, the order in which the course repository lists them. */
  datatype Db = Db(
    users: seq<User>,
    students: seq<Student>,
    teachers: seq<Teacher>,
    courses: seq<Course>)

  /** The first position of `s` whose element satisfies `p`: the repository's
      find-by-field query. */
  function FirstIndex<T>(s: seq<T>, p: T -> bool): (r: Option<nat>)
    ensures r.Some? ==> r.value < |s| && p(s[r.value])
    ensures r.Some? ==> forall j :: 0 <= j < r.value ==> !p(s[j])
    ensures r.None? <==> forall j :: 0 <= j < |s| ==> !p(s[j])
  {
    if |s| == 0 then None
    else if p(s[0]) then Some(0)
    else match FirstIndex(s[1..], p) {
      case None => None
      case Some(k) => Some(k + 1)
    }
  }

  // ---------------------------------------------------------------------
  // Constraints of the store
  // ---------------------------------------------------------------------

  predicate UniqueUsernames(users: seq<User>) {
    forall i, j :: 0 <= i < |users| && 0 <= j < |users| && i != j ==>
      users[i].username != users[j].username
  }

  predicate UniqueEmails(users: seq<User>) {
    forall i, j :: 0 <= i < |users| && 0 <= j < |users| && i != j ==>
      users[i].email != users[j].email
  }

  /** A reset token and its expiry are set together and cleared together. */
  predicate TokensPaired(users: seq<User>) {
    forall i :: 0 <= i < |users| ==>
      (users[i].resetToken.None? <==> users[i].resetTokenExpiry.None?)
  }

  /** No two accounts hold the same reset token (tokens are random UUIDs). */
  predicate UniqueTokens(users: seq<User>) {
    forall i, j :: 0 <= i < |users| && 0 <= j < |users| && i != j && users[i].resetToken.Some? ==>
      users[i].resetToken != users[j].resetToken
  }

  predicate UniqueRolls(students: seq<Student>) {
    forall i, j :: 0 <= i < |students| && 0 <= j < |students| && i != j ==>
      students[i].roll != students[j].roll
  }

  predicate UniqueTeacherEmails(teachers: seq<Teacher>) {
    forall i, j :: 0 <= i < |teachers| && 0 <= j < |teachers| && i != j ==>
      teachers[i].email != teachers[j].email
  }

  predicate UniqueCourses(courses: seq<Course>) {
    forall i, j :: 0 <= i < |courses| && 0 <= j < |courses| && i != j ==>
      courses[i].id != courses[j].id && courses[i].code != courses[j].code
  }

  /** No account is linked by two Student profiles (the unique `user_id`
      join column). */
  predicate UniqueStudentLinks(students: seq<Student>) {
    forall i, j :: 0 <= i < |students| && 0 <= j < |students| && i != j && students[i].user.Some? ==>
      students[i].user != students[j].user
  }

  predicate UniqueTeacherLinks(teachers: seq<Teacher>) {
    forall i, j :: 0 <= i < |teachers| && 0 <= j < |teachers| && i != j && teachers[i].user.Some? ==>
      teachers[i].user != teachers[j].user
  }

  /** Every profile's account link points at an existing account, and no
      account is linked by two profiles of the same kind. */
  predicate LinksValid(db: Db) {
    && (forall s :: 0 <= s < |db.students| && db.students[s].user.Some? ==>
          db.students[s].user.value < |db.users|)
    && (forall t :: 0 <= t < |db.teachers| && db.teachers[t].user.Some? ==>
          db.teachers[t].user.value < |db.users|)
    && UniqueStudentLinks(db.students)
    && UniqueTeacherLinks(db.teachers)
  }

  predicate HasStudentProfile(students: seq<Student>, u: UserId) {
    exists s :: 0 <= s < |students| && students[s].user == Some(u)
  }

  predicate HasTeacherProfile(teachers: seq<Teacher>, u: UserId) {
    exists t :: 0 <= t < |teachers| && teachers[t].user == Some(u)
  }

  /** `user.getStudent()`: the Student profile linked to account `u`. */
  function StudentOf(students: seq<Student>, u: UserId): (r: Option<StudentId>)
    ensures r.Some? ==> r.value < |students| && students[r.value].user == Some(u)
    ensures r.None? <==> !HasStudentProfile(students, u)
    ensures UniqueStudentLinks(students) ==>
      forall s :: 0 <= s < |students| && students[s].user == Some(u) ==> r == Some(s)
  {
    FirstIndex(students, (st: Student) => st.user == Some(u))
  }

  /** `user.getTeacher()`: the Teacher profile linked to account `u`. */
  function TeacherOf(teachers: seq<Teacher>, u: UserId): (r: Option<TeacherId>)
    ensures r.Some? ==> r.value < |teachers| && teachers[r.value].user == Some(u)
    ensures r.None? <==> !HasTeacherProfile(teachers, u)
    ensures UniqueTeacherLinks(teachers) ==>
      forall t :: 0 <= t < |teachers| && teachers[t].user == Some(u) ==> r == Some(t)
  {
    FirstIndex(teachers, (te: Teacher) => te.user == Some(u))
  }

  /** A STUDENT account has a Student profile, a TEACHER account a Teacher
      profile, and an ADMIN account neither. No column constraint enforces
      this: registration and seeding establish it, every operation of the
      model keeps it, but deleting a profile row through the CRUD pages breaks
      it, so no operation requires it. */
  predicate ProfilesMatchRoles(db: Db) {
    forall u :: 0 <= u < |db.users| ==>
      && (db.users[u].role == STUDENT <==> HasStudentProfile(db.students, u))
      && (db.users[u].role == TEACHER <==> HasTeacherProfile(db.teachers, u))
  }

  /** The store's unique columns and account links, plus two token-column
      invariants (paired and unique tokens) that every writer of those
      columns keeps. */
  predicate Valid(db: Db) {
    && UniqueUsernames(db.users)
    && UniqueEmails(db.users)
    && TokensPaired(db.users)
    && UniqueTokens(db.users)
    && UniqueRolls(db.students)
    && UniqueTeacherEmails(db.teachers)
    && UniqueCourses(db.courses)
    && LinksValid(db)
  }

  /** A freshly generated token is held by no account. */
  predicate TokenFresh(users: seq<User>, token: string) {
    forall i :: 0 <= i < |users| ==> users[i].resetToken != Some(token)
  }

  /** An account holds exactly one profile unless it is an administrator. */
  lemma OneProfilePerAccount(db: Db, u: UserId)
    requires Valid(db) && ProfilesMatchRoles(db) && u < |db.users|
    ensures db.users[u].role == ADMIN <==>
              !HasStudentProfile(db.students, u) && !HasTeacherProfile(db.teachers, u)
    ensures !(HasStudentProfile(db.students, u) && HasTeacherProfile(db.teachers, u))
  {
  }
}
