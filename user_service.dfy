/** Account lookups, registration and the password-reset token life cycle
    (service/UserService.java), as transitions of the record store. The
    current time and the freshly generated token are parameters. */
module UserService {
  import opened Wrappers
  import opened Entities

  /** `plusHours(1)`, with time counted in seconds. */
  const ONE_HOUR: int := 3600

  // ---------------------------------------------------------------------
  // Lookups
  // ---------------------------------------------------------------------

  function FindByUsername(users: seq<User>, username: string): (r: Option<UserId>)
    ensures r.Some? ==> r.value < |users| && users[r.value].username == username
    ensures r.None? <==> forall i :: 0 <= i < |users| ==> users[i].username != username
    ensures UniqueUsernames(users) ==>
      forall i :: 0 <= i < |users| && users[i].username == username ==> r == Some(i)
  {
    FirstIndex(users, (u: User) => u.username == username)
  }

  function FindByEmail(users: seq<User>, email: string): (r: Option<UserId>)
    ensures r.Some? ==> r.value < |users| && users[r.value].email == email
    ensures r.None? <==> forall i :: 0 <= i < |users| ==> users[i].email != email
    ensures UniqueEmails(users) ==>
      forall i :: 0 <= i < |users| && users[i].email == email ==> r == Some(i)
  {
    FirstIndex(users, (u: User) => u.email == email)
  }

  function ExistsByUsername(users: seq<User>, username: string): (b: bool)
    ensures b <==> exists i :: 0 <= i < |users| && users[i].username == username
  {
    FindByUsername(users, username).Some?
  }

  function ExistsByEmail(users: seq<User>, email: string): (b: bool)
    ensures b <==> exists i :: 0 <= i < |users| && users[i].email == email
  {
    FindByEmail(users, email).Some?
  }

  /** The repository's `findByResetToken`. */
  function FindByResetToken(users: seq<User>, token: string): (r: Option<UserId>)
    ensures r.Some? ==> r.value < |users| && users[r.value].resetToken == Some(token)
    ensures r.None? <==> TokenFresh(users, token)
    ensures UniqueTokens(users) ==>
      forall i :: 0 <= i < |users| && users[i].resetToken == Some(token) ==> r == Some(i)
  {
    FirstIndex(users, (u: User) => u.resetToken == Some(token))
  }

  /** The profile repository's unique-roll lookup. */
  function FindByRoll(students: seq<Student>, roll: string): (r: Option<StudentId>)
    ensures r.Some? ==> r.value < |students| && students[r.value].roll == roll
    ensures r.None? <==> forall s :: 0 <= s < |students| ==> students[s].roll != roll
  {
    FirstIndex(students, (st: Student) => st.roll == roll)
  }

  function FindTeacherByEmail(teachers: seq<Teacher>, email: string): (r: Option<TeacherId>)
    ensures r.Some? ==> r.value < |teachers| && teachers[r.value].email == email
    ensures r.None? <==> forall t :: 0 <= t < |teachers| ==> teachers[t].email != email
  {
    FirstIndex(teachers, (te: Teacher) => te.email == email)
  }

  // ---------------------------------------------------------------------
  // Registration
  // ---------------------------------------------------------------------

  /** The account `registerX` builds: role fixed, enabled, encoded password,
      no reset token. */
  function NewAccount(username: string, email: string, password: string, role: Role, salt: nat): (u: User)
    ensures u.username == username && u.email == email && u.role == role && u.enabled
    ensures Matches(password, u.password)
    ensures u.resetToken.None? && u.resetTokenExpiry.None?
  {
    User(username, email, Encode(password, salt), role, true, None, None)
  }

  /** `db'` is `db` with exactly one account appended at position `id`. */
  predicate AccountAppended(db: Db, db': Db, id: UserId, u: User) {
    id == |db.users| && db'.users == db.users + [u]
  }

  /** Saves the account and then its Student profile in one transaction. The
      store refuses a duplicate username, email or roll; the transaction then
      rolls back and nothing is written. */
  function RegisterStudent(db: Db, username: string, email: string, password: string,
                           name: string, roll: string, salt: nat): (res: (Db, Result<UserId, StoreError>))
    requires Valid(db)
    ensures Valid(res.0)
    ensures ProfilesMatchRoles(db) ==> ProfilesMatchRoles(res.0)
    ensures res.1.Failure? <==>
      ExistsByUsername(db.users, username) || ExistsByEmail(db.users, email) ||
      FindByRoll(db.students, roll).Some?
    ensures res.1.Failure? ==> res.0 == db
    ensures res.1.Success? ==>
      && AccountAppended(db, res.0, res.1.value, NewAccount(username, email, password, STUDENT, salt))
      && res.0.students == db.students + [Student(name, roll, email, None, None, Some(res.1.value), {})]
      && res.0.teachers == db.teachers && res.0.courses == db.courses
      && StudentOf(res.0.students, res.1.value) == Some(|db.students|)
      && !HasTeacherProfile(res.0.teachers, res.1.value)
  {
    if ExistsByUsername(db.users, username) || ExistsByEmail(db.users, email) then
      (db, Failure(DuplicateIdentifier))
    else
      var id := |db.users|;
      var user := NewAccount(username, email, password, STUDENT, salt);
      if FindByRoll(db.students, roll).Some? then
        (db, Failure(DuplicateIdentifier))
      else
        var student := Student(name, roll, email, None, None, Some(id), {});
        var db' := Db(db.users + [user], db.students + [student], db.teachers, db.courses);
        RegisterStudentKeepsValid(db, db', user, student);
        (db', Success(id))
  }

  /** Saves the account and then its Teacher profile in one transaction. The
      store refuses a duplicate username or account email, or a teacher email
      already used by another Teacher row. */
  function RegisterTeacher(db: Db, username: string, email: string, password: string,
                           name: string, phone: Option<string>, salt: nat): (res: (Db, Result<UserId, StoreError>))
    requires Valid(db)
    ensures Valid(res.0)
    ensures ProfilesMatchRoles(db) ==> ProfilesMatchRoles(res.0)
    ensures res.1.Failure? <==>
      ExistsByUsername(db.users, username) || ExistsByEmail(db.users, email) ||
      FindTeacherByEmail(db.teachers, email).Some?
    ensures res.1.Failure? ==> res.0 == db
    ensures res.1.Success? ==>
      && AccountAppended(db, res.0, res.1.value, NewAccount(username, email, password, TEACHER, salt))
      && res.0.teachers == db.teachers + [Teacher(name, email, phone, Some(res.1.value))]
      && res.0.students == db.students && res.0.courses == db.courses
      && TeacherOf(res.0.teachers, res.1.value) == Some(|db.teachers|)
      && !HasStudentProfile(res.0.students, res.1.value)
  {
    if ExistsByUsername(db.users, username) || ExistsByEmail(db.users, email) then
      (db, Failure(DuplicateIdentifier))
    else
      var id := |db.users|;
      var user := NewAccount(username, email, password, TEACHER, salt);
      if FindTeacherByEmail(db.teachers, email).Some? then
        (db, Failure(DuplicateIdentifier))
      else
        var teacher := Teacher(name, email, phone, Some(id));
        var db' := Db(db.users + [user], db.students, db.teachers + [teacher], db.courses);
        RegisterTeacherKeepsValid(db, db', user, teacher);
        (db', Success(id))
  }

  lemma RegisterStudentKeepsValid(db: Db, db': Db, user: User, student: Student)
    requires Valid(db)
    requires user.role == STUDENT && user.resetToken.None? && user.resetTokenExpiry.None?
    requires forall i :: 0 <= i < |db.users| ==> db.users[i].username != user.username
    requires forall i :: 0 <= i < |db.users| ==> db.users[i].email != user.email
    requires forall s :: 0 <= s < |db.students| ==> db.students[s].roll != student.roll
    requires student.user == Some(|db.users|)
    requires db' == Db(db.users + [user], db.students + [student], db.teachers, db.courses)
    ensures Valid(db')
    ensures ProfilesMatchRoles(db) ==> ProfilesMatchRoles(db')
  {
    var id := |db.users|;
    if ProfilesMatchRoles(db) {
      forall u | 0 <= u < |db'.users|
        ensures db'.users[u].role == STUDENT <==> HasStudentProfile(db'.students, u)
        ensures db'.users[u].role == TEACHER <==> HasTeacherProfile(db'.teachers, u)
      {
        if u == id {
          assert db'.students[|db.students|].user == Some(u);
          assert !HasTeacherProfile(db.teachers, u);
        } else {
          assert db'.users[u] == db.users[u];
          if HasStudentProfile(db'.students, u) {
            var s :| 0 <= s < |db'.students| && db'.students[s].user == Some(u);
            assert s < |db.students| && db.students[s].user == Some(u);
          }
          if HasStudentProfile(db.students, u) {
            var s :| 0 <= s < |db.students| && db.students[s].user == Some(u);
            assert db'.students[s].user == Some(u);
          }
        }
      }
    }
  }

  lemma RegisterTeacherKeepsValid(db: Db, db': Db, user: User, teacher: Teacher)
    requires Valid(db)
    requires user.role == TEACHER && user.resetToken.None? && user.resetTokenExpiry.None?
    requires forall i :: 0 <= i < |db.users| ==> db.users[i].username != user.username
    requires forall i :: 0 <= i < |db.users| ==> db.users[i].email != user.email
    requires forall t :: 0 <= t < |db.teachers| ==> db.teachers[t].email != teacher.email
    requires teacher.user == Some(|db.users|)
    requires db' == Db(db.users + [user], db.students, db.teachers + [teacher], db.courses)
    ensures Valid(db')
    ensures ProfilesMatchRoles(db) ==> ProfilesMatchRoles(db')
  {
    var id := |db.users|;
    if ProfilesMatchRoles(db) {
      forall u | 0 <= u < |db'.users|
        ensures db'.users[u].role == STUDENT <==> HasStudentProfile(db'.students, u)
        ensures db'.users[u].role == TEACHER <==> HasTeacherProfile(db'.teachers, u)
      {
        if u == id {
          assert db'.teachers[|db.teachers|].user == Some(u);
          assert !HasStudentProfile(db.students, u);
        } else {
          assert db'.users[u] == db.users[u];
          if HasTeacherProfile(db'.teachers, u) {
            var t :| 0 <= t < |db'.teachers| && db'.teachers[t].user == Some(u);
            assert t < |db.teachers| && db.teachers[t].user == Some(u);
          }
          if HasTeacherProfile(db.teachers, u) {
            var t :| 0 <= t < |db.teachers| && db.teachers[t].user == Some(u);
            assert db'.teachers[t].user == Some(u);
          }
        }
      }
    }
  }

  // ---------------------------------------------------------------------
  // Reset tokens
  // ---------------------------------------------------------------------

  /** The account's token is still live at `now`: its expiry is strictly after
      `now` (`isAfter`). */
  predicate LiveAt(u: User, now: int) {
    u.resetTokenExpiry.Some? && now < u.resetTokenExpiry.value
  }

  /** Changing only the token columns or the password of one account keeps
      the store valid, as long as the two token columns stay paired and the
      token stays unique. */
  lemma AccountUpdateKeepsValid(db: Db, i: UserId, u: User)
    requires Valid(db) && i < |db.users|
    requires u.username == db.users[i].username && u.email == db.users[i].email
    requires u.role == db.users[i].role
    requires u.resetToken.None? <==> u.resetTokenExpiry.None?
    requires u.resetToken.Some? ==>
      forall j :: 0 <= j < |db.users| && j != i ==> db.users[j].resetToken != u.resetToken
    ensures Valid(db.(users := db.users[i := u]))
    ensures ProfilesMatchRoles(db) ==> ProfilesMatchRoles(db.(users := db.users[i := u]))
  {
    var db' := db.(users := db.users[i := u]);
    assert ProfilesMatchRoles(db) ==> ProfilesMatchRoles(db') by {
      forall v | 0 <= v < |db'.users|
        ensures db'.users[v].role == db.users[v].role
      {
      }
    }
  }

  /** Looks the account up by email; if found, stores the fresh token with an
      expiry one hour after `now`, overwriting any earlier token, and returns
      it. An unknown email returns no token and changes nothing. */
  function GenerateResetToken(db: Db, email: string, freshToken: string, now: int): (res: (Db, Option<string>))
    requires Valid(db) && TokenFresh(db.users, freshToken)
    ensures Valid(res.0)
    ensures ProfilesMatchRoles(db) ==> ProfilesMatchRoles(res.0)
    ensures res.1.None? <==> !ExistsByEmail(db.users, email)
    ensures res.1.None? ==> res.0 == db
    ensures res.1.Some? ==>
      && res.1.value == freshToken
      && var i := FindByEmail(db.users, email).value;
         res.0 == db.(users := db.users[i := db.users[i].(resetToken := Some(freshToken),
                                                           resetTokenExpiry := Some(now + ONE_HOUR))])
  {
    match FindByEmail(db.users, email)
    case None => (db, None)
    case Some(i) =>
      var user := db.users[i].(resetToken := Some(freshToken), resetTokenExpiry := Some(now + ONE_HOUR));
      AccountUpdateKeepsValid(db, i, user);
      (db.(users := db.users[i := user]), Some(freshToken))
  }

  /** True exactly when some account holds the token and the token's expiry
      is strictly after `now`. Reads only. */
  function ValidateResetToken(db: Db, token: string, now: int): (ok: bool)
    requires Valid(db)
    ensures ok <==>
      exists i :: 0 <= i < |db.users| && db.users[i].resetToken == Some(token) && LiveAt(db.users[i], now)
  {
    match FindByResetToken(db.users, token)
    case None => false
    case Some(i) => now < db.users[i].resetTokenExpiry.value
  }

  /** On a live token: the holder's password becomes the encoding of the new
      one, the token and its expiry are cleared, and the result is true. On an
      unknown or expired token: false, and nothing changes (an expired token
      stays in place). */
  function ResetPassword(db: Db, token: string, newPassword: string, salt: nat, now: int): (res: (Db, bool))
    requires Valid(db)
    ensures Valid(res.0)
    ensures ProfilesMatchRoles(db) ==> ProfilesMatchRoles(res.0)
    ensures res.1 <==> ValidateResetToken(db, token, now)
    ensures !res.1 ==> res.0 == db
    ensures res.1 ==>
      forall i :: 0 <= i < |db.users| && db.users[i].resetToken == Some(token) ==>
        res.0 == db.(users := db.users[i := db.users[i].(password := Encode(newPassword, salt),
                                                          resetToken := None, resetTokenExpiry := None)])
  {
    match FindByResetToken(db.users, token)
    case None => (db, false)
    case Some(i) =>
      if now < db.users[i].resetTokenExpiry.value then
        var user := db.users[i].(password := Encode(newPassword, salt), resetToken := None, resetTokenExpiry := None);
        AccountUpdateKeepsValid(db, i, user);
        (db.(users := db.users[i := user]), true)
      else
        (db, false)
  }

  // ---------------------------------------------------------------------
  // Properties of the token life cycle
  // ---------------------------------------------------------------------

  /** A token is single-use: once a reset with it succeeds, it no longer
      validates at any time, and a second reset with it fails and changes
      nothing. */
  lemma {:induction false} TokenIsSingleUse(db: Db, token: string, pw: string, salt: nat, now: int,
                                            pw2: string, salt2: nat, later: int)
    requires Valid(db)
    requires ResetPassword(db, token, pw, salt, now).1
    ensures var db' := ResetPassword(db, token, pw, salt, now).0;
      && !ValidateResetToken(db', token, later)
      && ResetPassword(db', token, pw2, salt2, later) == (db', false)
  {
    var db' := ResetPassword(db, token, pw, salt, now).0;
    var i := FindByResetToken(db.users, token).value;
    assert db'.users[i].resetToken.None?;
    forall j | 0 <= j < |db'.users|
      ensures db'.users[j].resetToken != Some(token)
    {
      if j != i {
        assert db'.users[j] == db.users[j];
      }
    }
  }

  /** A token just issued validates exactly until its expiry: at any `later`
      strictly before `now + ONE_HOUR`, and at no instant from then on. */
  lemma {:induction false} IssuedTokenLivesOneHour(db: Db, email: string, token: string, now: int, later: int)
    requires Valid(db) && TokenFresh(db.users, token)
    requires ExistsByEmail(db.users, email)
    ensures var (db', t) := GenerateResetToken(db, email, token, now);
      t == Some(token) && (ValidateResetToken(db', token, later) <==> later < now + ONE_HOUR)
  {
    var (db', t) := GenerateResetToken(db, email, token, now);
    var i := FindByEmail(db.users, email).value;
    assert db'.users[i].resetToken == Some(token);
    assert LiveAt(db'.users[i], later) <==> later < now + ONE_HOUR;
    if ValidateResetToken(db', token, later) {
      var j :| 0 <= j < |db'.users| && db'.users[j].resetToken == Some(token) && LiveAt(db'.users[j], later);
      assert j == i;
    }
  }

  /** Issuing a new token for an account revokes the one issued before:
      the earlier token no longer validates. */
  lemma {:induction false} ReissueRevokesEarlierToken(db: Db, email: string, t1: string, t2: string,
                                                      now1: int, now2: int, later: int)
    requires Valid(db) && TokenFresh(db.users, t1) && TokenFresh(db.users, t2) && t1 != t2
    requires ExistsByEmail(db.users, email)
    ensures var db1 := GenerateResetToken(db, email, t1, now1).0;
      && TokenFresh(db1.users, t2)
      && !ValidateResetToken(GenerateResetToken(db1, email, t2, now2).0, t1, later)
  {
    var db1 := GenerateResetToken(db, email, t1, now1).0;
    var i := FindByEmail(db.users, email).value;
    forall j | 0 <= j < |db1.users|
      ensures db1.users[j].resetToken != Some(t2)
    {
      if j != i { assert db1.users[j] == db.users[j]; }
    }
    var db2 := GenerateResetToken(db1, email, t2, now2).0;
    assert FindByEmail(db1.users, email) == Some(i);
    forall j | 0 <= j < |db2.users|
      ensures db2.users[j].resetToken != Some(t1)
    {
      if j != i { assert db2.users[j] == db.users[j]; }
    }
  }

  /** The whole reset cycle: issue a token for an account, then reset with it
      before it expires. The reset succeeds, the new password verifies, a
      different old password no longer does, the token is gone, and nothing
      but that account's password and token columns changed. */
  lemma {:induction false} ResetCycle(db: Db, email: string, token: string, now: int,
                                      newPassword: string, salt: nat, later: int, oldPassword: string)
    requires Valid(db) && TokenFresh(db.users, token)
    requires ExistsByEmail(db.users, email)
    requires later < now + ONE_HOUR
    requires oldPassword != newPassword
    ensures var db1 := GenerateResetToken(db, email, token, now).0;
      var (db2, ok) := ResetPassword(db1, token, newPassword, salt, later);
      var i := FindByEmail(db.users, email).value;
      && ok
      && Matches(newPassword, db2.users[i].password)
      && !Matches(oldPassword, db2.users[i].password)
      && db2.users[i].resetToken.None? && db2.users[i].resetTokenExpiry.None?
      && db2 == db.(users := db.users[i := db.users[i].(password := db2.users[i].password,
                                                         resetToken := None, resetTokenExpiry := None)])
  {
    var db1 := GenerateResetToken(db, email, token, now).0;
    var i := FindByEmail(db.users, email).value;
    IssuedTokenLivesOneHour(db, email, token, now, later);
    assert db1.users[i].resetToken == Some(token);
    var db2 := ResetPassword(db1, token, newPassword, salt, later).0;
    assert db2 == db1.(users := db1.users[i := db1.users[i].(password := Encode(newPassword, salt),
                                                          resetToken := None, resetTokenExpiry := None)]);
  }
}
