/** Sign-up validation and the forgot / reset password handlers
    (controller/AuthController.java). Each handler is a chain of checks that
    decides which service call happens, if any, and which outcome is
    reported; flash messages and view names are reduced to outcome values. */
module AuthController {
  import opened Wrappers
  import opened Entities
  import UserService

  /** The sign-up request parameters; the optional ones may be absent. */
  datatype SignupForm = SignupForm(
    role: string,
    username: string,
    email: string,
    password: string,
    confirmPassword: string,
    name: Option<string>,
    roll: Option<string>,
    phone: Option<string>)

  datatype SignupError =
    | PasswordsDoNotMatch
    | UsernameExists
    | EmailExists
    | NameAndRollRequired
    | NameRequired
    | InvalidRole
    | RegistrationFailed   // the service call threw

  /** Back to the sign-up page with an error, or on to the login page with
      "Registration successful!". */
  datatype RegisterOutcome = BackToSignup(error: SignupError) | RegisteredToLogin

  /** `x != null && !x.isEmpty()`. */
  predicate Present(x: Option<string>) {
    x.Some? && |x.value| > 0
  }

  /** The checks that run before any service call, in order: password
      confirmation, then username, then email. */
  predicate PassesPreChecks(db: Db, f: SignupForm) {
    f.password == f.confirmPassword &&
    !UserService.ExistsByUsername(db.users, f.username) &&
    !UserService.ExistsByEmail(db.users, f.email)
  }

  /** `registerUser`. The role string is matched case-sensitively against
      "STUDENT" and "TEACHER"; any other role, "ADMIN" included, is refused. */
  function RegisterUser(db: Db, f: SignupForm, salt: nat): (res: (Db, RegisterOutcome))
    requires Valid(db)
    ensures Valid(res.0)
    ensures ProfilesMatchRoles(db) ==> ProfilesMatchRoles(res.0)
    ensures res.1.BackToSignup? ==> res.0 == db
    // the first failing check decides the error
    ensures f.password != f.confirmPassword ==> res.1 == BackToSignup(PasswordsDoNotMatch)
    ensures f.password == f.confirmPassword && UserService.ExistsByUsername(db.users, f.username) ==>
      res.1 == BackToSignup(UsernameExists)
    ensures f.password == f.confirmPassword && !UserService.ExistsByUsername(db.users, f.username) &&
            UserService.ExistsByEmail(db.users, f.email) ==>
      res.1 == BackToSignup(EmailExists)
    ensures PassesPreChecks(db, f) && f.role == "STUDENT" && !(Present(f.name) && Present(f.roll)) ==>
      res.1 == BackToSignup(NameAndRollRequired)
    ensures PassesPreChecks(db, f) && f.role == "TEACHER" && !Present(f.name) ==>
      res.1 == BackToSignup(NameRequired)
    ensures PassesPreChecks(db, f) && f.role != "STUDENT" && f.role != "TEACHER" ==>
      res.1 == BackToSignup(InvalidRole)
    // success is reported exactly when the service call returned
    ensures PassesPreChecks(db, f) && f.role == "STUDENT" && Present(f.name) && Present(f.roll) ==>
      var (db', r) := UserService.RegisterStudent(db, f.username, f.email, f.password, f.name.value, f.roll.value, salt);
      res.0 == db' && (res.1 == RegisteredToLogin <==> r.Success?) &&
      (r.Failure? ==> res.1 == BackToSignup(RegistrationFailed))
    ensures PassesPreChecks(db, f) && f.role == "TEACHER" && Present(f.name) ==>
      var (db', r) := UserService.RegisterTeacher(db, f.username, f.email, f.password, f.name.value, f.phone, salt);
      res.0 == db' && (res.1 == RegisteredToLogin <==> r.Success?) &&
      (r.Failure? ==> res.1 == BackToSignup(RegistrationFailed))
  {
    if f.password != f.confirmPassword then (db, BackToSignup(PasswordsDoNotMatch))
    else if UserService.ExistsByUsername(db.users, f.username) then (db, BackToSignup(UsernameExists))
    else if UserService.ExistsByEmail(db.users, f.email) then (db, BackToSignup(EmailExists))
    else if f.role == "STUDENT" then
      if !Present(f.name) || !Present(f.roll) then (db, BackToSignup(NameAndRollRequired))
      else
        var (db', r) := UserService.RegisterStudent(db, f.username, f.email, f.password, f.name.value, f.roll.value, salt);
        if r.Success? then (db', RegisteredToLogin) else (db, BackToSignup(RegistrationFailed))
    else if f.role == "TEACHER" then
      if !Present(f.name) then (db, BackToSignup(NameRequired))
      else
        var (db', r) := UserService.RegisterTeacher(db, f.username, f.email, f.password, f.name.value, f.phone, salt);
        if r.Success? then (db', RegisteredToLogin) else (db, BackToSignup(RegistrationFailed))
    else
      (db, BackToSignup(InvalidRole))
  }

  /** What a successful sign-up adds: exactly one account, carrying the form's
      username and email, the role the form names (never ADMIN), enabled,
      its password the encoding of the form's, and its one profile of that
      role. And the service's own duplicate checks on username and email can
      never be what fails: a failed service call is always a profile
      constraint (a roll, or a teacher email, already on file). */
  lemma {:induction false} SignupEffects(db: Db, f: SignupForm, salt: nat)
    requires Valid(db)
    ensures var (db', o) := RegisterUser(db, f, salt);
      && (o == RegisteredToLogin ==>
            var id := |db.users|;
            && |db'.users| == id + 1 && db'.users[..id] == db.users
            && db'.users[id].username == f.username && db'.users[id].email == f.email
            && Matches(f.password, db'.users[id].password) && db'.users[id].enabled
            && (f.role == "STUDENT" ==> db'.users[id].role == STUDENT && HasStudentProfile(db'.students, id))
            && (f.role == "TEACHER" ==> db'.users[id].role == TEACHER && HasTeacherProfile(db'.teachers, id))
            && db'.users[id].role != ADMIN)
      && (o == BackToSignup(RegistrationFailed) ==>
            (f.role == "STUDENT" && UserService.FindByRoll(db.students, f.roll.value).Some?) ||
            (f.role == "TEACHER" && UserService.FindTeacherByEmail(db.teachers, f.email).Some?))
  {
    var (db', o) := RegisterUser(db, f, salt);
    if o == RegisteredToLogin {
      var id := |db.users|;
      assert PassesPreChecks(db, f);
      if f.role == "STUDENT" {
        assert db'.students[|db.students|].user == Some(id);
      } else {
        assert f.role == "TEACHER";
        assert db'.teachers[|db.teachers|].user == Some(id);
      }
    }
  }

  // ---------------------------------------------------------------------
  // Forgot and reset password
  // ---------------------------------------------------------------------

  datatype ForgotOutcome = TokenIssued(token: string) | NoAccountFound

  /** `processForgotPassword`: reports "no account" exactly when no token was
      generated; otherwise carries the generated token. */
  function ProcessForgotPassword(db: Db, email: string, freshToken: string, now: int): (res: (Db, ForgotOutcome))
    requires Valid(db) && TokenFresh(db.users, freshToken)
    ensures Valid(res.0)
    ensures ProfilesMatchRoles(db) ==> ProfilesMatchRoles(res.0)
    ensures res.0 == UserService.GenerateResetToken(db, email, freshToken, now).0
    ensures res.1 == NoAccountFound <==> !UserService.ExistsByEmail(db.users, email)
    ensures res.1 == NoAccountFound ==> res.0 == db
    ensures res.1.TokenIssued? ==> res.1.token == freshToken
  {
    var (db', token) := UserService.GenerateResetToken(db, email, freshToken, now);
    if token.Some? then (db', TokenIssued(token.value)) else (db', NoAccountFound)
  }

  datatype ResetFormView = ResetForm(token: string) | InvalidTokenToLogin

  /** `showResetPasswordForm`: the form is shown exactly when the token
      validates. Reads only. */
  function ShowResetPasswordForm(db: Db, token: string, now: int): (v: ResetFormView)
    requires Valid(db)
    ensures v.ResetForm? <==>
      exists i :: 0 <= i < |db.users| && db.users[i].resetToken == Some(token) && UserService.LiveAt(db.users[i], now)
    ensures v.ResetForm? ==> v.token == token
  {
    if UserService.ValidateResetToken(db, token, now) then ResetForm(token) else InvalidTokenToLogin
  }

  datatype ResetOutcome = MismatchBackToForm(token: string) | ResetSucceeded | ResetFailed

  /** `processResetPassword`: a confirmation mismatch goes back to the form
      without calling the service; otherwise the outcome follows the
      service's result. */
  function ProcessResetPassword(db: Db, token: string, password: string, confirmPassword: string,
                                salt: nat, now: int): (res: (Db, ResetOutcome))
    requires Valid(db)
    ensures Valid(res.0)
    ensures ProfilesMatchRoles(db) ==> ProfilesMatchRoles(res.0)
    ensures password != confirmPassword ==> res == (db, MismatchBackToForm(token))
    ensures password == confirmPassword ==>
      var (db', ok) := UserService.ResetPassword(db, token, password, salt, now);
      res.0 == db' && (res.1 == ResetSucceeded <==> ok) && (!ok ==> res.1 == ResetFailed)
  {
    if password != confirmPassword then (db, MismatchBackToForm(token))
    else
      var (db', ok) := UserService.ResetPassword(db, token, password, salt, now);
      if ok then (db', ResetSucceeded) else (db', ResetFailed)
  }

  /** The recovery flow through the handlers: ask for a token for a known
      email, open the reset form with it and submit a matching new password
      within the hour. The form is shown, the reset succeeds, the new password
      verifies, and submitting the same token again fails. */
  lemma {:induction false} RecoveryFlow(db: Db, email: string, token: string, now: int,
                                        newPassword: string, salt: nat, later: int,
                                        again: string, salt2: nat, latest: int)
    requires Valid(db) && TokenFresh(db.users, token)
    requires UserService.ExistsByEmail(db.users, email)
    requires now <= later < now + UserService.ONE_HOUR
    ensures var (db1, o1) := ProcessForgotPassword(db, email, token, now);
      && o1 == TokenIssued(token)
      && ShowResetPasswordForm(db1, token, later) == ResetForm(token)
      && var (db2, o2) := ProcessResetPassword(db1, token, newPassword, newPassword, salt, later);
         && o2 == ResetSucceeded
         && Matches(newPassword, db2.users[UserService.FindByEmail(db.users, email).value].password)
         && ProcessResetPassword(db2, token, again, again, salt2, latest) == (db2, ResetFailed)
  {
    var (db1, o1) := ProcessForgotPassword(db, email, token, now);
    UserService.IssuedTokenLivesOneHour(db, email, token, now, later);
    var i := UserService.FindByEmail(db.users, email).value;
    UserService.ResetCycle(db, email, token, now, newPassword, salt, later, newPassword + "!");
    UserService.TokenIsSingleUse(db1, token, newPassword, salt, later, again, salt2, latest);
  }
}
