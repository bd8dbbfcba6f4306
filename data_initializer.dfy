/** Startup seeding of the administrator account
    (config/DataInitializer.java). */
module DataInitializer {
  import opened Wrappers
  import opened Entities
  import UserService

  const ADMIN_USERNAME: string := "admin"
  const ADMIN_EMAIL: string := "admin@example.com"
  const ADMIN_PASSWORD: string := "admin123"

  /** `SeedFailed`: another account already uses the administrator's email,
      so the save throws and start-up aborts with nothing written. */
  datatype SeedOutcome = AdminAlreadyPresent | AdminCreated | SeedFailed

  /** The administrator account the seed builds with setters. */
  function AdminAccount(salt: nat): (a: User)
    ensures a.username == ADMIN_USERNAME && a.email == ADMIN_EMAIL
    ensures a.role == ADMIN && a.enabled
    ensures Matches(ADMIN_PASSWORD, a.password)
    ensures a.resetToken.None? && a.resetTokenExpiry.None?
  {
    User(ADMIN_USERNAME, ADMIN_EMAIL, Encode(ADMIN_PASSWORD, salt), ADMIN, true, None, None)
  }

  /** `run`: creates the administrator unless an account named "admin"
      exists. The administrator gets no Student or Teacher profile. */
  function Run(db: Db, salt: nat): (res: (Db, SeedOutcome))
    requires Valid(db)
    ensures Valid(res.0)
    ensures ProfilesMatchRoles(db) ==> ProfilesMatchRoles(res.0)
    ensures UserService.ExistsByUsername(db.users, ADMIN_USERNAME) ==> res == (db, AdminAlreadyPresent)
    ensures !UserService.ExistsByUsername(db.users, ADMIN_USERNAME) && UserService.ExistsByEmail(db.users, ADMIN_EMAIL) ==>
      res == (db, SeedFailed)
    ensures !UserService.ExistsByUsername(db.users, ADMIN_USERNAME) && !UserService.ExistsByEmail(db.users, ADMIN_EMAIL) ==>
      && res.1 == AdminCreated
      && res.0 == db.(users := db.users + [AdminAccount(salt)])
      && !HasStudentProfile(res.0.students, |db.users|)
      && !HasTeacherProfile(res.0.teachers, |db.users|)
  {
    if UserService.ExistsByUsername(db.users, ADMIN_USERNAME) then (db, AdminAlreadyPresent)
    else if UserService.ExistsByEmail(db.users, ADMIN_EMAIL) then (db, SeedFailed)
    else
      var db' := db.(users := db.users + [AdminAccount(salt)]);
      AdminInsertKeepsValid(db, salt);
      (db', AdminCreated)
  }

  lemma AdminInsertKeepsValid(db: Db, salt: nat)
    requires Valid(db)
    requires !UserService.ExistsByUsername(db.users, ADMIN_USERNAME)
    requires !UserService.ExistsByEmail(db.users, ADMIN_EMAIL)
    ensures var db' := db.(users := db.users + [AdminAccount(salt)]);
      && Valid(db')
      && (ProfilesMatchRoles(db) ==> ProfilesMatchRoles(db'))
      && !HasStudentProfile(db'.students, |db.users|)
      && !HasTeacherProfile(db'.teachers, |db.users|)
  {
    var db' := db.(users := db.users + [AdminAccount(salt)]);
    if ProfilesMatchRoles(db) {
      forall u | 0 <= u < |db'.users|
        ensures db'.users[u].role == STUDENT <==> HasStudentProfile(db'.students, u)
        ensures db'.users[u].role == TEACHER <==> HasTeacherProfile(db'.teachers, u)
      {
        if u < |db.users| {
          assert db'.users[u] == db.users[u];
        }
      }
    }
  }

  /** Running the seed again changes nothing, and once it has not failed
      exactly one account is named "admin". */
  lemma {:induction false} RunIsIdempotent(db: Db, salt: nat, salt2: nat)
    requires Valid(db)
    ensures var (db1, o1) := Run(db, salt);
      var (db2, o2) := Run(db1, salt2);
      && db2 == db1
      && (o1 != SeedFailed ==>
            && o2 == AdminAlreadyPresent
            && exists i :: 0 <= i < |db1.users| && db1.users[i].username == ADMIN_USERNAME &&
                 forall j :: 0 <= j < |db1.users| && db1.users[j].username == ADMIN_USERNAME ==> j == i)
      && (o1 == SeedFailed ==> o2 == SeedFailed)
  {
    var (db1, o1) := Run(db, salt);
    if o1 == AdminCreated {
      assert db1.users[|db.users|].username == ADMIN_USERNAME;
    }
    if o1 != SeedFailed {
      var i := UserService.FindByUsername(db1.users, ADMIN_USERNAME).value;
      assert forall j :: 0 <= j < |db1.users| && db1.users[j].username == ADMIN_USERNAME ==> j == i;
    }
  }
}
