# Student management: accounts, reset tokens, enrollment and profiles

This project models the decision logic of a Spring web application for student management. The model works over an abstract record store (`Entities.Db`) that has four tables:

- accounts (`User`);
- Student profiles;
- Teacher profiles;
- the course catalogue.

The model covers five pieces:

- **Account service** (`UserService`): find-by and exists-by lookups; registration of a student or a teacher, which saves an account and its profile in one transaction; and the password-reset token life cycle: issue, validate, consume.
- **Enrollment controller** (`CourseEnrollment`): the caller's enrolled courses, the catalogue minus those courses (in catalogue order), and enroll or unenroll by course id.
- **Auth controller** (`AuthController`): the ordered validation chain of sign-up, and the forgot, show-reset and submit-reset handlers.
- **Profile controller** (`ProfileController`): the user-type selection of the profile pages, and the null-means-keep partial update of the caller's profile.
- **Data initializer** (`DataInitializer`): the create-admin-if-absent seed.

Each operation is a transition function from a store to a new store and an outcome value. The outcome value stands for the view, redirect and flash message. Every operation requires and keeps `Entities.Valid`. It holds the store's unique columns and links:

- the unique columns: username, account email, student roll, teacher email, course id and code, and the one-to-one account links;
- account links that point at existing accounts.

It also holds two token-column invariants that every writer of those columns keeps. No column enforces them, but only the reset-token operations write those columns: they set token and expiry together and clear them together, and a freshly generated token is held by no account.

- the pairing of the token and its expiry: both null or both set;
- no two accounts hold the same reset token.

Violating a unique column makes the save throw. The surrounding transaction then rolls back.

A second rule, `Entities.ProfilesMatchRoles`, says that a STUDENT account has exactly one Student profile, a TEACHER account exactly one Teacher profile, and an ADMIN account neither. No column enforces it. The student and teacher delete pages remove a profile row and leave its account in place (src/main/java/com/example/webapp/controller/StudentController.java:61-65, src/main/java/com/example/webapp/controller/TeacherController.java:59-63). So no operation requires the rule; each is proved to keep it whenever it held before.

`Store.Repository` is the same store as mutable state. Its fields are the four tables. Its methods do the source's find, set-fields-in-place and save steps, and each is proved to leave the store exactly as the corresponding transition function says.

Modelling choices:

- The current time is an integer `now` in seconds. One hour is `UserService.ONE_HOUR` = 3600 seconds, and "expiry is after now" is the strict `now < expiry`.
- The freshly generated UUID is a parameter. The `TokenFresh` precondition says that no account holds it yet.
- The encoded password is a symbolic term `Encoded(salt, plaintext)`, checked only through `Matches`. The salt is a parameter, so encodings of one password with different salts are different values.
- The authenticated caller is a username parameter.
- Accounts, students and teachers are identified by their position in their table. None of the modelled operations deletes a row.
- Courses carry their own id and are compared by id. `Course` defines no equality, and within one persistence context one id is one object.

## Model

| member | source | states |
|---|---|---|
| Entities.FirstIndex | src/main/java/com/example/webapp/service/UserService.java:32-38 | the repository's find-by-field query: the result is the first position that satisfies the field test, and there is none exactly when no row does |
| Entities.Encode | src/main/java/com/example/webapp/service/UserService.java:53 | the stored hash verifies the given plaintext and no other plaintext |
| Entities.StudentOf | src/main/java/com/example/webapp/controller/CourseEnrollmentController.java:36 | `user.getStudent()`: a found profile is linked to the account; there is none exactly when no Student profile is linked; under one-to-one links it is the only linked row |
| Entities.TeacherOf | src/main/java/com/example/webapp/controller/ProfileController.java:45 | `user.getTeacher()`: the same three facts for Teacher profiles |
| Entities.OneProfilePerAccount | src/main/java/com/example/webapp/service/UserService.java:49-90 | in a valid store where profiles match roles, an account is ADMIN exactly when it has no profile, and no account has both kinds |
| UserService.FindByUsername | src/main/java/com/example/webapp/service/UserService.java:32-34 | the found account has the username; there is none exactly when no account has it; with unique usernames the found account is the only one with it |
| UserService.FindByEmail | src/main/java/com/example/webapp/service/UserService.java:36-38 | the same three facts for the email |
| UserService.ExistsByUsername | src/main/java/com/example/webapp/service/UserService.java:40-42 | true exactly when some account has the username |
| UserService.ExistsByEmail | src/main/java/com/example/webapp/service/UserService.java:44-46 | true exactly when some account has the email |
| UserService.FindByResetToken | src/main/java/com/example/webapp/service/UserService.java:106 | the found account holds the token; there is none exactly when the token is fresh; with unique tokens the found account is the only holder |
| UserService.FindByRoll | src/main/java/com/example/webapp/service/UserService.java:65 | the Student row with the roll, or none exactly when no row has it; this is the unique-roll check of the profile save |
| UserService.FindTeacherByEmail | src/main/java/com/example/webapp/service/UserService.java:87 | the Teacher row with the email, or none exactly when no row has it; this is the unique teacher-email check |
| UserService.NewAccount | src/main/java/com/example/webapp/service/UserService.java:50-55 | the new account carries the username, email and role, is enabled, holds the encoding of the password (which verifies it), and has no reset token |
| UserService.RegisterStudent | src/main/java/com/example/webapp/service/UserService.java:49-68 | the store stays valid; registration fails exactly on a taken username, email or roll, and then nothing is written; on success exactly one STUDENT account is appended and exactly one Student profile with the given name and roll, the account's email and a link to the new account; no other table changes, and the account has no Teacher profile |
| UserService.RegisterTeacher | src/main/java/com/example/webapp/service/UserService.java:70-90 | the store stays valid; registration fails exactly on a taken username, account email or teacher email, and then nothing is written; on success exactly one TEACHER account is appended and exactly one Teacher profile with the name, the account's email and the phone, linked to it |
| UserService.RegisterStudentKeepsValid | src/main/java/com/example/webapp/service/UserService.java:57-65 | appending a fresh account and its linked Student profile keeps every store constraint |
| UserService.RegisterTeacherKeepsValid | src/main/java/com/example/webapp/service/UserService.java:79-87 | appending a fresh account and its linked Teacher profile keeps every store constraint |
| UserService.AccountUpdateKeepsValid | src/main/java/com/example/webapp/service/UserService.java:97-99 | rewriting one account's token columns or password keeps the store valid, as long as the token and expiry stay paired and the token is held by no other account |
| UserService.GenerateResetToken | src/main/java/com/example/webapp/service/UserService.java:92-103 | no token exactly when no account has the email, and then nothing changes; otherwise the returned token is the stored one, and only that account changes: it gets the token and an expiry one hour after `now`, replacing any earlier pair |
| UserService.ValidateResetToken | src/main/java/com/example/webapp/service/UserService.java:105-112 | true exactly when some account holds the token and its expiry is strictly after `now`; reads only |
| UserService.ResetPassword | src/main/java/com/example/webapp/service/UserService.java:114-128 | true exactly when the token validates; on false nothing changes, so an expired token stays in place; on true the holder's password becomes the encoding of the new one and its token and expiry are cleared, and nothing else changes |
| UserService.TokenIsSingleUse | src/main/java/com/example/webapp/service/UserService.java:116-127 | after a successful reset the token validates at no time, and a second reset with it returns false and changes nothing |
| UserService.IssuedTokenLivesOneHour | src/main/java/com/example/webapp/service/UserService.java:96-109 | a token issued at `now` validates at `later` exactly when `later < now + ONE_HOUR` |
| UserService.ReissueRevokesEarlierToken | src/main/java/com/example/webapp/service/UserService.java:97-98 | issuing a second token for the same email makes the first one stop validating |
| UserService.ResetCycle | src/main/java/com/example/webapp/service/UserService.java:92-128 | issue followed by a reset within the hour succeeds; the new password verifies and a different old one does not; the token is gone; only that account's password and token columns differ from the original store |
| CourseEnrollment.CallerStudent | src/main/java/com/example/webapp/controller/CourseEnrollmentController.java:33-40 | the caller's Student profile exists exactly when some account with the caller's name has a Student profile, and the found profile belongs to that account |
| CourseEnrollment.FindCourse | src/main/java/com/example/webapp/controller/CourseEnrollmentController.java:79 | the found course is in the catalogue and has the id; there is none exactly when no course has it |
| CourseEnrollment.Available | src/main/java/com/example/webapp/controller/CourseEnrollmentController.java:59-61 | a course is in the result exactly when it is in the catalogue and not enrolled; the result is a subsequence of the catalogue, so catalogue order is kept |
| CourseEnrollment.ViewMyCourses | src/main/java/com/example/webapp/controller/CourseEnrollmentController.java:31-44 | redirect home exactly when the caller has no Student profile; otherwise the caller's enrolled set |
| CourseEnrollment.ViewAvailableCourses | src/main/java/com/example/webapp/controller/CourseEnrollmentController.java:46-66 | redirect home exactly when the caller has no Student profile; otherwise exactly the catalogue courses the caller is not enrolled in, in catalogue order |
| CourseEnrollment.Enroll | src/main/java/com/example/webapp/controller/CourseEnrollmentController.java:68-98 | the store stays valid; no Student profile gives a redirect home, and an unknown course gives "not found", both with no change; an enrolled course gives "already enrolled" with no change; otherwise only the caller's enrolled set changes, it gains exactly that course, its size grows by one, and the report carries the course name |
| CourseEnrollment.Unenroll | src/main/java/com/example/webapp/controller/CourseEnrollmentController.java:100-128 | the same guards; a non-enrolled course changes nothing and reports no success; an enrolled course is removed, the set shrinks by one, and nothing else changes |
| CourseEnrollment.EnrollmentChangeKeepsValid | src/main/java/com/example/webapp/controller/CourseEnrollmentController.java:87-88 | replacing one student's enrolled set keeps the store valid, and every caller still resolves to the same Student profile |
| CourseEnrollment.EnrollIsIdempotent | src/main/java/com/example/webapp/controller/CourseEnrollmentController.java:86-92 | a second enroll of the same course changes nothing; after a success it reports "already enrolled", and otherwise it repeats the first refusal |
| CourseEnrollment.EnrollThenUnenrollRestores | src/main/java/com/example/webapp/controller/CourseEnrollmentController.java:86-88 | a successful enroll followed by an unenroll of the same course restores the store exactly |
| CourseEnrollment.EnrollRemovesFromAvailable | src/main/java/com/example/webapp/controller/CourseEnrollmentController.java:56-61 | after a successful enroll, the available list is the old one without exactly that course |
| AuthController.RegisterUser | src/main/java/com/example/webapp/controller/AuthController.java:39-90 | the first failing check decides the error (mismatch, then username, then email, then the role's required fields, then an unknown role matched case-sensitively), and every error leaves the store unchanged; success is reported exactly when the service registration succeeds, and the store is the service's result |
| AuthController.SignupEffects | src/main/java/com/example/webapp/controller/AuthController.java:66-89 | a successful sign-up appends exactly one enabled account with the form's username, email and encoded password, the form's role (never ADMIN) and its profile; a "registration failed" report means a roll or teacher email already on file |
| AuthController.ProcessForgotPassword | src/main/java/com/example/webapp/controller/AuthController.java:97-115 | "no account found" is reported exactly when no account has the email, and then nothing changes; otherwise the report carries the generated token |
| AuthController.ShowResetPasswordForm | src/main/java/com/example/webapp/controller/AuthController.java:117-126 | the form is shown, carrying the token, exactly when some account holds the token and it is live |
| AuthController.ProcessResetPassword | src/main/java/com/example/webapp/controller/AuthController.java:128-147 | a mismatch goes back to the form without calling the service; otherwise success is reported exactly when the service reset succeeds |
| AuthController.RecoveryFlow | src/main/java/com/example/webapp/controller/AuthController.java:97-147 | forgot, then show-form, then submit within the hour: the token is issued, the form is shown, the reset succeeds, the new password verifies, and a resubmission with the same token fails and changes nothing |
| ProfileController.ViewProfile | src/main/java/com/example/webapp/controller/ProfileController.java:32-74 | an empty page exactly when the caller has no account; otherwise the caller's account, and a Student profile wins over a Teacher profile, with no user type when there is neither |
| ProfileController.MergeStudent | src/main/java/com/example/webapp/controller/ProfileController.java:90-95 | name, email, current semester and academic year are overwritten exactly when given; phone is ignored; roll, account link and enrolled courses are kept |
| ProfileController.MergeTeacher | src/main/java/com/example/webapp/controller/ProfileController.java:97-101 | name, email and phone are overwritten exactly when given; semester and year are ignored; the account link is kept |
| ProfileController.MergeStudentIsIdempotent | src/main/java/com/example/webapp/controller/ProfileController.java:92-95 | merging the same parameters twice equals merging them once |
| ProfileController.MergeTeacherIsIdempotent | src/main/java/com/example/webapp/controller/ProfileController.java:99-101 | merging the same parameters twice equals merging them once |
| ProfileController.UpdateProfile | src/main/java/com/example/webapp/controller/ProfileController.java:76-111 | the store stays valid; accounts and courses never change; "user not found" exactly when the caller has no account, with no change; a Student profile takes precedence and only that row is merged; otherwise only the Teacher row is merged, unless the merged email clashes with another teacher, when the save fails and nothing changes; an account with no profile gets a success report with no change |
| ProfileController.StudentRowUpdateKeepsValid | src/main/java/com/example/webapp/controller/ProfileController.java:96 | saving a Student row with the same roll and account link keeps the store valid and every account's Student profile the same |
| ProfileController.TeacherRowUpdateKeepsValid | src/main/java/com/example/webapp/controller/ProfileController.java:102 | saving a Teacher row with the same account link and an unclashing email keeps the store valid and every account's Teacher profile the same |
| ProfileController.UpdateProfileIsIdempotent | src/main/java/com/example/webapp/controller/ProfileController.java:86-105 | applying the same update twice equals applying it once, in both store and report |
| DataInitializer.AdminAccount | src/main/java/com/example/webapp/config/DataInitializer.java:24-29 | the seeded account is "admin" with "admin@example.com", role ADMIN, enabled, no token, and a password that verifies "admin123" |
| DataInitializer.Run | src/main/java/com/example/webapp/config/DataInitializer.java:20-36 | an existing "admin" leaves the store unchanged; otherwise exactly the admin account is appended and it has no profile; if its email is already used, the save fails and nothing is written |
| DataInitializer.AdminInsertKeepsValid | src/main/java/com/example/webapp/config/DataInitializer.java:30 | appending the admin account keeps the store valid and gives it no profile |
| DataInitializer.RunIsIdempotent | src/main/java/com/example/webapp/config/DataInitializer.java:23-30 | a second run changes nothing; once a run has not failed, exactly one account is named "admin" |
| Store.Repository.constructor | src/main/java/com/example/webapp/service/UserService.java:20-30 | the repository starts from a valid store |
| Store.Repository.RegisterStudent | src/main/java/com/example/webapp/service/UserService.java:49-68 | the save-account-then-profile steps, with rollback, give exactly `UserService.RegisterStudent`'s store and result |
| Store.Repository.RegisterTeacher | src/main/java/com/example/webapp/service/UserService.java:70-90 | the same, against `UserService.RegisterTeacher` |
| Store.Repository.GenerateResetToken | src/main/java/com/example/webapp/service/UserService.java:92-103 | the in-place token and expiry setters give exactly `UserService.GenerateResetToken`'s store and token |
| Store.Repository.ResetPassword | src/main/java/com/example/webapp/service/UserService.java:114-128 | the in-place password and token setters give exactly `UserService.ResetPassword`'s store and result |
| Store.Repository.EnrollInCourse | src/main/java/com/example/webapp/controller/CourseEnrollmentController.java:68-98 | the in-place `add` and save give exactly `CourseEnrollment.Enroll`'s store and outcome |
| Store.Repository.UnenrollFromCourse | src/main/java/com/example/webapp/controller/CourseEnrollmentController.java:100-128 | the in-place `remove` and save give exactly `CourseEnrollment.Unenroll`'s store and outcome |
| Store.Repository.UpdateProfile | src/main/java/com/example/webapp/controller/ProfileController.java:76-111 | the conditional setters and save give exactly `ProfileController.UpdateProfile`'s store and outcome |
| Store.Repository.SeedAdmin | src/main/java/com/example/webapp/config/DataInitializer.java:20-36 | the check-then-insert gives exactly `DataInitializer.Run`'s store and outcome |

## Left out

- Transactions, concurrency and races on one token: every operation is one atomic step. A failed transactional registration is modelled as writing nothing.
- The `try`/`catch` around enroll and unenroll ("Failed to enroll/unenroll"): the only saves there change a join table, which has no constraint in the model, so no exception path is modelled.
- View names, `Model` attributes, flash messages and message text: each is reduced to an outcome value.
- The login, index, sign-up form, forgot-password form, home and access-denied handlers of the auth controller: they only return a view name.
- `editProfile`: it selects the user type exactly as `viewProfile` does, so `ProfileController.ViewProfile` stands for both.
- The CRUD controllers, the pass-through course, teacher and department services, and the department entity and its links.
- The security configuration and route-to-role checks; the login itself is not modelled.
- BCrypt itself: the encoder is the symbolic `Encode`/`Matches` pair, and its randomness is the `salt` parameter.
- Entities.Encode: passwords longer than 72 bytes are not modelled. The encoder is `BCryptPasswordEncoder` (src/main/java/com/example/webapp/config/SecurityConfig.java:24-27), and BCrypt reads at most 72 bytes of a password. Depending on the Spring Security version, `encode` either ignores the rest, so two passwords with the same first 72 bytes verify each other, or it throws. `Encode`'s promise that no other plaintext matches holds only below that length, and so does the `!Matches(oldPassword, ...)` part of `UserService.ResetCycle`. The throwing encoder would make sign-up report a registration failure and the reset submission fail with an uncaught exception; the model reports success in both cases.
- `UUID.randomUUID()` and `LocalDateTime.now()`: these are the `freshToken` and `now` parameters. Calendar time is counted in whole seconds.
- UserService.IssuedTokenLivesOneHour: `now` is a reading of the local wall clock with no time zone (src/main/java/com/example/webapp/service/UserService.java:98, :109). The lemma's hour is one wall-clock hour. When a daylight-saving change falls inside that hour, the token's lifetime in elapsed time is 0 or 2 hours, and the model does not capture this.
- The authenticated user from the security context: this is the `caller` parameter.
- Console output of the data initializer.
- User.java, Student.java, Role.java and the user repository are not part of this model. Their fields and unique columns (username, account email, roll) are inferred from their use in the service, the controllers and the tests.
- Deleting rows: the model has no delete operation. A store in which a profile row has been deleted through the delete pages is still a valid input: the account simply has no profile, and `Entities.ProfilesMatchRoles` does not hold.
- Course fields other than id, name and code (description, credits, department, creator, enrolled students): no core operation reads them.

## Behaviour of note

- `updateProfile` has no try/catch (src/main/java/com/example/webapp/controller/ProfileController.java:97-102), and `Teacher.email` is unique (src/main/java/com/example/webapp/entity/Teacher.java:17). So a teacher update to another teacher's email throws and saves nothing. `ProfileController.UpdateProfile` reports `SaveFailed` in that case; for every other existing account it reports `ProfileUpdated`.
- `registerUser` checks the username and email (src/main/java/com/example/webapp/controller/AuthController.java:56-64) before it calls the service. So the service call can only throw on a roll or teacher email already on file, which `AuthController.SignupEffects` states.
- `run` checks only the username (src/main/java/com/example/webapp/config/DataInitializer.java:23). If another account already uses "admin@example.com", the save throws and nothing is written. `DataInitializer.Run` reports `SeedFailed` in that case.
