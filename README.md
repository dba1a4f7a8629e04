# Whiteboard course enrollment: a Dafny model

This project models the course-enrollment core of the whiteboard backend, an
ASP.NET service where administrators add courses, students register for
them, professors list the students of the one course they are assigned, and
administrators list, export and delete accounts. The model covers four parts:

- **The store** (`schema.dfy`, `enrollment_store.dfy`). It has the two tables
  ApplicationDbContext adds to the identity schema: the course catalog
  `Courses`, keyed by `CourseId`, and the enrollment relation
  `StudentCourses`, keyed by the pair `(UserId, CourseId)`. Next to them sits
  the identity provider's user table. Each row in that table has an id, an
  email, a full name and an optional course. ASP.NET Identity keeps role
  memberships in a separate user-role table, which `GetUsersInRoleAsync` and
  `IsInRoleAsync` query; the model folds each user's roles into the user
  record as a set.
  `EnrollmentStore.Store` is a class with these three tables as fields.
  Its invariant `Valid()` is made of: unique user ids and emails; the
  composite key; and the two foreign keys of `StudentCourse`, derived by EF
  Core's conventions from the `User` and `Course` navigations.
- **The endpoints.** Every endpoint of CoursesController and UserController
  is one method or function of `Store`. Each runs its checks in the source's
  order and returns a result datatype that names the first failed check.
- **The role gate** (`access_gate.dfy`). It maps each endpoint to the one
  role named in its `[Authorize(Roles = ...)]` attribute. Its decision is
  Allow, Challenge (the caller is not signed in) or Forbid (the caller is
  signed in without the role).
- **Course validation** (`course_model.dfy`). It models the data
  annotations on `CourseModel` as the list of model-state errors that
  `AddCourse` checks before it touches the catalog.

Some behaviour follows the code where a stricter rule might be expected:

- `RegisterCourse` does not check that the caller is the student named in
  the body's email. It also does not check that the account found there
  holds the Student role. `Scenarios.ProfessorEmailIsRegistered` shows a
  professor's account being enrolled.
- The delete endpoint's not-found result is `NotFound`. Its non-student
  result is `NotAStudent`.
- A successful delete leaves no enrollment rows for the deleted user. The
  relationship from `StudentCourse.User` is required, and EF Core's default
  for a required relationship is a cascading delete. The model makes that
  cascade explicit, which keeps the foreign-key part of `Valid()` true.
- The professor listing filters on the professor's own `Course` attribute.
  There is no course-owner table. A professor whose `Course` is null gets
  an empty list.
- Lookups by email and by id compare strings exactly.

Inputs from outside the model are parameters:

- the identity provider's verdict on a deletion (`IdentityResult`);
- the signed-in caller's email for the professor listing;
- the caller's roles for the gate (`Principal`).

## Model

| member | source | states |
|---|---|---|
| `AccessGate.RequiredRole` | whiteboard_backend/Controllers/CoursesController.cs:27-90 | every UserController endpoint requires Admin; only RegisterCourse requires Student and only GetMyCourseStudents requires Professor (the attributes at lines 27, 57 and 90 here, and the Admin attributes of whiteboard_backend/Controllers/UserController.cs:11-188) |
| `AccessGate.Authorize` | whiteboard_backend/Controllers/CoursesController.cs:25-90 | a request is allowed iff the caller is signed in and holds the endpoint's role; an anonymous caller is challenged; a signed-in caller without the role is forbidden |
| `AccessGate.SingleRoleIsExclusive` | whiteboard_backend/Controllers/CoursesController.cs:27-90 | a caller with a single role reaches an endpoint only if that role is the endpoint's one role, so no two roles share an endpoint |
| `AccessGate.MoreRolesNeverDeny` | whiteboard_backend/Controllers/CoursesController.cs:27-90 | holding more roles never turns an allowed request into a denied one, for every endpoint (the attributes here and those of whiteboard_backend/Controllers/UserController.cs:11-188) |
| `CourseValidation.Validate` | whiteboard_backend/Models/CourseModel.cs:7-12 | a CourseIdRequired error iff the id is null or blank; a CourseNameRequired error iff the name is null or blank; a CourseNameLength error iff the name is present and its length is outside 3..100; no errors iff all three rules hold |
| `CourseValidation.IsValid` | whiteboard_backend/Controllers/CoursesController.cs:30 | the model state is valid iff both fields pass `[Required]` and the name passes `StringLength(100, MinimumLength = 3)` |
| `CourseValidation.ValidModelFields` | whiteboard_backend/Models/CourseModel.cs:7-12 | a valid body has a non-null id and a non-null name, and the name's length lies in 3..100 |
| `CourseValidation.CourseIdHasNoLengthBound` | whiteboard_backend/Models/CourseModel.cs:7-8 | any non-blank string id of any length is accepted together with an acceptable name |
| `CourseValidation.BlankNameRefused` | whiteboard_backend/Models/CourseModel.cs:7-12 | for every non-blank id, a whitespace-only name of acceptable length is refused by `[Required]` alone: the only error is CourseNameRequired |
| `CourseValidation.ThreeSpacesRefused` | whiteboard_backend/Models/CourseModel.cs:10-12 | the body ("CS101", "   ") yields exactly the CourseNameRequired error |
| `Schema.FindUserByEmail` | whiteboard_backend/Controllers/CoursesController.cs:60-64 | a found user is in the table and has that email; nothing is found iff no user has that email |
| `Schema.UserById` | whiteboard_backend/Controllers/CoursesController.cs:98 | a found user is in the table and has that id; nothing is found iff the id is not a user's id |
| `Schema.UsersInRole` | whiteboard_backend/Controllers/UserController.cs:31 | the list holds exactly the users of the table that are in the role |
| `Schema.WithoutUser` | whiteboard_backend/Controllers/UserController.cs:207 | the remaining users are exactly the table's users without that id; the id set loses exactly that id; unique users stay unique |
| `Schema.WithoutRowsOf` | whiteboard_backend/Models/StudentCourse.cs:5-6 | the cascade of the required `StudentCourse.User` relationship: the remaining rows are exactly those of other users; the relationship is required because `UserId` is part of the key declared at whiteboard_backend/Auth/ApplicationDbContext.cs:22-23, and that composite key is kept by the removal |
| `Schema.RowsForCourse` | whiteboard_backend/Controllers/CoursesController.cs:96-97 | the rows kept are exactly those whose CourseId equals the given course; a null course keeps none; the composite key is kept |
| `Schema.DistinctMembers` | whiteboard_backend/Controllers/UserController.cs:191-192 | two different users of a valid table differ in id and in email, so an email names one account |
| `Schema.FindUserByEmailFinds` | whiteboard_backend/Controllers/CoursesController.cs:60 | in a valid user table, a lookup by a member's email returns that member |
| `Schema.UserByIdFinds` | whiteboard_backend/Controllers/CoursesController.cs:98 | in a valid user table, a lookup by a member's id returns that member |
| `Schema.JoinStudents` | whiteboard_backend/Controllers/CoursesController.cs:98-105 | the inner join of rows with their users, projected to (Email, FullName): never longer than the rows, and every entry is some user's details |
| `Schema.JoinStudentsLength` | whiteboard_backend/Controllers/CoursesController.cs:96-105 | when every row's user exists, the join has one entry per row |
| `Schema.JoinStudentsMembers` | whiteboard_backend/Controllers/CoursesController.cs:96-105 | the joined entries for a course's rows are exactly the (Email, FullName) of the users enrolled in it |
| `Schema.JoinStudentsNoDuplicates` | whiteboard_backend/Controllers/CoursesController.cs:96-105 | under the composite key and unique users, the joined list has no entry twice |
| `EnrollmentStore.Store.Valid` | whiteboard_backend/Auth/ApplicationDbContext.cs:21-23 | the composite key on (UserId, CourseId) (`Schema.CompositeKey`), the two foreign keys to users and courses (`Schema.RowsReference`) and users with distinct ids and emails; a valid store never holds a row twice. `RegisterCourse` keeps the composite key by asserting it on the appended row, and the `NoDuplicates` ensures of `GetMyCourseStudents` rests on it. The foreign keys come from the navigations at whiteboard_backend/Models/StudentCourse.cs:5-9: every row's UserId names a user and its CourseId names a catalog course |
| `EnrollmentStore.Store.constructor` | whiteboard_backend/Auth/ApplicationDbContext.cs:8-15 | a store over a valid user table starts valid, with an empty catalog and no enrollments |
| `EnrollmentStore.Store.AddCourse` | whiteboard_backend/Controllers/CoursesController.cs:28-52 | an invalid body yields its validation errors; a taken id yields DuplicateCourse with the catalog unchanged; otherwise the catalog becomes the old catalog plus CourseId to CourseName; enrollments and users never change; the invariant is kept |
| `EnrollmentStore.Store.RegisterCourse` | whiteboard_backend/Controllers/CoursesController.cs:58-86 | an unknown email yields StudentNotFound, whatever the course; then an unknown course yields InvalidCourse; then an existing pair yields AlreadyRegistered; each error leaves the enrollments unchanged; otherwise the enrollments become the old ones plus (user id, CourseId); catalog and users never change; the composite and foreign keys are kept |
| `EnrollmentStore.Store.GetMyCourseStudents` | whiteboard_backend/Controllers/CoursesController.cs:91-108 | one entry per enrollment row of the caller's course; the entries are exactly the (Email, FullName) of the enrolled users; none repeats; a caller without a course gets an empty list; the store is only read |
| `EnrollmentStore.Store.GetAllStudents` | whiteboard_backend/Controllers/UserController.cs:25-44 | same length and order as the Student-role users, element i being user i's (Email, FullName); the entries are exactly the students' details |
| `EnrollmentStore.Store.GetAllProfessors` | whiteboard_backend/Controllers/UserController.cs:123-147 | one (Email, FullName, Course) per Professor-role user, in order, taken from the user's own fields |
| `EnrollmentStore.Store.DownloadStudents` | whiteboard_backend/Controllers/UserController.cs:89-118 | a sheet named Students; its cells are exactly rows 1..n+1 by columns 1..2; row 1 is ("Email", "Full Name"); row i+2 holds student i |
| `EnrollmentStore.Store.DownloadProfessors` | whiteboard_backend/Controllers/UserController.cs:152-185 | a sheet named Professors; its cells are exactly rows 1..n+1 by columns 1..3; row 1 is ("Email", "Full Name", "Course"); row i+2 holds professor i, with a null course left null |
| `EnrollmentStore.Store.DeleteStudent` | whiteboard_backend/Controllers/UserController.cs:189-215 | an unknown email yields NotFound; a user not in the Student role yields NotAStudent; a failed provider deletion yields DeletionFailed with the provider's errors; each of these changes nothing; otherwise that user and that user's enrollment rows are removed, and every other user and row stays; the catalog never changes; the invariant is kept |
| `Scenarios.RegisterTwice` | whiteboard_backend/Controllers/CoursesController.cs:72-85 | the second of two identical registrations never registers; after a first success it yields AlreadyRegistered |
| `Scenarios.AddCourseTwice` | whiteboard_backend/Controllers/CoursesController.cs:35-51 | for a valid body with a new id, the first add succeeds; for any valid body, the second add ends with DuplicateCourse and the id in the catalog; an invalid body is refused both times |
| `Scenarios.EndToEnd` | whiteboard_backend/Controllers/CoursesController.cs:28-108 | after adding CS101, a student's registration succeeds, a repeat is AlreadyRegistered, and the CS101 professor's list is exactly that student |
| `Scenarios.ManyToMany` | whiteboard_backend/Auth/ApplicationDbContext.cs:21-23 | one student can hold two courses and one course can hold two students, so neither component alone is a key |
| `Scenarios.ProfessorEmailIsRegistered` | whiteboard_backend/Controllers/CoursesController.cs:60-64 | registration enrols the account its email names even when that account is a professor |
| `Scenarios.DeleteEnrolledStudent` | whiteboard_backend/Controllers/UserController.cs:189-215 | after an enrolled student is deleted, their email no longer registers and their course's list is empty |
| `Scenarios.DeleteProfessorRefused` | whiteboard_backend/Controllers/UserController.cs:198-204 | deleting a professor's account yields NotAStudent and leaves the user table as it was, whatever the provider would answer |

## Left out

- Asynchronous execution, `SaveChangesAsync`, transactions and concurrent requests: each endpoint is one atomic step, and only sequential repeats are modelled, not racing registrations.
- HTTP status codes, response messages, routing and model binding: each outcome is a constructor of a result datatype.
- The spreadsheet library (package, byte array, MIME type, file name, column auto-fit) and the commented-out file-path variant of the student export: only the cells written are modelled.
- `EnrollmentStore.Store.GetAllProfessors`: the claims it fetches for each professor are discarded by the source, so the model does not fetch them.
- Identity-provider internals: password hashing, role storage, why a deletion fails (its outcome is a parameter), and email normalisation (emails are compared exactly). Database collation in key comparisons is also left out.
- The crash when the signed-in professor's account is missing: `EnrollmentStore.Store.GetMyCourseStudents` requires that the account exists.
- `CourseRegistrationModel` is not part of this model: its field rules are unknown, so the registration endpoint takes the email and course id as strings.
- whiteboard_backend/Models/RegisterModel.cs: it belongs to an account-registration endpoint outside this model, and no modelled code uses it.
- Navigation collections of `Course`, `ApplicationUser` and `StudentCourse`: they are EF Core plumbing, so the model uses only their key fields.
- Duplicate emails: the identity schema does not index the email uniquely, and with two accounts sharing an email `FindByEmailAsync` throws. The model's users have distinct emails (the email is the account's username, which is indexed uniquely), so that failure is not captured.
- Users without an email: the identity schema allows a null `Email`, but the model's users always have one.
- String lengths are counted in Unicode characters, while .NET counts UTF-16 code units.
- Listing a student's own courses: the source has no such endpoint.
- No rule ties a professor to having a course. The source sets none, so a professor's `Course` may be null.
