/** The endpoints of CoursesController and UserController over one store:
    the course catalog and the enrollment table of ApplicationDbContext, and
    the identity provider's user table. Each endpoint is one atomic step
    that runs its checks in the source's order and returns the first error
    it meets, or changes the tables and succeeds. */
module EnrollmentStore {
  import opened Wrappers
  import opened Sequences
  import opened AccessGate
  import opened CourseValidation
  import opened Schema

  datatype AddCourseResult = CourseAdded | InvalidModel(errors: seq<ValidationError>) | DuplicateCourse

  datatype RegisterResult = Registered | StudentNotFound | InvalidCourse | AlreadyRegistered

  /** `IdentityError` as the identity provider reports it. */
  datatype IdentityError = IdentityError(code: string, description: string)

  /** The outcome of the identity provider's `DeleteAsync`. */
  datatype IdentityResult = Succeeded | Failed(errors: seq<IdentityError>)

  datatype DeleteResult = Deleted | NotFound | NotAStudent | DeletionFailed(errors: seq<IdentityError>)

  /** A worksheet cell address, 1-based as in the spreadsheet library. */
  datatype Cell = Cell(row: int, col: int)

  /** The cells written into an exported worksheet; a null value stays null. */
  datatype Worksheet = Worksheet(name: string, cells: map<Cell, Option<string>>)

  /** The value the student export writes at `c`, for the loop's proof. */
  ghost function StudentCell(students: seq<User>, c: Cell): Option<string>
  {
    if c.row == 1 then
      if c.col == 1 then Some("Email") else Some("Full Name")
    else if 2 <= c.row <= |students| + 1 then
      var u := students[c.row - 2];
      if c.col == 1 then Some(u.email) else Some(u.fullName)
    else None
  }

  /** The value the professor export writes at `c`, for the loop's proof. */
  ghost function ProfessorCell(professors: seq<User>, c: Cell): Option<string>
  {
    if c.row == 1 then
      if c.col == 1 then Some("Email") else if c.col == 2 then Some("Full Name") else Some("Course")
    else if 2 <= c.row <= |professors| + 1 then
      var u := professors[c.row - 2];
      if c.col == 1 then Some(u.email) else if c.col == 2 then Some(u.fullName) else u.course
    else None
  }

  /** Writing student `i` into row `i + 2` extends a sheet that holds the
      header and the students before `i` by exactly that row. */
  lemma StudentRowWritten(cells: map<Cell, Option<string>>, students: seq<User>, i: int)
    requires 0 <= i < |students|
    requires forall c :: c in cells <==> 1 <= c.row <= i + 1 && 1 <= c.col <= 2
    requires forall c :: c in cells ==> cells[c] == StudentCell(students, c)
    ensures var after := cells[Cell(i + 2, 1) := Some(students[i].email)][Cell(i + 2, 2) := Some(students[i].fullName)];
            && (forall c :: c in after <==> 1 <= c.row <= i + 2 && 1 <= c.col <= 2)
            && (forall c :: c in after ==> after[c] == StudentCell(students, c))
  {
    var after := cells[Cell(i + 2, 1) := Some(students[i].email)][Cell(i + 2, 2) := Some(students[i].fullName)];
    forall c ensures c in after <==> 1 <= c.row <= i + 2 && 1 <= c.col <= 2 {
      if c.row == i + 2 && 1 <= c.col <= 2 {
        assert c == Cell(i + 2, c.col);
      }
    }
  }

  /** Writing professor `i` into row `i + 2` extends a sheet that holds the
      header and the professors before `i` by exactly that row. */
  lemma ProfessorRowWritten(cells: map<Cell, Option<string>>, professors: seq<User>, i: int)
    requires 0 <= i < |professors|
    requires forall c :: c in cells <==> 1 <= c.row <= i + 1 && 1 <= c.col <= 3
    requires forall c :: c in cells ==> cells[c] == ProfessorCell(professors, c)
    ensures var after := cells[Cell(i + 2, 1) := Some(professors[i].email)][Cell(i + 2, 2) := Some(professors[i].fullName)]
                              [Cell(i + 2, 3) := professors[i].course];
            && (forall c :: c in after <==> 1 <= c.row <= i + 2 && 1 <= c.col <= 3)
            && (forall c :: c in after ==> after[c] == ProfessorCell(professors, c))
  {
    var after := cells[Cell(i + 2, 1) := Some(professors[i].email)][Cell(i + 2, 2) := Some(professors[i].fullName)]
                      [Cell(i + 2, 3) := professors[i].course];
    forall c ensures c in after <==> 1 <= c.row <= i + 2 && 1 <= c.col <= 3 {
      if c.row == i + 2 && 1 <= c.col <= 3 {
        assert c == Cell(i + 2, c.col);
      }
    }
  }

  class Store {
    /** `Courses`: CourseId to CourseName. */
    var courses: map<CourseId, string>
    /** `StudentCourses`, in table order. */
    var enrollments: seq<Enrollment>
    /** The identity provider's users, in table order. */
    var users: seq<User>

    /** The store's constraints: the composite key of `StudentCourses` and
        its two foreign keys, which the schema declares, and users with
        distinct ids and distinct emails. Ids are the identity table's key;
        distinct emails rest on the email also being the account's
        username, which the identity schema indexes uniquely. Valid stores
        never hold the same enrollment row twice. */
    ghost predicate Valid(): (r: bool)
      reads this
      ensures r ==> forall i, j :: 0 <= i < j < |enrollments| ==> enrollments[i] != enrollments[j]
    {
      && UniqueUsers(users)
      && CompositeKey(enrollments)
      && RowsReference(enrollments, courses, users)
    }

    /** A store over an existing user table, with no courses yet. */
    constructor (initialUsers: seq<User>)
      requires UniqueUsers(initialUsers)
      ensures Valid()
      ensures courses == map[] && enrollments == [] && users == initialUsers
    {
      courses := map[];
      enrollments := [];
      users := initialUsers;
    }

    /** POST api/courses/add. An invalid body is refused before the catalog
        is consulted; a taken id is refused; otherwise the course is added. */
    method AddCourse(model: CourseModel) returns (r: AddCourseResult)
      requires Valid()
      modifies this
      ensures Valid()
      ensures enrollments == old(enrollments) && users == old(users)
      ensures !IsValid(model) ==> r == InvalidModel(Validate(model)) && courses == old(courses)
      ensures IsValid(model) && model.courseId.value in old(courses) ==>
                r == DuplicateCourse && courses == old(courses)
      ensures IsValid(model) && model.courseId.value !in old(courses) ==>
                r == CourseAdded
                && courses == old(courses)[model.courseId.value := model.courseName.value]
    {
      if !IsValid(model) {
        return InvalidModel(Validate(model));
      }
      var id := model.courseId.value;
      if id in courses {
        return DuplicateCourse;
      }
      courses := courses[id := model.courseName.value];
      r := CourseAdded;
    }

    /** POST api/courses/registerCourse. Looks the user up by email, then
        the course, then the pair; the first missing or present one decides
        the error. The caller is not compared with the email, and the user
        found is not required to be a student. */
    method RegisterCourse(email: string, courseId: CourseId) returns (r: RegisterResult)
      requires Valid()
      modifies this
      ensures Valid()
      ensures courses == old(courses) && users == old(users)
      ensures FindUserByEmail(users, email).None? ==>
                r == StudentNotFound && enrollments == old(enrollments)
      ensures FindUserByEmail(users, email).Some? && courseId !in courses ==>
                r == InvalidCourse && enrollments == old(enrollments)
      ensures FindUserByEmail(users, email).Some? && courseId in courses ==>
                var row := Enrollment(FindUserByEmail(users, email).value.id, courseId);
                if row in old(enrollments) then
                  r == AlreadyRegistered && enrollments == old(enrollments)
                else
                  r == Registered && enrollments == old(enrollments) + [row]
      ensures r == Registered ==>
                Enrollment(FindUserByEmail(users, email).value.id, courseId) in enrollments
    {
      var found := FindUserByEmail(users, email);
      if found.None? {
        return StudentNotFound;
      }
      var user := found.value;
      if courseId !in courses {
        return InvalidCourse;
      }
      var row := Enrollment(user.id, courseId);
      if row in enrollments {
        return AlreadyRegistered;
      }
      assert forall e :: e in enrollments ==> DistinctKeys(e, row);
      enrollments := enrollments + [row];
      r := Registered;
    }

    /** GET api/courses/myCourseStudents for the signed-in professor
        `callerEmail`: one entry per enrollment in the professor's course. */
    function GetMyCourseStudents(callerEmail: string): (r: seq<StudentDetails>)
      reads this
      requires Valid()
      requires FindUserByEmail(users, callerEmail).Some?
      ensures var course := FindUserByEmail(users, callerEmail).value.course;
              && |r| == |RowsForCourse(enrollments, course)|
              && (course.None? ==> r == [])
              && (course.Some? ==>
                    forall d :: d in r <==>
                      exists u :: u in users && d == Details(u) && Enrollment(u.id, course.value) in enrollments)
      ensures NoDuplicates(r)
    {
      var course := FindUserByEmail(users, callerEmail).value.course;
      var rows := RowsForCourse(enrollments, course);
      JoinStudentsLength(rows, users);
      if course.None? then
        JoinStudents(rows, users)
      else
        JoinStudentsMembers(rows, users, course.value);
        JoinStudentsNoDuplicates(rows, users, course.value);
        JoinStudents(rows, users)
    }

    /** GET api/user/liststudents: the Student-role users' details, in the
        provider's order. */
    method GetAllStudents() returns (r: seq<StudentDetails>)
      ensures var students := UsersInRole(users, Student);
              && |r| == |students|
              && forall i :: 0 <= i < |students| ==> r[i] == Details(students[i])
      ensures forall d :: d in r <==> exists u :: u in users && Student in u.roles && d == Details(u)
    {
      var students := UsersInRole(users, Student);
      r := [];
      for i := 0 to |students|
        invariant |r| == i
        invariant forall k :: 0 <= k < i ==> r[k] == Details(students[k])
      {
        r := r + [Details(students[i])];
      }
      forall d | d in r ensures exists u :: u in users && Student in u.roles && d == Details(u) {
        var k :| 0 <= k < |r| && r[k] == d;
        assert students[k] in students;
      }
      forall u | u in users && Student in u.roles ensures Details(u) in r {
        var k :| 0 <= k < |students| && students[k] == u;
        assert r[k] == Details(u);
      }
    }

    /** GET api/user/listprofessors: one entry per Professor-role user, in
        the provider's order, taken from the user's own fields. */
    method GetAllProfessors() returns (r: seq<ProfessorDetails>)
      ensures var professors := UsersInRole(users, Professor);
              && |r| == |professors|
              && forall i :: 0 <= i < |professors| ==>
                   r[i] == ProfessorDetails(professors[i].email, professors[i].fullName, professors[i].course)
    {
      var professors := UsersInRole(users, Professor);
      r := [];
      for i := 0 to |professors|
        invariant |r| == i
        invariant forall k :: 0 <= k < i ==>
                    r[k] == ProfessorDetails(professors[k].email, professors[k].fullName, professors[k].course)
      {
        var user := professors[i];
        r := r + [ProfessorDetails(user.email, user.fullName, user.course)];
      }
    }

    /** GET api/user/liststudents/download: the "Students" worksheet. Row 1
        is the header; row i + 2 holds the i-th student. */
    method DownloadStudents() returns (sheet: Worksheet)
      ensures var students := UsersInRole(users, Student);
              && sheet.name == "Students"
              && (forall c :: c in sheet.cells <==> 1 <= c.row <= |students| + 1 && 1 <= c.col <= 2)
              && sheet.cells[Cell(1, 1)] == Some("Email")
              && sheet.cells[Cell(1, 2)] == Some("Full Name")
              && forall i :: 0 <= i < |students| ==>
                   && sheet.cells[Cell(i + 2, 1)] == Some(students[i].email)
                   && sheet.cells[Cell(i + 2, 2)] == Some(students[i].fullName)
    {
      var students := UsersInRole(users, Student);
      var cells := map[Cell(1, 1) := Some("Email"), Cell(1, 2) := Some("Full Name")];
      for i := 0 to |students|
        invariant forall c :: c in cells <==> 1 <= c.row <= i + 1 && 1 <= c.col <= 2
        invariant forall c :: c in cells ==> cells[c] == StudentCell(students, c)
      {
        StudentRowWritten(cells, students, i);
        cells := cells[Cell(i + 2, 1) := Some(students[i].email)][Cell(i + 2, 2) := Some(students[i].fullName)];
      }
      forall i | 0 <= i < |students|
        ensures cells[Cell(i + 2, 1)] == Some(students[i].email)
        ensures cells[Cell(i + 2, 2)] == Some(students[i].fullName)
      {
        assert Cell(i + 2, 1) in cells && Cell(i + 2, 2) in cells;
      }
      sheet := Worksheet("Students", cells);
    }

    /** GET api/user/listprofessors/download: the "Professors" worksheet.
        Row 1 is the header; row i + 2 holds the i-th professor. */
    method DownloadProfessors() returns (sheet: Worksheet)
      ensures var professors := UsersInRole(users, Professor);
              && sheet.name == "Professors"
              && (forall c :: c in sheet.cells <==> 1 <= c.row <= |professors| + 1 && 1 <= c.col <= 3)
              && sheet.cells[Cell(1, 1)] == Some("Email")
              && sheet.cells[Cell(1, 2)] == Some("Full Name")
              && sheet.cells[Cell(1, 3)] == Some("Course")
              && forall i :: 0 <= i < |professors| ==>
                   && sheet.cells[Cell(i + 2, 1)] == Some(professors[i].email)
                   && sheet.cells[Cell(i + 2, 2)] == Some(professors[i].fullName)
                   && sheet.cells[Cell(i + 2, 3)] == professors[i].course
    {
      var professors := UsersInRole(users, Professor);
      var cells := map[Cell(1, 1) := Some("Email"), Cell(1, 2) := Some("Full Name"), Cell(1, 3) := Some("Course")];
      for i := 0 to |professors|
        invariant forall c :: c in cells <==> 1 <= c.row <= i + 1 && 1 <= c.col <= 3
        invariant forall c :: c in cells ==> cells[c] == ProfessorCell(professors, c)
      {
        ProfessorRowWritten(cells, professors, i);
        cells := cells[Cell(i + 2, 1) := Some(professors[i].email)][Cell(i + 2, 2) := Some(professors[i].fullName)]
                      [Cell(i + 2, 3) := professors[i].course];
      }
      forall i | 0 <= i < |professors|
        ensures cells[Cell(i + 2, 1)] == Some(professors[i].email)
        ensures cells[Cell(i + 2, 2)] == Some(professors[i].fullName)
        ensures cells[Cell(i + 2, 3)] == professors[i].course
      {
        assert Cell(i + 2, 1) in cells && Cell(i + 2, 2) in cells && Cell(i + 2, 3) in cells;
      }
      sheet := Worksheet("Professors", cells);
    }

    /** DELETE api/user/{username}. Looks the user up by email, checks the
        Student role, then asks the identity provider to delete it; the
        provider's outcome is the parameter `deletion`. A successful delete
        also removes the user's enrollment rows (the database cascades the
        delete along the required `StudentCourse.User` relationship). */
    method DeleteStudent(username: string, deletion: IdentityResult) returns (r: DeleteResult)
      requires Valid()
      modifies this
      ensures Valid()
      ensures courses == old(courses)
      ensures FindUserByEmail(old(users), username).None? ==>
                r == NotFound && users == old(users) && enrollments == old(enrollments)
      ensures FindUserByEmail(old(users), username).Some? ==>
                var student := FindUserByEmail(old(users), username).value;
                if Student !in student.roles then
                  r == NotAStudent && users == old(users) && enrollments == old(enrollments)
                else if deletion.Failed? then
                  r == DeletionFailed(deletion.errors) && users == old(users) && enrollments == old(enrollments)
                else
                  && r == Deleted
                  && users == WithoutUser(old(users), student.id)
                  && enrollments == WithoutRowsOf(old(enrollments), student.id)
                  && (forall u :: u in users <==> u in old(users) && u != student)
    {
      var found := FindUserByEmail(users, username);
      if found.None? {
        return NotFound;
      }
      var student := found.value;
      if Student !in student.roles {
        return NotAStudent;
      }
      if deletion.Failed? {
        return DeletionFailed(deletion.errors);
      }
      forall u | u in users && u != student ensures u.id != student.id {
        DistinctMembers(users, u, student);
      }
      users := WithoutUser(users, student.id);
      enrollments := WithoutRowsOf(enrollments, student.id);
      r := Deleted;
    }
  }
}
