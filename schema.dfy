/** The store's tables. ApplicationDbContext adds two tables to the identity
    schema it inherits: `Courses`, keyed by `CourseId`, and `StudentCourses`,
    keyed by the pair `(UserId, CourseId)`. The user table belongs to the
    identity provider; the core only looks users up and lists them by role. */
module Schema {
  import opened Wrappers
  import opened Sequences
  import opened AccessGate

  type UserId = string
  type CourseId = string

  /** A row of the identity user table: `ApplicationUser` with the role
      memberships the identity provider keeps for it. `course` is the
      nullable `Course` attribute, set for professors. */
  datatype User = User(id: UserId, email: string, fullName: string, course: Option<CourseId>, roles: set<Role>)

  /** A row of `StudentCourses`: two identifiers, no embedded copies. */
  datatype Enrollment = Enrollment(userId: UserId, courseId: CourseId)

  /** The projection the listing endpoints return for a student. */
  datatype StudentDetails = StudentDetails(email: string, fullName: string)

  /** The projection the professor listing returns. */
  datatype ProfessorDetails = ProfessorDetails(email: string, fullName: string, course: Option<CourseId>)

  function Details(u: User): StudentDetails
  {
    StudentDetails(u.email, u.fullName)
  }

  /** The composite key: two rows never agree on both components. */
  predicate DistinctKeys(a: Enrollment, b: Enrollment)
  {
    a.userId != b.userId || a.courseId != b.courseId
  }

  ghost predicate CompositeKey(rows: seq<Enrollment>)
  {
    Pairwise(rows, DistinctKeys)
  }

  /** Identity users have distinct ids and distinct emails. */
  predicate DistinctUsers(a: User, b: User)
  {
    a.id != b.id && a.email != b.email
  }

  ghost predicate UniqueUsers(users: seq<User>)
  {
    Pairwise(users, DistinctUsers)
  }

  function Ids(users: seq<User>): set<UserId>
  {
    set u | u in users :: u.id
  }

  /** Every row names a catalog course and an existing user: the two foreign
      keys EF Core derives from the `User` and `Course` navigations of
      `StudentCourse`. */
  ghost predicate RowsReference(rows: seq<Enrollment>, courses: map<CourseId, string>, users: seq<User>)
  {
    forall e :: e in rows ==> e.courseId in courses && e.userId in Ids(users)
  }

  /** `FindByEmailAsync`: the user whose email is `email`, if any. */
  function FindUserByEmail(users: seq<User>, email: string): (r: Option<User>)
    ensures r.Some? ==> r.value in users && r.value.email == email
    ensures r.None? <==> forall u :: u in users ==> u.email != email
  {
    if users == [] then None
    else if users[0].email == email then Some(users[0])
    else FindUserByEmail(users[1..], email)
  }

  /** The navigation `StudentCourse.User`: the user whose id is `id`, if any. */
  function UserById(users: seq<User>, id: UserId): (r: Option<User>)
    ensures r.Some? ==> r.value in users && r.value.id == id
    ensures r.None? <==> id !in Ids(users)
  {
    if users == [] then None
    else if users[0].id == id then Some(users[0])
    else UserById(users[1..], id)
  }

  /** `GetUsersInRoleAsync`: the members of `role`, in table order. */
  function UsersInRole(users: seq<User>, role: Role): (r: seq<User>)
    ensures forall u :: u in r <==> u in users && role in u.roles
  {
    Filter(users, (u: User) => role in u.roles)
  }

  /** The user table after `DeleteAsync` of the user with id `id`. */
  function WithoutUser(users: seq<User>, id: UserId): (r: seq<User>)
    ensures forall u :: u in r <==> u in users && u.id != id
    ensures Ids(r) == Ids(users) - {id}
    ensures UniqueUsers(users) ==> UniqueUsers(r)
  {
    var keep := (u: User) => u.id != id;
    FilterPairwise(users, keep, DistinctUsers);
    Filter(users, keep)
  }

  /** The enrollment rows that the database's cascade removes with the user
      `id`: the rows that remain. */
  function WithoutRowsOf(rows: seq<Enrollment>, id: UserId): (r: seq<Enrollment>)
    ensures forall e :: e in r <==> e in rows && e.userId != id
    ensures CompositeKey(rows) ==> CompositeKey(r)
  {
    var keep := (e: Enrollment) => e.userId != id;
    FilterPairwise(rows, keep, DistinctKeys);
    Filter(rows, keep)
  }

  /** `StudentCourses.Where(sc => sc.CourseId == course)`. A null course
      matches no row, because every stored `CourseId` is a string. */
  function RowsForCourse(rows: seq<Enrollment>, course: Option<CourseId>): (r: seq<Enrollment>)
    ensures forall e :: e in r <==> e in rows && course == Some(e.courseId)
    ensures course.None? ==> r == []
    ensures CompositeKey(rows) ==> CompositeKey(r)
  {
    var keep := (e: Enrollment) => course == Some(e.courseId);
    FilterPairwise(rows, keep, DistinctKeys);
    Filter(rows, keep)
  }

  /** `.Include(sc => sc.User).Select(...)`: each row joined with its user
      and projected to `(Email, FullName)`; a row without a user would be
      dropped by the inner join. */
  function JoinStudents(rows: seq<Enrollment>, users: seq<User>): (r: seq<StudentDetails>)
    ensures |r| <= |rows|
    ensures forall d :: d in r ==> exists u :: u in users && d == Details(u)
  {
    if rows == [] then []
    else match UserById(users, rows[0].userId)
      case Some(u) => [Details(u)] + JoinStudents(rows[1..], users)
      case None => JoinStudents(rows[1..], users)
  }

  /** Two different members of a table of unique users differ in id and
      in email. */
  lemma DistinctMembers(users: seq<User>, u: User, v: User)
    requires UniqueUsers(users)
    requires u in users && v in users && u != v
    ensures u.id != v.id && u.email != v.email
  {
  }

  /** In a table of unique users, looking a member up by email finds it. */
  lemma FindUserByEmailFinds(users: seq<User>, u: User)
    requires UniqueUsers(users)
    requires u in users
    ensures FindUserByEmail(users, u.email) == Some(u)
  {
  }

  /** In a table of unique users, looking a member up by id finds it. */
  lemma UserByIdFinds(users: seq<User>, u: User)
    requires UniqueUsers(users)
    requires u in users
    ensures UserById(users, u.id) == Some(u)
  {
  }

  /** The join keeps one entry per row when every row has its user. */
  lemma {:induction false} JoinStudentsLength(rows: seq<Enrollment>, users: seq<User>)
    requires forall e :: e in rows ==> e.userId in Ids(users)
    ensures |JoinStudents(rows, users)| == |rows|
  {
    if rows != [] {
      assert rows[0] in rows;
      JoinStudentsLength(rows[1..], users);
    }
  }

  /** The entries of the join for the rows of course `c` are exactly the
      details of the users enrolled in `c`. */
  lemma {:induction false} JoinStudentsMembers(rows: seq<Enrollment>, users: seq<User>, c: CourseId)
    requires UniqueUsers(users)
    requires forall e :: e in rows ==> e.courseId == c && e.userId in Ids(users)
    ensures forall d :: d in JoinStudents(rows, users) <==>
              exists u :: u in users && d == Details(u) && Enrollment(u.id, c) in rows
  {
    if rows != [] {
      var tail := rows[1..];
      JoinStudentsMembers(tail, users, c);
      assert rows[0] in rows;
      var u0 := UserById(users, rows[0].userId).value;
      assert rows[0] == Enrollment(u0.id, c);
      assert JoinStudents(rows, users) == [Details(u0)] + JoinStudents(tail, users);
      forall d | exists u :: u in users && d == Details(u) && Enrollment(u.id, c) in rows
        ensures d in JoinStudents(rows, users)
      {
        var u :| u in users && d == Details(u) && Enrollment(u.id, c) in rows;
        var k :| 0 <= k < |rows| && rows[k] == Enrollment(u.id, c);
        if k == 0 {
          UserByIdFinds(users, u);
        } else {
          assert tail[k - 1] == Enrollment(u.id, c);
        }
      }
    }
  }

  /** The first row's student is not listed again for the later rows: the
      composite key makes the later rows name other users. */
  lemma HeadStudentNotInTail(rows: seq<Enrollment>, users: seq<User>, c: CourseId, u0: User)
    requires UniqueUsers(users)
    requires CompositeKey(rows)
    requires rows != [] && rows[0] == Enrollment(u0.id, c) && u0 in users
    requires forall d :: d in JoinStudents(rows[1..], users) <==>
               exists u :: u in users && d == Details(u) && Enrollment(u.id, c) in rows[1..]
    ensures Details(u0) !in JoinStudents(rows[1..], users)
  {
    var tail := rows[1..];
    forall d | d in JoinStudents(tail, users) ensures d != Details(u0) {
      var u :| u in users && d == Details(u) && Enrollment(u.id, c) in tail;
      var k :| 0 <= k < |tail| && tail[k] == Enrollment(u.id, c);
      assert DistinctKeys(rows[0], rows[k + 1]);
      DistinctMembers(users, u, u0);
    }
  }

  /** The join for the rows of one course lists no student twice: the
      composite key gives distinct users, and distinct users have distinct
      emails. */
  lemma {:induction false} JoinStudentsNoDuplicates(rows: seq<Enrollment>, users: seq<User>, c: CourseId)
    requires UniqueUsers(users)
    requires CompositeKey(rows)
    requires forall e :: e in rows ==> e.courseId == c && e.userId in Ids(users)
    ensures NoDuplicates(JoinStudents(rows, users))
  {
    if rows != [] {
      var tail := rows[1..];
      PairwiseTail(rows, DistinctKeys);
      JoinStudentsNoDuplicates(tail, users, c);
      JoinStudentsMembers(tail, users, c);
      assert rows[0] in rows;
      var u0 := UserById(users, rows[0].userId).value;
      var rest := JoinStudents(tail, users);
      var r := [Details(u0)] + rest;
      assert JoinStudents(rows, users) == r;
      HeadStudentNotInTail(rows, users, c, u0);
      forall i, j | 0 <= i < j < |r| ensures r[i] != r[j] {
        assert r[j] == rest[j - 1] && r[j] in rest;
        if i > 0 {
          assert r[i] == rest[i - 1];
        }
      }
    }
  }
}
