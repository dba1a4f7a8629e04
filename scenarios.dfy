/** Clients of the store: what follows for a caller from the endpoints'
    contracts alone when requests are issued one after another. */
module Scenarios {
  import opened Wrappers
  import opened AccessGate
  import opened CourseValidation
  import opened Schema
  import opened EnrollmentStore

  /** The same registration twice in a row: whatever the first call does,
      the second cannot register again, and a first success is answered
      with AlreadyRegistered. */
  method RegisterTwice(s: Store, email: string, courseId: CourseId)
      returns (first: RegisterResult, second: RegisterResult)
    requires s.Valid()
    modifies s
    ensures s.Valid()
    ensures second != Registered
    ensures first == Registered ==> second == AlreadyRegistered
    ensures first == AlreadyRegistered ==> second == AlreadyRegistered
    ensures s.courses == old(s.courses) && s.users == old(s.users)
    ensures |s.enrollments| <= |old(s.enrollments)| + 1
  {
    first := s.RegisterCourse(email, courseId);
    second := s.RegisterCourse(email, courseId);
  }

  /** The same course body added twice in a row: for a valid body, exactly
      one success at most and the second call always reports the
      duplicate. */
  method AddCourseTwice(s: Store, model: CourseModel)
      returns (first: AddCourseResult, second: AddCourseResult)
    requires s.Valid()
    modifies s
    ensures s.Valid()
    ensures IsValid(model) && model.courseId.value !in old(s.courses) ==> first == CourseAdded
    ensures IsValid(model) ==> second == DuplicateCourse
    ensures !IsValid(model) ==> first == second == InvalidModel(Validate(model))
    ensures IsValid(model) ==> model.courseId.value in s.courses
    ensures first == CourseAdded ==> s.courses == old(s.courses)[model.courseId.value := model.courseName.value]
    ensures first != CourseAdded ==> s.courses == old(s.courses)
  {
    first := s.AddCourse(model);
    second := s.AddCourse(model);
  }

  const Ann := User("u1", "a@x.com", "Ann Lee", None, {Student})
  const Bob := User("u2", "b@x.com", "Bob Ray", None, {Student})
  const Pat := User("u3", "p@x.com", "Pat Kim", Some("CS101"), {Professor})

  lemma ThreeUsersAreUnique()
    ensures UniqueUsers([Ann, Bob, Pat])
  {
    var us := [Ann, Bob, Pat];
    forall i, j | 0 <= i < j < |us| ensures DistinctUsers(us[i], us[j]) {
    }
  }

  /** A store over Ann, Bob and Pat whose catalog holds CS101 "Intro",
      added through the add-course endpoint. */
  method StoreWithIntro() returns (s: Store)
    ensures fresh(s) && s.Valid()
    ensures s.users == [Ann, Bob, Pat] && s.courses == map["CS101" := "Intro"] && s.enrollments == []
  {
    ThreeUsersAreUnique();
    s := new Store([Ann, Bob, Pat]);
    assert !IsBlank("CS101") by { assert !IsWhiteSpace("CS101"[0]); }
    assert !IsBlank("Intro") by { assert !IsWhiteSpace("Intro"[0]); }
    var added := s.AddCourse(CourseModel(Some("CS101"), Some("Intro")));
  }

  /** The same store with a second course, MA201 "Algebra". */
  method StoreWithTwoCourses() returns (s: Store)
    ensures fresh(s) && s.Valid()
    ensures s.users == [Ann, Bob, Pat] && s.enrollments == []
    ensures "CS101" in s.courses && "MA201" in s.courses
  {
    s := StoreWithIntro();
    assert !IsBlank("MA201") by { assert !IsWhiteSpace("MA201"[0]); }
    assert !IsBlank("Algebra") by { assert !IsWhiteSpace("Algebra"[0]); }
    var added := s.AddCourse(CourseModel(Some("MA201"), Some("Algebra")));
  }

  /** An administrator adds CS101, a student registers for it and tries
      again, and the professor assigned to CS101 lists the course's
      students. */
  method EndToEnd() returns (added: AddCourseResult, first: RegisterResult,
                             second: RegisterResult, listing: seq<StudentDetails>)
    ensures added == CourseAdded
    ensures first == Registered && second == AlreadyRegistered
    ensures listing == [Details(Ann)]
  {
    ThreeUsersAreUnique();
    var s := new Store([Ann, Bob, Pat]);
    assert !IsBlank("CS101") by { assert !IsWhiteSpace("CS101"[0]); }
    assert !IsBlank("Intro") by { assert !IsWhiteSpace("Intro"[0]); }
    added := s.AddCourse(CourseModel(Some("CS101"), Some("Intro")));
    FindUserByEmailFinds(s.users, Ann);
    first := s.RegisterCourse("a@x.com", "CS101");
    second := s.RegisterCourse("a@x.com", "CS101");
    FindUserByEmailFinds(s.users, Pat);
    listing := s.GetMyCourseStudents("p@x.com");
    assert s.enrollments == [Enrollment("u1", "CS101")];
    assert |listing| == 1 by {
      var rows := RowsForCourse(s.enrollments, Some("CS101"));
      assert Enrollment("u1", "CS101") in rows;
    }
    assert listing[0] in listing;
  }

  /** The enrollment relation is many-to-many: one student holds two
      courses and one course holds two students. */
  method ManyToMany() returns (r1: RegisterResult, r2: RegisterResult, r3: RegisterResult)
    ensures r1 == Registered && r2 == Registered && r3 == Registered
  {
    var s := StoreWithTwoCourses();
    FindUserByEmailFinds(s.users, Ann);
    FindUserByEmailFinds(s.users, Bob);
    r1 := s.RegisterCourse("a@x.com", "CS101");
    assert s.enrollments == [Enrollment("u1", "CS101")];
    r2 := s.RegisterCourse("a@x.com", "MA201");
    assert s.enrollments == [Enrollment("u1", "CS101"), Enrollment("u1", "MA201")];
    r3 := s.RegisterCourse("b@x.com", "CS101");
  }

  /** Registration looks only at the email in the body: the account found
      there is enrolled even when it holds the Professor role and not the
      Student role. */
  method ProfessorEmailIsRegistered() returns (r: RegisterResult)
    ensures r == Registered
  {
    var s := StoreWithIntro();
    FindUserByEmailFinds(s.users, Pat);
    r := s.RegisterCourse("p@x.com", "CS101");
  }

  /** Ann registers for CS101 and is then deleted. */
  method StoreAfterDeletingAnn() returns (s: Store, deleted: DeleteResult)
    ensures fresh(s) && s.Valid() && deleted == Deleted
    ensures forall u :: u in s.users <==> u == Bob || u == Pat
    ensures forall e :: e !in s.enrollments
  {
    s := StoreWithIntro();
    FindUserByEmailFinds(s.users, Ann);
    var first := s.RegisterCourse("a@x.com", "CS101");
    assert s.enrollments == [Enrollment("u1", "CS101")];
    deleted := s.DeleteStudent("a@x.com", Succeeded);
  }

  /** Deleting an enrolled student removes the account and its rows: its
      email no longer registers, and the professor's list is empty. */
  method DeleteEnrolledStudent() returns (deleted: DeleteResult, again: RegisterResult,
                                          listing: seq<StudentDetails>)
    ensures deleted == Deleted && again == StudentNotFound && listing == []
  {
    var s;
    s, deleted := StoreAfterDeletingAnn();
    assert Pat in s.users;
    again := s.RegisterCourse("a@x.com", "CS101");
    FindUserByEmailFinds(s.users, Pat);
    listing := s.GetMyCourseStudents("p@x.com");
    assert forall d :: d !in listing;
  }

  /** The delete endpoint refuses a professor's account and changes
      nothing, whatever the identity provider would have answered. */
  method DeleteProfessorRefused(deletion: IdentityResult) returns (r: DeleteResult, users: seq<User>)
    ensures r == NotAStudent && users == [Ann, Bob, Pat]
  {
    ThreeUsersAreUnique();
    var s := new Store([Ann, Bob, Pat]);
    FindUserByEmailFinds(s.users, Pat);
    r := s.DeleteStudent("p@x.com", deletion);
    users := s.users;
  }
}
