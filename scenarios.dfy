/**
 * A client of the controller: the request sequences the integration tests describe,
 * plus a few worked examples, checked against the endpoint contracts alone.
 */
module Scenarios {
  import opened Wrappers
  import opened Exceptions
  import opened JavaStrings
  import opened Entity
  import opened Validation
  import opened Gpa
  import opened Controller

  const Intro := Course(Some(1), Some("Intro"), Some(3), Some(Grade(4, "A")))

  /** Adding to a new controller with multipliers low 1, medium 2, high 3: credit 3 selects
      the medium multiplier, 4 * 3 * 2. */
  method AddToEmptyCatalog() returns (controller: CourseController)
    ensures fresh(controller) && controller.Valid()
    ensures controller.courses == [Intro] && controller.gpa == Multipliers(1, 2, 3)
  {
    controller := new CourseController(1, 2, 3);
    controller.Init();
    var all := controller.GetAll();
    assert all == [];
    var r := controller.AddCourse(Intro);
    assert r == Created(Intro, 24) && r.Status() == HttpCreated;
  }

  /** The same name in capitals is a duplicate, and a lookup in capitals finds the course. */
  method DuplicateInOtherCase()
  {
    var controller := AddToEmptyCatalog();
    var shouted := Course(Some(2), Some("INTRO"), Some(2), Some(Grade(3, "B")));
    assert EqualsIgnoreCase("Intro", "INTRO") by {
      EqualsIgnoreCaseIsFoldEquality("Intro", "INTRO");
      assert FoldCase("Intro") == "intro" == FoldCase("INTRO");
    }
    assert NameMatches(controller.courses[0], "INTRO");
    var r := controller.AddCourse(shouted);
    assert r == BadRequest && controller.courses == [Intro];
    r := controller.GetCourseByName("INTRO");
    assert r == OkCourse(Intro);
  }

  /** Update then delete: credit 4 selects the high multiplier, and the answer is the course,
      not the score; a second delete finds nothing. */
  method UpdateThenDelete()
  {
    var controller := AddToEmptyCatalog();
    var advanced := Course(None, Some("Advanced"), Some(4), Some(Grade(3, "B")));
    var r := controller.UpdateCourse(Some(1), advanced);
    var updated := Course(Some(1), Some("Advanced"), Some(4), Some(Grade(3, "B")));
    assert r == OkCourse(updated) && controller.courses == [updated];
    assert TotalGpa(controller.gpa, 3, 4) == 36;

    r := controller.DeleteCourse(Some(1));
    assert r == Ok && controller.courses == [];
    r := controller.DeleteCourse(Some(1));
    assert r == NotFound;
    r := controller.GetCourseByName("Advanced");
    assert r == Raised(CourseNotFound) && r.Status() == HttpNotFound;
  }

  /** Rejections: every field null, credits out of range, a null grade, a negative id. */
  method Rejections()
  {
    var controller := new CourseController(1, 2, 3);
    controller.Init();

    // checkName runs first, so an all-null body is a 400 with the name message.
    var r := controller.AddCourse(Course(None, None, None, None));
    assert r == Raised(ApiError(NameMessage, HttpBadRequest)) && r.Status().Code() == 400;

    r := controller.AddCourse(Course(Some(1), Some("Low"), Some(-1), Some(Grade(4, "A"))));
    assert r == Raised(ApiError(CreditMessage, HttpBadRequest));
    r := controller.AddCourse(Course(Some(1), Some("High"), Some(10), Some(Grade(4, "A"))));
    assert r == Raised(ApiError(CreditMessage, HttpBadRequest));

    // A missing grade is dereferenced while scoring: a 500, and nothing is stored.
    r := controller.AddCourse(Course(Some(1), Some("Ungraded"), Some(2), None));
    assert r == Crashed(NullGrade) && r.Status() == HttpInternalServerError;
    assert controller.courses == [];

    r := controller.DeleteCourse(Some(-1));
    assert r.Raised? && r.Status() == HttpBadRequest;
    r := controller.UpdateCourse(None, Course(None, Some("X"), Some(1), None));
    assert r.Raised? && r.Status() == HttpBadRequest;
    assert controller.courses == [];
  }

  /** Add never checks the id, so a course without one can be stored; from then on every
      delete, and every update that scans past it, fails with a 500. */
  method NullIdPoisonsDelete()
  {
    var controller := new CourseController(1, 2, 3);
    controller.Init();
    var anonymous := Course(None, Some("Anonymous"), Some(1), Some(Grade(2, "C")));
    var r := controller.AddCourse(anonymous);
    assert r == Created(anonymous, 2);
    r := controller.DeleteCourse(Some(7));
    assert r == Crashed(NullId) && controller.courses == [anonymous];
    r := controller.UpdateCourse(Some(7), Course(Some(7), Some("Named"), Some(1), Some(Grade(2, "C"))));
    assert r == Crashed(NullId) && controller.courses == [anonymous];
  }

  /** Update does not check name uniqueness: two courses can end up with the same name. */
  method RenameOntoExistingName()
  {
    var controller := new CourseController(1, 2, 3);
    controller.Init();
    var math := Course(Some(1), Some("Math"), Some(2), Some(Grade(4, "A")));
    var art := Course(Some(2), Some("Art"), Some(2), Some(Grade(4, "A")));
    var r := controller.AddCourse(math);
    assert !NameMatches(math, "Art");
    r := controller.AddCourse(art);
    assert r.Created? && controller.courses == [math, art];
    r := controller.UpdateCourse(Some(2), Course(None, Some("Math"), Some(2), Some(Grade(1, "D"))));
    assert r.OkCourse?;
    UpdateCanDuplicateNames([math, art], 1, 0, Course(None, Some("Math"), Some(2), Some(Grade(1, "D"))));
    assert !UniqueNames(controller.courses);
  }
}
