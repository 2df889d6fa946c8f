/**
 * CourseController: the in-memory course list and its five endpoints.
 *
 * The list is a sequence of Course values. Each stored course was deserialised
 * from its own request body and no two entries are the same object, so the
 * in-place setters of update are modelled by replacing that one element.
 */
module Controller {
  import opened Wrappers
  import opened Exceptions
  import opened JavaStrings
  import opened Entity
  import opened Validation
  import opened Gpa

  /** The NullPointerExceptions the endpoints can raise; the generic handler answers 500. */
  datatype Fault = NullGrade | NullId

  /** What an endpoint answers. */
  datatype Reply =
    | Ok                                       // 200, empty body
    | OkCourse(course: Course)                 // 200, the course as body
    | Created(course: Course, totalGpa: int)   // 201, the course with its score
    | BadRequest                               // 400, null body
    | NotFound                                 // 404, empty body
    | Raised(error: ApiError)                  // the exception's own status and message
    | Crashed(fault: Fault)                    // 500 from the generic handler
  {
    function Status(): HttpStatus
    {
      match this
      case Ok => HttpOk
      case OkCourse(_) => HttpOk
      case Created(_, _) => HttpCreated
      case BadRequest => HttpBadRequest
      case NotFound => HttpNotFound
      case Raised(e) => e.status
      case Crashed(_) => HttpInternalServerError
    }
  }

  const CourseNotFound := ApiError("Course not found", HttpNotFound)

  /** `c.getName().equalsIgnoreCase(name)`. */
  predicate NameMatches(c: Course, name: string)
  {
    c.name.Some? && EqualsIgnoreCase(c.name.value, name)
  }

  predicate NameTaken(s: seq<Course>, name: string)
  {
    exists i :: 0 <= i < |s| && NameMatches(s[i], name)
  }

  /** Position i holds the first course, in list order, whose name matches. */
  predicate FirstNameMatch(s: seq<Course>, name: string, i: int)
  {
    0 <= i < |s| && NameMatches(s[i], name) && forall j :: 0 <= j < i ==> !NameMatches(s[j], name)
  }

  /** `courses.stream().filter(name matches).findFirst()`, as an index; its `isPresent()` is `anyMatch`. */
  function FindByName(s: seq<Course>, name: string): (r: Option<nat>)
    ensures r.Some? ==> FirstNameMatch(s, name, r.value)
    ensures r.None? <==> !NameTaken(s, name)
  {
    if s == [] then None
    else if NameMatches(s[0], name) then Some(0)
    else match FindByName(s[1..], name)
      case None => None
      case Some(i) => Some(i + 1)
  }

  /** A course appended under a name no earlier entry matches is what a lookup of that name,
      in any case, finds. */
  lemma {:induction false} AppendedCourseIsFound(s: seq<Course>, c: Course, query: string)
    requires c.name.Some? && !NameTaken(s, c.name.value)
    requires EqualsIgnoreCase(c.name.value, query)
    ensures FindByName(s + [c], query) == Some(|s|)
    decreases |s|
  {
    if s == [] {
      assert NameMatches((s + [c])[0], query);
    } else {
      assert !NameMatches(s[0], c.name.value);
      if NameMatches(s[0], query) {
        EqualsIgnoreCaseSymmetric(c.name.value, query);
        EqualsIgnoreCaseTransitive(s[0].name.value, query, c.name.value);
      }
      assert (s + [c])[1..] == s[1..] + [c];
      assert !NameTaken(s[1..], c.name.value) by {
        forall k | 0 <= k < |s[1..]| ensures !NameMatches(s[1..][k], c.name.value) {
          assert s[1..][k] == s[k + 1];
        }
      }
      AppendedCourseIsFound(s[1..], c, query);
    }
  }

  /** c's id is present and differs from id: `c.getId().equals(id)` evaluates to false. */
  predicate OtherId(c: Course, id: int)
  {
    c.id.Some? && c.id.value != id
  }

  /** The result of `filter(c -> c.getId().equals(id)).findFirst()`, which stops at the first
      match and throws on the first null id it meets before one. */
  datatype IdLookup = Found(index: nat) | Absent | NullIdAt(index: nat)

  function FindById(s: seq<Course>, id: int): (r: IdLookup)
    ensures r.Found? ==> r.index < |s| && s[r.index].id == Some(id)
    ensures r.NullIdAt? ==> r.index < |s| && s[r.index].id.None?
    ensures !r.Absent? ==> forall j :: 0 <= j < r.index ==> OtherId(s[j], id)
    ensures r.Absent? <==> forall j :: 0 <= j < |s| ==> OtherId(s[j], id)
  {
    if s == [] then Absent
    else if s[0].id.None? then NullIdAt(0)
    else if s[0].id.value == id then Found(0)
    else match FindById(s[1..], id)
      case Found(i) => Found(i + 1)
      case NullIdAt(i) => NullIdAt(i + 1)
      case Absent => Absent
  }

  predicate HasNullId(s: seq<Course>)
  {
    exists i :: 0 <= i < |s| && s[i].id.None?
  }

  predicate HasId(s: seq<Course>, id: int)
  {
    exists i :: 0 <= i < |s| && s[i].id == Some(id)
  }

  /** `removeIf(c -> c.getId().equals(id))` on a list without null ids: drops every course with
      that id and keeps the rest, each as often as before. */
  function RemoveId(s: seq<Course>, id: int): (r: seq<Course>)
    ensures forall c: Course :: c in r ==> c in s && c.id != Some(id)
    ensures forall c: Course :: c.id != Some(id) ==> multiset(r)[c] == multiset(s)[c]
    ensures |r| <= |s|
    ensures |r| < |s| <==> HasId(s, id)
    ensures !HasId(s, id) ==> r == s
  {
    if s == [] then []
    else
      assert s == [s[0]] + s[1..];
      var rest := RemoveId(s[1..], id);
      assert HasId(s, id) <==> s[0].id == Some(id) || HasId(s[1..], id) by {
        if HasId(s, id) {
          var i :| 0 <= i < |s| && s[i].id == Some(id);
          if i > 0 { assert s[1..][i - 1].id == Some(id); }
        }
        if HasId(s[1..], id) {
          var i :| 0 <= i < |s[1..]| && s[1..][i].id == Some(id);
          assert s[i + 1].id == Some(id);
        }
      }
      if s[0].id == Some(id) then rest else [s[0]] + rest
  }

  /** removeIf keeps the survivors in list order: it distributes over concatenation. */
  lemma {:induction false} RemoveIdDistributes(a: seq<Course>, b: seq<Course>, id: int)
    ensures RemoveId(a + b, id) == RemoveId(a, id) + RemoveId(b, id)
    decreases |a|
  {
    if a == [] {
      assert a + b == b;
    } else {
      assert (a + b)[1..] == a[1..] + b;
      RemoveIdDistributes(a[1..], b, id);
    }
  }

  /** Deleting an id twice deletes nothing the second time. */
  lemma RemoveIdIdempotent(s: seq<Course>, id: int)
    ensures !HasId(RemoveId(s, id), id)
    ensures RemoveId(RemoveId(s, id), id) == RemoveId(s, id)
    ensures !HasNullId(s) ==> !HasNullId(RemoveId(s, id))
  {
  }

  /** No two entries of the list have names equal ignoring case. */
  predicate SameName(a: Course, b: Course)
  {
    a.name.Some? && NameMatches(b, a.name.value)
  }

  predicate UniqueNames(s: seq<Course>)
  {
    forall i, j :: 0 <= i < j < |s| ==> !SameName(s[i], s[j])
  }

  /** `setName`, `setCredit` and `setGrade` from the request body; the id is kept. */
  function Overwrite(existing: Course, input: Course): Course
  {
    existing.(name := input.name, credit := input.credit, grade := input.grade)
  }

  /** Appending a course whose name no entry matches keeps the names unique. */
  lemma AppendKeepsUniqueNames(s: seq<Course>, c: Course)
    requires UniqueNames(s) && c.name.Some? && !NameTaken(s, c.name.value)
    ensures UniqueNames(s + [c])
  {
  }

  /** A course whose name no later entry shares can go in front of a list of unique names. */
  lemma ConsKeepsUniqueNames(x: Course, t: seq<Course>)
    requires UniqueNames(t)
    requires forall c :: c in t ==> !SameName(x, c)
    ensures UniqueNames([x] + t)
  {
  }

  lemma UniqueNamesSplit(s: seq<Course>)
    requires s != [] && UniqueNames(s)
    ensures UniqueNames(s[1..])
    ensures forall c :: c in s[1..] ==> !SameName(s[0], c)
  {
  }

  /** removeIf keeps a subsequence, so unique names stay unique. */
  lemma {:induction false} RemoveIdKeepsUniqueNames(s: seq<Course>, id: int)
    requires UniqueNames(s)
    ensures UniqueNames(RemoveId(s, id))
    decreases |s|
  {
    if s != [] {
      UniqueNamesSplit(s);
      RemoveIdKeepsUniqueNames(s[1..], id);
      if s[0].id != Some(id) {
        ConsKeepsUniqueNames(s[0], RemoveId(s[1..], id));
      }
    }
  }

  /** Renaming one course to another course's name breaks uniqueness: update does not check it. */
  lemma UpdateCanDuplicateNames(s: seq<Course>, i: nat, j: nat, input: Course)
    requires i < |s| && j < |s| && i != j && s[j].name.Some?
    requires input.name == s[j].name
    ensures !UniqueNames(s[i := Overwrite(s[i], input)])
  {
    var t := s[i := Overwrite(s[i], input)];
    EqualsIgnoreCaseReflexive(s[j].name.value);
    if i < j {
      assert SameName(t[i], t[j]);
    } else {
      assert SameName(t[j], t[i]);
    }
  }

  /** What every stored course satisfies: it passed both validators and has a grade. */
  predicate Admissible(c: Course)
  {
    CheckName(c.name).Pass? && CheckCredit(c.credit).Pass? && c.grade.Some?
  }

  class CourseController {
    var courses: seq<Course>
    const gpa: Multipliers

    ghost predicate Valid()
      reads this
    {
      forall c :: c in courses ==> Admissible(c)
    }

    /** The three GPA beans are injected here; the list itself is created by Init. */
    constructor (lowCourseGpa: int, mediumCourseGpa: int, highCourseGpa: int)
      ensures gpa == Multipliers(lowCourseGpa, mediumCourseGpa, highCourseGpa)
      ensures courses == [] && Valid()
    {
      gpa := Multipliers(lowCourseGpa, mediumCourseGpa, highCourseGpa);
      courses := [];
    }

    /** The @PostConstruct hook: a new, empty list. */
    method Init()
      modifies this
      ensures courses == [] && Valid() && UniqueNames(courses)
    {
      courses := [];
    }

    /** GET /courses: the list itself, in insertion order. */
    method GetAll() returns (all: seq<Course>)
      ensures all == courses
    {
      all := courses;
    }

    /** GET /courses/{name}: the first course whose name equals the query ignoring case. */
    method GetCourseByName(name: string) returns (reply: Reply)
      requires Valid()
      ensures reply.OkCourse? ==> exists i :: FirstNameMatch(courses, name, i) && reply.course == courses[i]
      ensures !reply.OkCourse? ==> reply == Raised(CourseNotFound) && !NameTaken(courses, name)
    {
      var found := FindByName(courses, name);
      if found.None? {
        reply := Raised(CourseNotFound);
        return;
      }
      reply := OkCourse(courses[found.value]);
    }

    /** POST /courses. */
    method AddCourse(course: Course) returns (reply: Reply)
      requires Valid()
      modifies this
      ensures Valid()
      ensures CheckName(course.name).Reject? ==> reply == Raised(CheckName(course.name).error)
      ensures CheckName(course.name).Pass? && CheckCredit(course.credit).Reject? ==>
        reply == Raised(CheckCredit(course.credit).error)
      ensures CheckName(course.name).Pass? && CheckCredit(course.credit).Pass? ==>
        if NameTaken(old(courses), course.name.value) then reply == BadRequest
        else if course.grade.None? then reply == Crashed(NullGrade)
        else reply == Created(course, TotalGpa(gpa, course.grade.value.coefficient, course.credit.value))
      ensures reply.Created? ==> courses == old(courses) + [course]
      ensures !reply.Created? ==> courses == old(courses)
      ensures UniqueNames(old(courses)) ==> UniqueNames(courses)
    {
      var nameCheck := CheckName(course.name);
      if nameCheck.Reject? {
        reply := Raised(nameCheck.error);
        return;
      }
      var creditCheck := CheckCredit(course.credit);
      if creditCheck.Reject? {
        reply := Raised(creditCheck.error);
        return;
      }
      var courseExists := FindByName(courses, course.name.value).Some?;
      if courseExists {
        reply := BadRequest;
        return;
      }
      var credit := course.credit.value;
      if credit < 0 || credit > 4 {
        // The second range check can never fire: checkCredit has already passed.
        assert false;
      }
      if course.grade.None? {
        reply := Crashed(NullGrade);
        return;
      }
      var totalGpa := TotalGpa(gpa, course.grade.value.coefficient, credit);
      if UniqueNames(courses) {
        AppendKeepsUniqueNames(courses, course);
      }
      courses := courses + [course];
      reply := Created(course, totalGpa);
    }

    /** PUT /courses/{id}. The score is computed and then dropped; only the course is answered. */
    method UpdateCourse(id: Option<int>, newCourse: Course) returns (reply: Reply)
      requires Valid()
      modifies this
      ensures Valid()
      ensures CheckId(id).Reject? ==> reply == Raised(CheckId(id).error)
      ensures CheckId(id).Pass? && CheckName(newCourse.name).Reject? ==> reply == Raised(CheckName(newCourse.name).error)
      ensures CheckId(id).Pass? && CheckName(newCourse.name).Pass? && CheckCredit(newCourse.credit).Reject? ==>
        reply == Raised(CheckCredit(newCourse.credit).error)
      ensures CheckId(id).Pass? && CheckName(newCourse.name).Pass? && CheckCredit(newCourse.credit).Pass? ==>
        match FindById(old(courses), id.value)
        case NullIdAt(_) => reply == Crashed(NullId)
        case Absent => reply == NotFound
        case Found(i) =>
          if newCourse.grade.None? then reply == Crashed(NullGrade)
          else courses == old(courses)[i := Overwrite(old(courses)[i], newCourse)] && reply == OkCourse(courses[i])
      ensures !reply.OkCourse? ==> courses == old(courses)
      ensures |courses| == |old(courses)|
      ensures forall j :: 0 <= j < |courses| ==> courses[j].id == old(courses)[j].id
    {
      var idCheck := CheckId(id);
      if idCheck.Reject? {
        reply := Raised(idCheck.error);
        return;
      }
      var nameCheck := CheckName(newCourse.name);
      if nameCheck.Reject? {
        reply := Raised(nameCheck.error);
        return;
      }
      var creditCheck := CheckCredit(newCourse.credit);
      if creditCheck.Reject? {
        reply := Raised(creditCheck.error);
        return;
      }
      var existing := FindById(courses, id.value);
      if existing.NullIdAt? {
        reply := Crashed(NullId);
        return;
      }
      if existing.Absent? {
        reply := NotFound;
        return;
      }
      var credit := newCourse.credit.value;
      if credit < 0 || credit > 4 {
        // The second range check can never fire: checkCredit has already passed.
        assert false;
      }
      if newCourse.grade.None? {
        reply := Crashed(NullGrade);
        return;
      }
      var totalGpa := TotalGpa(gpa, newCourse.grade.value.coefficient, credit);
      var i := existing.index;
      courses := courses[i := Overwrite(courses[i], newCourse)];
      reply := OkCourse(courses[i]);
    }

    /** DELETE /courses/{id}: removes every course with the id. */
    method DeleteCourse(id: Option<int>) returns (reply: Reply)
      requires Valid()
      modifies this
      ensures Valid()
      ensures CheckId(id).Reject? ==> reply == Raised(CheckId(id).error)
      ensures CheckId(id).Pass? && HasNullId(old(courses)) ==> reply == Crashed(NullId)
      ensures CheckId(id).Pass? && !HasNullId(old(courses)) ==>
        courses == RemoveId(old(courses), id.value) &&
        reply == (if HasId(old(courses), id.value) then Ok else NotFound)
      ensures reply != Ok ==> courses == old(courses)
      ensures reply == Ok ==> id.Some? && !HasId(courses, id.value) && !HasNullId(courses)
      ensures UniqueNames(old(courses)) ==> UniqueNames(courses)
    {
      var idCheck := CheckId(id);
      if idCheck.Reject? {
        reply := Raised(idCheck.error);
        return;
      }
      // removeIf tests every element before it removes any, so a null id anywhere throws
      // and leaves the list as it was.
      if HasNullId(courses) {
        reply := Crashed(NullId);
        return;
      }
      var remaining := RemoveId(courses, id.value);
      var removed := |remaining| < |courses|;
      RemoveIdIdempotent(courses, id.value);
      if UniqueNames(courses) {
        RemoveIdKeepsUniqueNames(courses, id.value);
      }
      courses := remaining;
      if removed {
        reply := Ok;
      } else {
        reply := NotFound;
      }
    }
  }
}
