# Course catalog: a Dafny model

This project models the course catalog of a small Spring REST service. `CourseController` keeps an
in-memory list of courses and has five endpoints: list all, get by name (ignoring case), add
(validated, duplicate names rejected, a weighted score computed), update by id (validated, fields
overwritten in place), and delete by id. `CourseValidation` has three static checks (name, credit,
id). Each check either passes or throws an exception that answers 400.

The model has these modules:

- `Wrappers`: `Option`, standing for Java's nullable references.
- `Exceptions`: the HTTP statuses, and `ApiError`, which models `ApiExceptions` (a message and a status).
- `JavaStrings`: `String.equalsIgnoreCase`, restricted to ASCII case mapping. It is proved equal to
  equality after folding to lower case, and so to be an equivalence. Also `Integer.toString`, with a
  reading-back round trip; the `checkId` message concatenates the id.
- `Entity`: `Course`, where every field is an `Option` (boxed and nullable in Java), and `Grade`,
  which has an integer coefficient and a letter.
- `Validation`: `CheckName`, `CheckCredit` and `CheckId`. Each returns `Pass` or `Reject(ApiError)`
  with the source's exact message and status 400.
- `Gpa`: the credit tiers (credit up to 2 is low, 3 is medium, anything else is high), the three
  injected multipliers (plain integer parameters), and the score
  `coefficient * credit * multiplier`.
- `Controller`: the pure lookups (`FindByName`, `FindById`, `RemoveId`), the `Reply` datatype, and
  the class `CourseController`. The class holds `courses: seq<Course>` and has one method per
  endpoint. Each method's `ensures` gives the reply and the new list for every branch of the source.
- `Scenarios`: client methods that drive the class through example request sequences. These cover add,
  a duplicate in another case, lookup, update, delete twice, every validation failure, a null grade,
  a null stored id, and a rename onto an existing name. They use the contracts alone.

`Reply` collapses `ResponseEntity` and the exception handlers into one datatype:
- `Ok` and `OkCourse` answer 200.
- `Created(course, totalGpa)` answers 201.
- `BadRequest` and `NotFound` are the empty-bodied 400 and 404.
- `Raised(ApiError)` is an `ApiExceptions`, which answers its own status.
- `Crashed(fault)` is a `NullPointerException`, which the generic handler answers with 500.

Behaviour of the code worth noting:

- A duplicate name on add answers an empty 400.
- The validation messages are the code's own strings.
- Delete removes every course with the id (`removeIf`).
- Ids are never checked for uniqueness or presence on add, so a course with a null id can be
  stored. After that, `removeIf` in delete throws on every call (500, list unchanged). So does the
  `findFirst` in update whenever it reaches that course before a match.
- The list is not synchronised.
- The second credit range check in add and in update cannot fire once `checkCredit` has passed.
  The model proves this with `assert false` in that branch.

## Model

| member | source | states |
|---|---|---|
| `Validation.CheckName` | src/main/java/com/S17Challenge/SpringRestAPI/validation/CourseValidation.java:9-13 | passes iff the name is present and not the empty string (no trimming); otherwise throws "Name cannot be null or empty" with status BAD_REQUEST |
| `Validation.CheckCredit` | src/main/java/com/S17Challenge/SpringRestAPI/validation/CourseValidation.java:15-19 | passes iff the credit is one of 0, 1, 2, 3, 4 (null rejected); otherwise throws "Credit must be between 0 and 4!" with status BAD_REQUEST |
| `Validation.CheckId` | src/main/java/com/S17Challenge/SpringRestAPI/validation/CourseValidation.java:21-25 | passes iff the id is present and at least 0; otherwise throws BAD_REQUEST whose message is the fixed prefix followed by the id's text ("null" for null) |
| `Validation.CheckBoundaries` | src/main/java/com/S17Challenge/SpringRestAPI/validation/CourseValidation.java:9-25 | " " passes checkName while "" and null fail; credits 0 and 4 pass while -1, 5 and null fail; id 0 passes while -1 and null fail |
| `Validation.IdMessageNamesId` | src/main/java/com/S17Challenge/SpringRestAPI/validation/CourseValidation.java:23 | the message for a negative id is the prefix followed by a minus sign and digits that read back as that id |
| `JavaStrings.IntText` | src/main/java/com/S17Challenge/SpringRestAPI/validation/CourseValidation.java:23 | the decimal text of an int is non-empty and starts with '-' exactly when the int is negative |
| `JavaStrings.IntTextRoundTrip` | src/main/java/com/S17Challenge/SpringRestAPI/validation/CourseValidation.java:23 | reading the decimal text of any int back gives that int |
| `JavaStrings.EqualsIgnoreCaseIsFoldEquality` | src/main/java/com/S17Challenge/SpringRestAPI/controller/CourseController.java:69 | Java's per-character ignore-case test holds of two strings iff they are equal after lower-casing |
| `JavaStrings.EqualsIgnoreCaseTransitive` | src/main/java/com/S17Challenge/SpringRestAPI/controller/CourseController.java:94 | equality ignoring case is transitive (with reflexivity and symmetry, an equivalence), so a duplicate check in one case covers every case |
| `Gpa.TierOf` | src/main/java/com/S17Challenge/SpringRestAPI/controller/CourseController.java:105-110 | credit at most 2 is the low tier, exactly 3 the medium tier, at least 4 the high tier, each iff |
| `Gpa.TotalGpaByTier` | src/main/java/com/S17Challenge/SpringRestAPI/controller/CourseController.java:104-111 | the inline if/else score equals coefficient * credit * the multiplier of the credit's tier |
| `Gpa.MultiplierTable` | src/main/java/com/S17Challenge/SpringRestAPI/controller/CourseController.java:140-147 | on credits 0 to 4 the multiplier is low, low, low, medium, high; a zero coefficient or zero credit scores 0, whatever the other operand |
| `Controller.FindByName` | src/main/java/com/S17Challenge/SpringRestAPI/controller/CourseController.java:68-70 | returns the index of the first course, in list order, whose name equals the query ignoring case; none iff no course matches (its presence is `anyMatch`) |
| `Controller.AppendedCourseIsFound` | src/main/java/com/S17Challenge/SpringRestAPI/controller/CourseController.java:93-113 | after a course passes the duplicate check and is appended, a lookup by its name in any case finds exactly that course |
| `Controller.AppendKeepsUniqueNames` | src/main/java/com/S17Challenge/SpringRestAPI/controller/CourseController.java:93-98 | appending a course whose name no entry matches keeps all names distinct ignoring case |
| `Controller.FindById` | src/main/java/com/S17Challenge/SpringRestAPI/controller/CourseController.java:127-129 | returns the first course with the id. It reports the first null id met before any match, where Java throws. It is absent iff every id is present and different |
| `Controller.RemoveId` | src/main/java/com/S17Challenge/SpringRestAPI/controller/CourseController.java:164 | drops every course with the id and keeps every other course as often as before; removes something iff some course had the id, else returns the list unchanged |
| `Controller.RemoveIdDistributes` | src/main/java/com/S17Challenge/SpringRestAPI/controller/CourseController.java:164 | removal distributes over concatenation, so the survivors keep their order |
| `Controller.RemoveIdIdempotent` | src/main/java/com/S17Challenge/SpringRestAPI/controller/CourseController.java:164-170 | after removal no course has the id, a second removal changes nothing, and no null id is introduced |
| `Controller.RemoveIdKeepsUniqueNames` | src/main/java/com/S17Challenge/SpringRestAPI/controller/CourseController.java:164 | removal keeps a list with distinct names distinct |
| `Controller.UpdateCanDuplicateNames` | src/main/java/com/S17Challenge/SpringRestAPI/controller/CourseController.java:149-151 | overwriting one course with another course's name always breaks name uniqueness, as update performs no uniqueness check |
| `Controller.CourseController.constructor` | src/main/java/com/S17Challenge/SpringRestAPI/controller/CourseController.java:32-36 | stores the three injected multipliers |
| `Controller.CourseController.Init` | src/main/java/com/S17Challenge/SpringRestAPI/controller/CourseController.java:41-44 | the list is empty afterwards |
| `Controller.CourseController.GetAll` | src/main/java/com/S17Challenge/SpringRestAPI/controller/CourseController.java:46-50 | returns exactly the current list, in insertion order, and changes nothing |
| `Controller.CourseController.GetCourseByName` | src/main/java/com/S17Challenge/SpringRestAPI/controller/CourseController.java:66-78 | answers the first course whose name equals the query ignoring case; if none matches, raises "Course not found" with NOT_FOUND |
| `Controller.CourseController.AddCourse` | src/main/java/com/S17Challenge/SpringRestAPI/controller/CourseController.java:87-117 | checks the name, then the credit, then duplicates. A duplicate name in any case gives an empty 400. Then a null grade gives a 500. Otherwise it answers 201 with the course and its tier score and appends the course. The list changes only on 201, and unique names stay unique |
| `Controller.CourseController.UpdateCourse` | src/main/java/com/S17Challenge/SpringRestAPI/controller/CourseController.java:120-155 | checks the id, name and credit, then finds the first course with the id. A null id scanned first gives 500; no match gives 404; a null grade gives 500. Each failure leaves the list unchanged. Otherwise it overwrites that course's name, credit and grade, leaves its id and all other entries alone, and answers the updated course without the score. There is no name-uniqueness check |
| `Controller.CourseController.DeleteCourse` | src/main/java/com/S17Challenge/SpringRestAPI/controller/CourseController.java:159-171 | checks the id. A null id anywhere in the list gives 500 with the list unchanged. Otherwise it removes every course with the id and answers 200 iff any was removed, else 404 with the list unchanged. Afterwards no course has the id, and unique names stay unique |

## Left out

- HTTP and Spring plumbing is not modelled. This covers the mapping annotations, `ResponseEntity`
  construction, JSON (de)serialisation, the logging and `System.currentTimeMillis()` timestamps of
  `GlobalExceptionHandler`, and `ApiErrorResponse`. `Reply.Status` keeps only the status each
  reply ends in.
- Crashed: the message of a `NullPointerException` that the generic handler puts in its body is not modelled.
- The `CourseGpa` bean classes are not part of this model, so their `getGpa()` values are three
  unconstrained integer parameters. `CourseGpaConfig` only wires them.
- The `Grade` class is not part of this model. `Grade` is taken to have an `int` coefficient, so a
  null `Integer` coefficient is not modelled.
- Gpa.TotalGpa: uses mathematical integers and does not model Java `int` overflow of the product.
- JavaStrings.EqualsIgnoreCase: maps only the ASCII letters. Java's Unicode case mapping is not
  modelled.
- Object identity is not modelled. Each stored course is a separate object deserialised from its own
  request and never shared, so update's setters are modelled by replacing that one list element.
- Before `init` runs, the Java list is null. The model's constructor already holds an empty list,
  because Spring always calls `init` before any request.
- Concurrency is not modelled: the source list is unsynchronised and has no locking.
- UpdateCourse: the score is computed and dropped, as in the source. Because it is never answered,
  no contract mentions it.
- The integration tests are used only as evidence of the expected statuses. They appear as the
  client methods in `Scenarios`.
