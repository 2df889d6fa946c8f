/** The Course entity: every field is a nullable boxed Java value. */
module Entity {
  import opened Wrappers

  /** A letter grade and the integer coefficient the score multiplies by. */
  datatype Grade = Grade(coefficient: int, letter: string)

  datatype Course = Course(id: Option<int>, name: Option<string>, credit: Option<int>, grade: Option<Grade>)
}
