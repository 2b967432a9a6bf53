/** The Course schema: required fields, the default image, the `lessons`
    virtual (a reverse lookup, never stored) and the cascade hook. */
module CourseModel {
  import opened Common
  import opened LessonModel

  const PlaceholderImage := "https://via.placeholder.com/300"

  /** A stored course. `students` is a list of user references with no
      uniqueness constraint. */
  datatype Course = Course(
    id: Id,
    title: string,
    description: string,
    instructor: Id,
    students: seq<Id>,
    category: string,
    image: string)

  /** The fields handed to `Course.create`; absent fields are `None`. */
  datatype CourseDraft = CourseDraft(
    title: Option<string>,
    description: Option<string>,
    instructor: Option<Id>,
    students: Option<seq<Id>>,
    category: Option<string>,
    image: Option<string>)

  /** A required string path is satisfied by a non-empty string. */
  predicate Present(s: Option<string>) {
    s.Some? && s.value != ""
  }

  /** The title after the `trim` setter. */
  function TrimmedTitle(d: CourseDraft): Option<string> {
    if d.title.Some? then Some(Trim(d.title.value)) else None
  }

  function CourseErrors(d: CourseDraft): (errs: seq<string>)
    ensures errs == [] <==>
      (Present(TrimmedTitle(d)) && Present(d.description) && d.instructor.Some? && Present(d.category))
  {
    (if Present(TrimmedTitle(d)) then [] else ["Please add a course title"])
    + (if Present(d.description) then [] else ["Please add a description"])
    + (if d.instructor.Some? then [] else ["Path `instructor` is required."])
    + (if Present(d.category) then [] else ["Please add a category"])
  }

  /** Schema validation with setters and defaults applied. */
  function Validate(id: Id, d: CourseDraft): (r: Checked<Course>)
    ensures r.Valid? <==> CourseErrors(d) == []
    ensures r.Invalid? ==> r.messages == CourseErrors(d)
    ensures r.Valid? ==> WellFormed(r.value) && r.value.id == id
    ensures r.Valid? ==>
      && r.value.title == Trim(d.title.value) && r.value.description == d.description.value
      && r.value.instructor == d.instructor.value && r.value.category == d.category.value
    ensures r.Valid? ==> r.value.students == d.students.GetOr([])
    ensures r.Valid? ==> r.value.image == d.image.GetOr(PlaceholderImage)
  {
    var errs := CourseErrors(d);
    if errs != [] then Invalid(errs)
    else Valid(Course(id, Trim(d.title.value), d.description.value, d.instructor.value,
                      d.students.GetOr([]), d.category.value, d.image.GetOr(PlaceholderImage)))
  }

  /** What every stored course satisfies: a non-empty trimmed title and the
      other required strings non-empty. */
  predicate WellFormed(c: Course) {
    c.title != "" && Trimmed(c.title) && c.description != "" && c.category != ""
  }

  /** The `lessons` virtual: every lesson whose `course` is this course's id, in store order. */
  function LessonsOf(lessons: seq<Lesson>, courseId: Id): (r: seq<Lesson>)
    ensures forall l :: l in r <==> l in lessons && l.course == courseId
  {
    FilterMembers(lessons, (l: Lesson) => l.course == courseId);
    Filter(lessons, (l: Lesson) => l.course == courseId)
  }

  /** The lessons `deleteMany({ course: id })` spares. */
  function OutsideCourse(courseId: Id): Lesson -> bool {
    (l: Lesson) => l.course != courseId
  }

  /** The `pre('remove')` hook: `Lesson.deleteMany({ course: id })`. */
  function RemoveHook(lessons: seq<Lesson>, courseId: Id): (r: seq<Lesson>)
    ensures forall l :: l in r <==> l in lessons && l.course != courseId
  {
    FilterMembers(lessons, OutsideCourse(courseId));
    Filter(lessons, OutsideCourse(courseId))
  }

  /** The hook deletes without touching the other lessons, so their ids stay distinct. */
  lemma RemoveHookKeepsDistinct(lessons: seq<Lesson>, courseId: Id, key: Lesson -> int)
    requires DistinctKeys(lessons, key)
    ensures DistinctKeys(RemoveHook(lessons, courseId), key)
  {
    DistinctFilter(lessons, OutsideCourse(courseId), key);
  }
}
