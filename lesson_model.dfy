/** The Lesson schema: field constraints and defaults only. */
module LessonModel {
  import opened Common

  datatype LessonType = Video | Text | Quiz | Assignment

  /** The `enum` constraint on `type`. */
  function ParseType(s: string): (r: Option<LessonType>)
    ensures r.Some? <==> s in {"video", "text", "quiz", "assignment"}
  {
    if s == "video" then Some(Video)
    else if s == "text" then Some(Text)
    else if s == "quiz" then Some(Quiz)
    else if s == "assignment" then Some(Assignment)
    else None
  }

  /** A stored lesson. `videoUrl` is required whatever the type. */
  datatype Lesson = Lesson(
    id: Id,
    title: string,
    kind: LessonType,
    content: Option<string>,
    videoUrl: string,
    duration: Option<string>,
    course: Id,
    order: int)

  /** The fields handed to `Lesson.create`; absent fields are `None`. */
  datatype LessonDraft = LessonDraft(
    title: Option<string>,
    kind: Option<string>,
    content: Option<string>,
    videoUrl: Option<string>,
    duration: Option<string>,
    course: Option<Id>,
    order: Option<int>)

  /** A string path with the `trim` setter and `required`: present and non-blank. */
  predicate RequiredTrimmed(s: Option<string>) {
    s.Some? && Trim(s.value) != ""
  }

  predicate KindOk(k: Option<string>) {
    k.None? || ParseType(k.value).Some?
  }

  /** The messages of the failing paths, in schema order. */
  function LessonErrors(d: LessonDraft): (errs: seq<string>)
    ensures errs == [] <==>
      (RequiredTrimmed(d.title) && KindOk(d.kind) && RequiredTrimmed(d.videoUrl) && d.course.Some?)
  {
    (if RequiredTrimmed(d.title) then [] else ["Please add a lesson title"])
    + (if KindOk(d.kind) then [] else ["`" + d.kind.value + "` is not a valid enum value for path `type`."])
    + (if RequiredTrimmed(d.videoUrl) then [] else ["Please add a video URL"])
    + (if d.course.Some? then [] else ["Path `course` is required."])
  }

  /** Schema validation with setters and defaults applied: `type` defaults to
      video, `order` to 0; `content` and `duration` stay optional. */
  function Validate(id: Id, d: LessonDraft): (r: Checked<Lesson>)
    ensures r.Valid? <==> LessonErrors(d) == []
    ensures r.Invalid? ==> r.messages == LessonErrors(d)
    ensures r.Valid? ==> WellFormed(r.value) && r.value.id == id
    ensures r.Valid? ==>
      && r.value.title == Trim(d.title.value) && r.value.videoUrl == Trim(d.videoUrl.value)
      && r.value.course == d.course.value && r.value.content == d.content && r.value.duration == d.duration
    ensures r.Valid? ==> r.value.kind == (if d.kind.None? then Video else ParseType(d.kind.value).value)
    ensures r.Valid? ==> r.value.order == d.order.GetOr(0)
  {
    var errs := LessonErrors(d);
    if errs != [] then Invalid(errs)
    else Valid(Lesson(id, Trim(d.title.value),
                      if d.kind.None? then Video else ParseType(d.kind.value).value,
                      d.content, Trim(d.videoUrl.value), d.duration, d.course.value, d.order.GetOr(0)))
  }

  /** What every lesson that passed validation satisfies. */
  predicate WellFormed(l: Lesson) {
    l.title != "" && Trimmed(l.title) && l.videoUrl != "" && Trimmed(l.videoUrl)
  }
}
