/** The course catalogue handlers: the paginated listing, reading one course,
    and creating, updating and deleting a course under the owner-or-admin rule. */
module CourseController {
  import opened Common
  import opened CourseModel
  import opened LessonModel
  import opened ProgressModel
  import opened Store
  import EnrollmentController

  // ---------------------------------------------------------------- parseInt

  /** The unsigned part of `parseInt`: a `0x` prefix selects hexadecimal, then
      the longest run of digits is read; no digits at all is NaN (`None`). */
  function Unsigned(u: string): (r: Option<nat>) {
    var hex := |u| >= 2 && u[0] == '0' && (u[1] == 'x' || u[1] == 'X');
    var radix := if hex then 16 else 10;
    var body := if hex then u[2..] else u;
    var n := DigitRun(body, radix);
    if n == 0 then None else Some(ValueOf(body[..n], radix))
  }

  /** `parseInt(s)` with no radix: leading white space, an optional sign, then
      the unsigned part; `None` is NaN (no digits at all, or no parameter). */
  function ParseInt(s: Option<string>): (r: Option<int>)
    ensures s.None? ==> r.None?
  {
    if s.None? then None
    else
      var t := TrimStart(s.value);
      if t != [] && t[0] == '-' then
        (match Unsigned(t[1..])
         case None => None
         case Some(v) => Some(-(v as int)))
      else if t != [] && t[0] == '+' then
        (match Unsigned(t[1..])
         case None => None
         case Some(v) => Some(v as int))
      else
        (match Unsigned(t)
         case None => None
         case Some(v) => Some(v as int))
  }

  /** `parseInt(q) || d`: NaN and 0 (also -0) are falsy and give the default. */
  function OrDefault(v: Option<int>, d: int): (r: int)
    ensures r != 0 || d == 0
  {
    if v.None? || v.value == 0 then d else v.value
  }

  /** The query parameter `page`, defaulting to 1. */
  function PageParam(q: Option<string>): (page: int)
    ensures page != 0
  {
    OrDefault(ParseInt(q), 1)
  }

  /** The query parameter `limit`, defaulting to 50. */
  function LimitParam(q: Option<string>): (limit: int)
    ensures limit != 0
  {
    OrDefault(ParseInt(q), 50)
  }

  lemma UnsignedDecimal(n: nat)
    ensures Unsigned(DecimalString(n)) == Some(n)
  {
    var s := DecimalString(n);
    DecimalValue(n);
    assert !(|s| >= 2 && s[0] == '0' && (s[1] == 'x' || s[1] == 'X'));
    assert s[..|s|] == s;
  }

  /** `parseInt(String(n)) === n`: a page or limit written in decimal is read back. */
  lemma ParseIntDecimal(n: nat)
    ensures ParseInt(Some(DecimalString(n))) == Some(n)
  {
    UnsignedDecimal(n);
    ParseIntDigits(DecimalString(n), n);
  }

  /** A string of decimal digits is read by its unsigned part alone. */
  lemma ParseIntDigits(s: string, v: nat)
    requires |s| >= 1 && forall i :: 0 <= i < |s| ==> '0' <= s[i] <= '9'
    requires Unsigned(s) == Some(v)
    ensures ParseInt(Some(s)) == Some(v)
  {
    assert !IsSpace(s[0]);
    assert TrimStart(s) == s;
    assert s[0] != '-' && s[0] != '+';
  }

  /** Absent, non-numeric and zero parameters give the defaults 1 and 50; any
      other decimal value is used as written. */
  lemma PaginationDefaults(n: nat)
    ensures PageParam(None) == 1 && LimitParam(None) == 50
    ensures PageParam(Some("abc")) == 1 && LimitParam(Some("abc")) == 50
    ensures PageParam(Some(DecimalString(n))) == if n == 0 then 1 else n
    ensures LimitParam(Some(DecimalString(n))) == if n == 0 then 50 else n
  {
    ParseIntDecimal(n);
    assert TrimStart("abc") == "abc";
    assert DigitRun("abc", 10) == 0;
  }

  /** A negative page or limit is not rejected: `-n` parses to -n and is kept. */
  lemma NegativePageKept(n: nat)
    requires n > 0
    ensures PageParam(Some("-" + DecimalString(n))) == -(n as int)
    ensures LimitParam(Some("-" + DecimalString(n))) == -(n as int)
  {
    var s := "-" + DecimalString(n);
    assert !IsSpace(s[0]);
    assert TrimStart(s) == s;
    assert s[1..] == DecimalString(n);
    UnsignedDecimal(n);
  }

  /** A `0x` prefix is read as hexadecimal: `parseInt("0x1F")` is 31, and
      `Infinity` has no digits, so it is NaN and gives the default page. */
  lemma HexAndInfinity()
    ensures ParseInt(Some("0x1F")) == Some(31)
    ensures PageParam(Some("Infinity")) == 1
  {
    assert TrimStart("0x1F") == "0x1F";
    assert "0x1F"[2..] == "1F";
    assert DigitRun("F", 16) == 1;
    assert DigitRun("1F", 16) == 2;
    assert "1F"[..2] == "1F";
    assert "1F"[..1] == "1";
    assert "1"[..0] == "";
    assert ValueOf("1", 16) == 1;
    assert ValueOf("1F", 16) == 31;
    assert Unsigned("0x1F") == Some(31);
    assert TrimStart("Infinity") == "Infinity";
    assert DigitRun("Infinity", 10) == 0;
  }

  // ---------------------------------------------------------------- getCourses

  /** `Math.ceil(total / limit)` for a non-zero limit of either sign. */
  function Pages(total: nat, limit: int): (pages: int)
    requires limit != 0
    ensures limit > 0 ==> pages >= 0
  {
    if limit > 0 then (total + limit - 1) / limit else -(total / -limit)
  }

  /** With a positive limit the pages exactly cover the results: none when there
      are none, otherwise the last page is the one holding the last result. */
  lemma PagesBounds(total: nat, limit: int)
    requires limit > 0
    ensures Pages(total, limit) == 0 <==> total == 0
    ensures total > 0 ==> (Pages(total, limit) - 1) * limit < total <= Pages(total, limit) * limit
  {
    var p := Pages(total, limit);
    assert p * limit <= total + limit - 1 < (p + 1) * limit;
  }

  function Abs(x: int): nat { if x < 0 then -x else x }

  function Min(a: int, b: int): int { if a <= b then a else b }

  /** `cursor.skip(skip).limit(limit)`: a negative skip is refused by the
      database; a negative limit returns at most |limit| documents. */
  function Window<T>(s: seq<T>, skip: int, limit: int): (r: Option<seq<T>>)
    requires limit != 0
    ensures r.None? <==> skip < 0
    ensures r.Some? ==> |r.value| <= |s| && |r.value| <= (if limit > 0 then limit else -limit)
    ensures r.Some? ==> forall j :: 0 <= j < |r.value| ==> skip + j < |s| && r.value[j] == s[skip + j]
    ensures r.Some? && skip <= |s| ==> |r.value| == Min(Abs(limit), |s| - skip)
  {
    if skip < 0 then None
    else
      var rest := if skip <= |s| then s[skip..] else [];
      var n := if limit > 0 then limit else -limit;
      Some(if n <= |rest| then rest[..n] else rest)
  }

  /** The query parameters the handler reads. */
  datatype ListQuery = ListQuery(page: Option<string>, limit: Option<string>, search: Option<string>, instructor: Option<Id>)

  /** The body of a 200 answer (`success` is always true). */
  datatype Listing = Listing(count: nat, total: nat, page: int, pages: int, data: seq<Course>)

  function ByInstructor(instructor: Option<Id>): Course -> bool {
    (c: Course) => instructor.None? || c.instructor == instructor.value
  }

  /** `getCourses`. A non-empty `search` asks for a `$text` query, which needs a
      text index that the course schema does not declare, so the query fails
      and the handler answers 500. */
  function GetCourses(t: Tables, q: ListQuery): (r: Response<Listing>)
    ensures Truthy(q.search) ==> r == Failure(500, "Server Error")
    ensures r.Success? ==> r.code == 200 && r.body.count == |r.body.data|
    ensures r.Success? ==> r.body.total == CountWhere(t.courses, ByInstructor(q.instructor))
    ensures r.Success? ==> forall c :: c in r.body.data ==> ByInstructor(q.instructor)(c)
  {
    var page := PageParam(q.page);
    var limit := LimitParam(q.limit);
    if Truthy(q.search) then Failure(500, "Server Error")
    else
      var matching := Filter(t.courses, ByInstructor(q.instructor));
      FilterMembers(t.courses, ByInstructor(q.instructor));
      match Window(matching, (page - 1) * limit, limit)
      case None => Failure(500, "Server Error")
      case Some(data) =>
        Success(200, Listing(|data|, |matching|, page, Pages(|matching|, limit), data))
  }

  /** A negative skip, `(page - 1) * limit < 0`, is a 500. */
  lemma NegativeSkipFails(t: Tables, q: ListQuery)
    requires !Truthy(q.search)
    requires (PageParam(q.page) - 1) * LimitParam(q.limit) < 0
    ensures GetCourses(t, q) == Failure(500, "Server Error")
  {
  }

  /** With a positive limit every matching course is listed on exactly one page:
      result `i` is entry `i % limit` of the window of page `i / limit + 1`, and
      that page is one of the `pages` reported. */
  lemma PageOfResult<T>(matching: seq<T>, limit: int, i: nat)
    requires limit > 0 && i < |matching|
    ensures var page := i / limit + 1;
      var data := Window(matching, (page - 1) * limit, limit);
      && data.Some?
      && i % limit < |data.value|
      && data.value[i % limit] == matching[i]
      && 1 <= page <= Pages(|matching|, limit)
  {
    var page := i / limit + 1;
    var skip := (page - 1) * limit;
    SplitIndex(i, limit);
    assert skip + i % limit == i;
    var data := Window(matching, skip, limit).value;
    assert |data| == Min(limit, |matching| - skip);
    PageWithinPages(i, limit, |matching|);
  }

  /** An accepted listing is the window of the matching courses the page selects. */
  lemma ListingShape(t: Tables, q: ListQuery)
    requires !Truthy(q.search)
    requires (PageParam(q.page) - 1) * LimitParam(q.limit) >= 0
    ensures var matching := Filter(t.courses, ByInstructor(q.instructor));
      var limit := LimitParam(q.limit);
      var data := Window(matching, (PageParam(q.page) - 1) * limit, limit).value;
      GetCourses(t, q) == Success(200, Listing(|data|, |matching|, PageParam(q.page), Pages(|matching|, limit), data))
  {
  }

  lemma SplitIndex(i: nat, limit: int)
    requires limit > 0
    ensures (i / limit) * limit + i % limit == i
    ensures 0 <= i % limit < limit
  {
  }

  /** The page holding result `i` is one of the pages reported. */
  lemma PageWithinPages(i: nat, limit: int, total: nat)
    requires limit > 0 && i < total
    ensures 1 <= i / limit + 1 <= Pages(total, limit)
  {
    PagesBounds(total, limit);
    var p := Pages(total, limit);
    SplitIndex(i, limit);
    if i / limit + 1 > p {
      MulMono(p, i / limit, limit);
    }
  }

  lemma MulMono(a: int, b: int, c: int)
    requires a <= b && c > 0
    ensures a * c <= b * c
  {
  }

  // ---------------------------------------------------------------- getCourse

  /** A course with its `lessons` virtual filled in. */
  datatype CourseView = CourseView(course: Course, lessons: seq<Lesson>)

  /** `getCourse`: the course and exactly its lessons, or 404. */
  function GetCourse(t: Tables, id: Id): (r: Response<CourseView>)
    ensures r.Failure? <==> forall c :: c in t.courses ==> c.id != id
    ensures r.Failure? ==> r == Failure(404, "Course not found")
    ensures r.Success? ==> r.body.course in t.courses && r.body.course.id == id
    ensures r.Success? ==> forall l :: l in r.body.lessons <==> l in t.lessons && l.course == id
  {
    match FindCourse(t.courses, id)
    case None => Failure(404, "Course not found")
    case Some(i) => Success(200, CourseView(t.courses[i], LessonsOf(t.lessons, id)))
  }

  // ---------------------------------------------------------------- owner-or-admin

  /** The check shared by the course and lesson handlers: the caller is the
      course's instructor or an admin. */
  predicate CanManage(c: Course, caller: User) {
    c.instructor == caller.id || caller.role == "admin"
  }

  // ---------------------------------------------------------------- createCourse

  /** `createCourse`: the body's `instructor` is overwritten with the caller's id,
      then the schema decides: 400 with the joined messages, or 201 with the new course. */
  function CreateCourse(t: Tables, caller: User, body: CourseDraft): EnrollmentController.Step<Course> {
    match CourseModel.Validate(t.nextId, body.(instructor := Some(caller.id)))
    case Invalid(messages) => EnrollmentController.Step(t, Failure(400, Join(messages)))
    case Valid(c) =>
      EnrollmentController.Step(t.(courses := t.courses + [c], nextId := t.nextId + 1), Success(201, c))
  }

  method CreateCourseIn(db: Db, caller: User, body: CourseDraft) returns (response: Response<Course>)
    requires db.Valid()
    modifies db
    ensures db.Valid()
    ensures EnrollmentController.Step(db.Snapshot(), response) == CreateCourse(old(db.Snapshot()), caller, body)
  {
    ghost var t := db.Snapshot();
    var draft := body.(instructor := Some(caller.id));
    var checked := CourseModel.Validate(db.nextId, draft);
    CreateCourseCases(t, caller, body);
    if checked.Invalid? {
      return Failure(400, Join(checked.messages));
    }
    db.InsertCourse(checked.value);
    response := Success(201, checked.value);
  }

  /** The two outcomes of `createCourse`, by the schema's verdict. */
  lemma CreateCourseCases(t: Tables, caller: User, body: CourseDraft)
    ensures var checked := CourseModel.Validate(t.nextId, body.(instructor := Some(caller.id)));
      && (checked.Invalid? ==> CreateCourse(t, caller, body) == EnrollmentController.Step(t, Failure(400, Join(checked.messages))))
      && (checked.Valid? ==>
            CreateCourse(t, caller, body) == EnrollmentController.Step(t.(courses := t.courses + [checked.value], nextId := t.nextId + 1), Success(201, checked.value)))
  {
  }

  lemma CreateKeepsConsistent(t: Tables, caller: User, body: CourseDraft)
    requires Consistent(t)
    ensures Consistent(CreateCourse(t, caller, body).tables)
  {
    var checked := CourseModel.Validate(t.nextId, body.(instructor := Some(caller.id)));
    if checked.Valid? {
      var cs := t.courses + [checked.value];
      forall x | x in cs ensures x.id < t.nextId + 1 && CourseModel.WellFormed(x) {
        if x != checked.value {
          assert x in t.courses;
        }
      }
      DistinctSnoc(t.courses, checked.value, CourseKey);
      FreshIdKeeps(t);
      CoursesKeep(t.(nextId := t.nextId + 1), cs);
      assert t.(nextId := t.nextId + 1).(courses := cs) == CreateCourse(t, caller, body).tables;
    }
  }

  /** The creator is always the instructor, whatever the body says, and the only
      reasons for refusal are the schema's: the outcome does not depend on the
      body's `instructor`. */
  lemma CreatorIsInstructor(t: Tables, caller: User, body: CourseDraft, other: Option<Id>)
    ensures var s := CreateCourse(t, caller, body);
      s.response.Success? ==> s.response.code == 201 && s.response.body.instructor == caller.id
    ensures CreateCourse(t, caller, body.(instructor := other)) == CreateCourse(t, caller, body)
  {
    assert body.(instructor := other).(instructor := Some(caller.id)) == body.(instructor := Some(caller.id));
  }

  /** A body missing a required field is refused with 400 and nothing is stored;
      a complete one is stored at the end, under a fresh id. */
  lemma CreateOutcome(t: Tables, caller: User, body: CourseDraft)
    ensures var s := CreateCourse(t, caller, body);
      && (s.response.Success? <==> Present(TrimmedTitle(body)) && Present(body.description) && Present(body.category))
      && (s.response.Failure? ==> s.response.code == 400 && s.tables == t)
      && (s.response.Success? ==> s.tables.courses == t.courses + [s.response.body] && s.response.body.id == t.nextId)
  {
  }

  // ---------------------------------------------------------------- updateCourse

  /** The fields of a `PUT` body; absent fields are `None` and left as they are. */
  datatype CoursePatch = CoursePatch(
    title: Option<string>,
    description: Option<string>,
    instructor: Option<Id>,
    students: Option<seq<Id>>,
    category: Option<string>,
    image: Option<string>)

  /** `findByIdAndUpdate(id, body, { runValidators: true })`: the title setter
      trims, the update validators check only the paths being set, and a
      required path set to '' fails. */
  function ApplyPatch(c: Course, p: CoursePatch): (r: Option<Course>)
    ensures r.None? <==>
      (p.title.Some? && Trim(p.title.value) == "") || (p.description.Some? && p.description.value == "")
      || (p.category.Some? && p.category.value == "")
    ensures r.Some? ==> r.value.id == c.id
    ensures r.Some? ==> r.value.title == if p.title.Some? then Trim(p.title.value) else c.title
    ensures r.Some? ==> r.value.description == p.description.GetOr(c.description)
    ensures r.Some? ==> r.value.instructor == p.instructor.GetOr(c.instructor)
    ensures r.Some? ==> r.value.students == p.students.GetOr(c.students)
    ensures r.Some? ==> r.value.category == p.category.GetOr(c.category)
    ensures r.Some? ==> r.value.image == p.image.GetOr(c.image)
    ensures r.Some? && CourseModel.WellFormed(c) ==> CourseModel.WellFormed(r.value)
  {
    var title := if p.title.Some? then Trim(p.title.value) else c.title;
    var description := if p.description.Some? then p.description.value else c.description;
    var category := if p.category.Some? then p.category.value else c.category;
    if (p.title.Some? && title == "") || (p.description.Some? && description == "")
       || (p.category.Some? && category == "") then None
    else
      var r := Course(c.id, title, description, p.instructor.GetOr(c.instructor),
                      p.students.GetOr(c.students), category, p.image.GetOr(c.image));
      assert CourseModel.WellFormed(c) ==> CourseModel.WellFormed(r) by {
        if CourseModel.WellFormed(c) {
          assert title != "" && Trimmed(title);
          assert description != "" && category != "";
        }
      }
      Some(r)
  }

  /** `updateCourse`: 404, 403 for a caller who may not manage the course, 500
      when an update validator fails (the handler has no 400 branch), else 200
      with the updated course. */
  function UpdateCourse(t: Tables, caller: User, id: Id, patch: CoursePatch): EnrollmentController.Step<Course> {
    match FindCourse(t.courses, id)
    case None => EnrollmentController.Step(t, Failure(404, "Course not found"))
    case Some(i) =>
      if !CanManage(t.courses[i], caller) then
        EnrollmentController.Step(t, Failure(403, "Not authorized to update this course"))
      else
        match ApplyPatch(t.courses[i], patch)
        case None => EnrollmentController.Step(t, Failure(500, "Server Error"))
        case Some(c) => EnrollmentController.Step(t.(courses := t.courses[i := c]), Success(200, c))
  }

  method UpdateCourseIn(db: Db, caller: User, id: Id, patch: CoursePatch) returns (response: Response<Course>)
    requires db.Valid()
    modifies db
    ensures db.Valid()
    ensures EnrollmentController.Step(db.Snapshot(), response) == UpdateCourse(old(db.Snapshot()), caller, id, patch)
  {
    UpdateKeepsConsistent(db.Snapshot(), caller, id, patch);
    var found := FindCourse(db.courses, id);
    if found.None? {
      return Failure(404, "Course not found");
    }
    var course := db.courses[found.value];
    if !CanManage(course, caller) {
      return Failure(403, "Not authorized to update this course");
    }
    var updated := ApplyPatch(course, patch);
    if updated.None? {
      return Failure(500, "Server Error");
    }
    db.courses := db.courses[found.value := updated.value];
    response := Success(200, updated.value);
  }

  lemma UpdateKeepsConsistent(t: Tables, caller: User, id: Id, patch: CoursePatch)
    requires Consistent(t)
    ensures Consistent(UpdateCourse(t, caller, id, patch).tables)
  {
    var found := FindCourse(t.courses, id);
    if found.Some? && CanManage(t.courses[found.value], caller) {
      var i := found.value;
      assert t.courses[i] in t.courses;
      var updated := ApplyPatch(t.courses[i], patch);
      if updated.Some? {
        ReplaceCourseKeeps(t, i, updated.value);
      }
    }
  }

  /** Update and delete refuse a caller who is neither the instructor nor an
      admin with 403 and change nothing; a missing course is 404. */
  lemma ManageGuards(t: Tables, caller: User, id: Id, patch: CoursePatch)
    ensures (forall c :: c in t.courses ==> c.id != id) ==>
      && UpdateCourse(t, caller, id, patch) == EnrollmentController.Step(t, Failure(404, "Course not found"))
      && DeleteCourse(t, caller, id) == EnrollmentController.Step(t, Failure(404, "Course not found"))
    ensures var found := FindCourse(t.courses, id);
      found.Some? && !CanManage(t.courses[found.value], caller) ==>
        && UpdateCourse(t, caller, id, patch) == EnrollmentController.Step(t, Failure(403, "Not authorized to update this course"))
        && DeleteCourse(t, caller, id) == EnrollmentController.Step(t, Failure(403, "Not authorized to delete this course"))
  {
  }

  /** A successful update changes only the one course, keeps its id, and leaves
      lessons, progress and users alone. */
  lemma UpdateTouchesOneCourse(t: Tables, caller: User, id: Id, patch: CoursePatch)
    ensures var s := UpdateCourse(t, caller, id, patch);
      s.response.Success? ==>
        && s.response.code == 200 && s.response.body.id == id
        && |s.tables.courses| == |t.courses|
        && (forall k :: 0 <= k < |t.courses| && t.courses[k].id != id ==> s.tables.courses[k] == t.courses[k])
        && s.tables.lessons == t.lessons && s.tables.progress == t.progress && s.tables.users == t.users
  {
  }

  /** What an allowed update writes: a blank title, description or category
      fails the update validators and answers 500 with nothing changed;
      otherwise the course at its place becomes the patched course, whose
      title is the body's title trimmed, or the old one. */
  lemma UpdateCourseWrites(t: Tables, caller: User, id: Id, patch: CoursePatch, i: nat)
    requires FindCourse(t.courses, id) == Some(i) && CanManage(t.courses[i], caller)
    ensures var s := UpdateCourse(t, caller, id, patch);
      && (s.response.Failure? <==>
            (patch.title.Some? && Trim(patch.title.value) == "")
            || (patch.description.Some? && patch.description.value == "")
            || (patch.category.Some? && patch.category.value == ""))
      && (s.response.Failure? ==> s == EnrollmentController.Step(t, Failure(500, "Server Error")))
      && (s.response.Success? ==>
            && ApplyPatch(t.courses[i], patch) == Some(s.response.body)
            && s.tables.courses == t.courses[i := s.response.body]
            && s.response.body.title == if patch.title.Some? then Trim(patch.title.value) else t.courses[i].title)
  {
  }

  // ---------------------------------------------------------------- deleteCourse

  /** The store without the course at index `i`. */
  function Without(cs: seq<Course>, i: nat): (r: seq<Course>)
    requires i < |cs|
    ensures |r| == |cs| - 1
    ensures forall k :: 0 <= k < i ==> r[k] == cs[k]
    ensures forall k :: i <= k < |r| ==> r[k] == cs[k + 1]
  {
    cs[..i] + cs[i + 1..]
  }

  /** `deleteCourse` as written: `course.deleteOne()` does not fire the
      `pre('remove')` hook, so the course's lessons and its students' progress
      records stay behind. */
  function DeleteCourse(t: Tables, caller: User, id: Id): EnrollmentController.Step<string> {
    match FindCourse(t.courses, id)
    case None => EnrollmentController.Step(t, Failure(404, "Course not found"))
    case Some(i) =>
      if !CanManage(t.courses[i], caller) then
        EnrollmentController.Step(t, Failure(403, "Not authorized to delete this course"))
      else EnrollmentController.Step(t.(courses := Without(t.courses, i)), Success(200, "Course removed"))
  }

  /** The delete the schema's hook was written for: the course's lessons go with it.
      Progress records are still left in place. */
  function DeleteCourseCascade(t: Tables, caller: User, id: Id): EnrollmentController.Step<string> {
    var s := DeleteCourse(t, caller, id);
    if s.response.Success? then EnrollmentController.Step(s.tables.(lessons := RemoveHook(t.lessons, id)), s.response)
    else s
  }

  method DeleteCourseIn(db: Db, caller: User, id: Id) returns (response: Response<string>)
    requires db.Valid()
    modifies db
    ensures db.Valid()
    ensures EnrollmentController.Step(db.Snapshot(), response) == DeleteCourseCascade(old(db.Snapshot()), caller, id)
  {
    DeleteKeepsConsistent(db.Snapshot(), caller, id);
    var found := FindCourse(db.courses, id);
    if found.None? {
      return Failure(404, "Course not found");
    }
    var course := db.courses[found.value];
    if !CanManage(course, caller) {
      return Failure(403, "Not authorized to delete this course");
    }
    db.lessons := RemoveHook(db.lessons, id);
    db.courses := Without(db.courses, found.value);
    response := Success(200, "Course removed");
  }

  lemma DeleteKeepsConsistent(t: Tables, caller: User, id: Id)
    requires Consistent(t)
    ensures Consistent(DeleteCourse(t, caller, id).tables)
    ensures Consistent(DeleteCourseCascade(t, caller, id).tables)
  {
    var found := FindCourse(t.courses, id);
    if found.Some? && CanManage(t.courses[found.value], caller) {
      var cs := Without(t.courses, found.value);
      forall x | x in cs ensures x.id < t.nextId && CourseModel.WellFormed(x) {
        assert x in t.courses;
      }
      DistinctRemoveAt(t.courses, found.value, CourseKey);
      CoursesKeep(t, cs);
      var t1 := t.(courses := cs);
      var ls := RemoveHook(t.lessons, id);
      forall l | l in ls ensures l.id < t.nextId && LessonModel.WellFormed(l) {
        assert l in t.lessons;
      }
      RemoveHookKeepsDistinct(t.lessons, id, LessonKey);
      LessonsKeep(t1, ls);
    }
  }

  /** Finding: after a delete as written, every lesson of the course is still
      stored and now points at a course that no longer exists, and so does every
      progress record of the course. */
  lemma DeleteLeavesOrphans(t: Tables, caller: User, id: Id)
    requires Consistent(t)
    requires DeleteCourse(t, caller, id).response.Success?
    ensures var t1 := DeleteCourse(t, caller, id).tables;
      && t1.lessons == t.lessons && t1.progress == t.progress
      && FindCourse(t1.courses, id).None?
      && (forall c :: c in t.courses && c.id != id ==> c in t1.courses)
      && LessonsOf(t1.lessons, id) == LessonsOf(t.lessons, id)
  {
    WithoutDropsOne(t.courses, FindCourse(t.courses, id).value);
  }

  /** With distinct ids, removing the course at `i` removes exactly the
      course with its id: no course left has it, and every other course stays. */
  lemma WithoutDropsOne(cs: seq<Course>, i: nat)
    requires DistinctKeys(cs, CourseKey) && i < |cs|
    ensures forall c :: c in Without(cs, i) ==> c.id != cs[i].id
    ensures forall c :: c in cs && c.id != cs[i].id ==> c in Without(cs, i)
  {
    var r := Without(cs, i);
    forall c | c in r ensures c.id != cs[i].id {
      var k :| 0 <= k < |r| && r[k] == c;
      if k >= i {
        assert CourseKey(cs[i]) != CourseKey(cs[k + 1]);
      }
    }
    forall c | c in cs && c.id != cs[i].id ensures c in r {
      var k :| 0 <= k < |cs| && cs[k] == c;
      if k < i {
        assert r[k] == c;
      } else {
        assert r[k - 1] == c;
      }
    }
  }

  /** The corrected delete: no stored lesson refers to the deleted course, and
      every other lesson is kept in order. */
  lemma CascadeLeavesNoLessons(t: Tables, caller: User, id: Id)
    requires DeleteCourseCascade(t, caller, id).response.Success?
    ensures var t1 := DeleteCourseCascade(t, caller, id).tables;
      && (forall l :: l in t1.lessons ==> l.course != id)
      && (forall l :: l in t.lessons && l.course != id ==> l in t1.lessons)
      && LessonsOf(t1.lessons, id) == []
  {
    var ls := DeleteCourseCascade(t, caller, id).tables.lessons;
    CountNone(ls, (l: Lesson) => l.course == id);
  }
}
