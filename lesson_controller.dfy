/** The lesson handlers: `addLesson`, `updateLesson`, `deleteLesson`, and the
    normalisation of a `videoUrl` into a YouTube embed link that add and
    update share. */
module LessonController {
  import opened Common
  import opened LessonModel
  import opened CourseModel
  import opened ProgressModel
  import opened Store
  import opened WebUrl
  import CourseController
  import EnrollmentController

  // ---------------------------------------------------------------- videoUrl

  const EmbedPrefix := "https://www.youtube.com/embed/"

  /** A character of `[a-zA-Z0-9_-]`. */
  predicate IsIdChar(c: char) {
    IsAlpha(c) || ('0' <= c <= '9') || c == '_' || c == '-'
  }

  /** `/^[a-zA-Z0-9_-]{11}$/.test(s)`: a bare YouTube video id. */
  predicate IsVideoId(s: string) {
    |s| == 11 && forall i :: 0 <= i < |s| ==> IsIdChar(s[i])
  }

  /** The normalisation block for a truthy `videoUrl`: a bare id, a
      `youtube.com` link with a non-empty `v` parameter or a `youtu.be` link
      becomes an embed link; anything else, including a string `new URL`
      rejects, is kept as it is. */
  function NormalizeVideoUrl(v: string): (r: string)
    ensures r == v || StartsWith(r, EmbedPrefix)
  {
    if IsVideoId(v) then EmbedPrefix + v
    else match Parse(v)
      case None => v
      case Some(u) => FromLink(v, u)
  }

  /** The branch for a string `new URL` accepts. */
  function FromLink(v: string, u: Url): (r: string)
    ensures r == v || StartsWith(r, EmbedPrefix)
  {
    var param := Get(u.query, "v");
    if Contains(u.hostname, "youtube.com") && Truthy(param) then EmbedPrefix + param.value
    else if Contains(u.hostname, "youtu.be") then EmbedPrefix + SliceFrom1(u.pathname)
    else v
  }

  /** `if (videoUrl) { ... }`: an absent or empty `videoUrl` is passed on untouched. */
  function NormalizeField(v: Option<string>): (r: Option<string>)
    ensures Truthy(v) ==> r == Some(NormalizeVideoUrl(v.value))
    ensures !Truthy(v) ==> r == v
  {
    if Truthy(v) then Some(NormalizeVideoUrl(v.value)) else v
  }

  /** Video ids drawn from `[a-zA-Z0-9_-]`, of any length. */
  predicate IdChars(id: string) {
    forall i :: 0 <= i < |id| ==> IsIdChar(id[i])
  }

  lemma IdCharsArePathChars(id: string)
    requires IdChars(id)
    ensures forall i :: 0 <= i < |id| ==> IsQueryChar(id[i]) && IsPathChar(id[i]) && id[i] != '&'
  {
  }

  lemma PathCharsConcat(a: string, b: string)
    requires forall i :: 0 <= i < |a| ==> IsPathChar(a[i])
    requires forall i :: 0 <= i < |b| ==> IsPathChar(b[i])
    ensures forall i :: 0 <= i < |a + b| ==> IsPathChar((a + b)[i])
  {
  }

  const WwwHost := "www.youtube.com"
  const ShortHost := "youtu.be"

  lemma Hosts()
    ensures forall i :: 0 <= i < |WwwHost| ==> IsHostChar(WwwHost[i])
    ensures forall i :: 0 <= i < |ShortHost| ==> IsHostChar(ShortHost[i])
    ensures Contains(WwwHost, "youtube.com") && !Contains(WwwHost, "youtu.be")
    ensures Contains(ShortHost, "youtu.be") && !Contains(ShortHost, "youtube.com")
  {
    assert InfixAt(WwwHost, "youtube.com", 4);
    assert InfixAt(ShortHost, "youtu.be", 0);
    forall i: nat | i <= |WwwHost| ensures !InfixAt(WwwHost, "youtu.be", i) {
      if i + 8 <= |WwwHost| {
        var w := WwwHost[i..i + 8];
        assert w[0] == WwwHost[i] && w[5] == WwwHost[i + 5];
        assert i == 0 || i == 1 || i == 2 || i == 3 || i == 4 || i == 5 || i == 6 || i == 7;
        assert !(WwwHost[i] == 'y' && WwwHost[i + 5] == '.');
      }
    }
  }

  /** A bare 11-character id becomes its embed link (lines 35-36). */
  lemma NormalizeBareId(id: string)
    requires IsVideoId(id)
    ensures NormalizeVideoUrl(id) == EmbedPrefix + id
  {
  }

  /** `https://www.youtube.com/watch?v=<id>` becomes the embed link of `<id>` (lines 38-40). */
  lemma NormalizeWatchLink(id: string)
    requires id != [] && IdChars(id)
    ensures NormalizeVideoUrl(HttpsUrl(WwwHost, "/watch", Some("v=" + id))) == EmbedPrefix + id
  {
    var v := HttpsUrl(WwwHost, "/watch", Some("v=" + id));
    WatchLinkNotBare(id);
    WatchLinkParts(id);
    WatchFromLink(v, id);
  }

  /** A watch link is longer than a bare id. */
  lemma WatchLinkNotBare(id: string)
    ensures !IsVideoId(HttpsUrl(WwwHost, "/watch", Some("v=" + id)))
  {
    assert |HttpsUrl(WwwHost, "/watch", Some("v=" + id))| > 11;
  }

  lemma WatchFromLink(v: string, id: string)
    requires id != [] && IdChars(id)
    ensures FromLink(v, Url("https", WwwHost, "/watch", "v=" + id)) == EmbedPrefix + id
  {
    Hosts();
    GetFirst(id, []);
    assert "v=" + id + [] == "v=" + id;
  }

  lemma WatchLinkParts(id: string)
    requires IdChars(id)
    ensures Parse(HttpsUrl(WwwHost, "/watch", Some("v=" + id))) == Some(Url("https", WwwHost, "/watch", "v=" + id))
  {
    Hosts();
    IdCharsArePathChars(id);
    ParseHttps(WwwHost, "/watch", Some("v=" + id));
  }

  /** `https://youtu.be/<id>` becomes the embed link of `<id>`, even when `<id>`
      is empty (lines 41-43). */
  lemma NormalizeShortLink(id: string)
    requires IdChars(id)
    ensures NormalizeVideoUrl(HttpsUrl(ShortHost, "/" + id, None)) == EmbedPrefix + id
  {
    Hosts();
    IdCharsArePathChars(id);
    PathCharsConcat("/", id);
    ParseHttps(ShortHost, "/" + id, None);
    assert ("/" + id)[1..] == id;
  }

  /** A string `new URL` rejects, and is not a bare id, is kept (lines 47-50). */
  lemma NormalizeKeepsUnparsable(v: string)
    requires !IsVideoId(v) && Parse(v).None?
    ensures NormalizeVideoUrl(v) == v
  {
  }

  /** An embed link the handler produced is left as it is when saved again, so
      updating a lesson without changing its link keeps the link. */
  lemma NormalizeStable(id: string)
    requires IdChars(id)
    ensures NormalizeVideoUrl(EmbedPrefix + id) == EmbedPrefix + id
  {
    EmbedLinkParts(id);
    assert |EmbedPrefix + id| > 11;
    EmbedFromLink(id);
  }

  lemma EmbedFromLink(id: string)
    ensures FromLink(EmbedPrefix + id, Url("https", WwwHost, "/embed/" + id, "")) == EmbedPrefix + id
  {
    Hosts();
  }

  lemma EmbedLinkParts(id: string)
    requires IdChars(id)
    ensures Parse(EmbedPrefix + id) == Some(Url("https", WwwHost, "/embed/" + id, ""))
  {
    Hosts();
    IdCharsArePathChars(id);
    PathCharsConcat("/embed/", id);
    ParseHttps(WwwHost, "/embed/" + id, None);
    EmbedIsHttpsUrl(id);
  }

  lemma EmbedIsHttpsUrl(id: string)
    ensures HttpsUrl(WwwHost, "/embed/" + id, None) == EmbedPrefix + id
  {
    assert HttpsUrl(WwwHost, "/embed/" + id, None) == "https://" + WwwHost + ("/embed/" + id) + "";
  }

  /** An embed link has no white space to trim. */
  lemma EmbedTrimmed(id: string)
    requires IdChars(id)
    ensures Trim(EmbedPrefix + id) == EmbedPrefix + id
  {
    var e := EmbedPrefix + id;
    assert e[0] == 'h';
    assert TrimStart(e) == e;
    if id != [] {
      assert e[|e| - 1] == id[|id| - 1];
    } else {
      assert e == EmbedPrefix;
    }
  }

  // ---------------------------------------------------------------- addLesson

  /** `addLesson`: the route's course id replaces any `course` in the body;
      404 for a missing course, 403 for a caller who may not manage it, then
      the normalised body goes to the schema: 400 with the joined messages or
      201 with the new lesson. */
  function AddLesson(t: Tables, caller: User, courseId: Id, body: LessonDraft): EnrollmentController.Step<Lesson> {
    match FindCourse(t.courses, courseId)
    case None => EnrollmentController.Step(t, Failure(404, "Course not found"))
    case Some(i) =>
      if !CourseController.CanManage(t.courses[i], caller) then
        EnrollmentController.Step(t, Failure(403, "Not authorized to add lesson to this course"))
      else
        CreateLesson(t, body.(course := Some(courseId), videoUrl := NormalizeField(body.videoUrl)))
  }

  /** `Lesson.create(req.body)`: 400 with the joined messages when validation
      fails, otherwise 201 with the lesson stored last under a fresh id. */
  function CreateLesson(t: Tables, draft: LessonDraft): EnrollmentController.Step<Lesson> {
    match LessonModel.Validate(t.nextId, draft)
    case Invalid(messages) => EnrollmentController.Step(t, Failure(400, Join(messages)))
    case Valid(l) =>
      EnrollmentController.Step(t.(lessons := t.lessons + [l], nextId := t.nextId + 1), Success(201, l))
  }

  method CreateLessonIn(db: Db, draft: LessonDraft) returns (response: Response<Lesson>)
    requires db.Valid()
    modifies db
    ensures db.Valid()
    ensures EnrollmentController.Step(db.Snapshot(), response) == CreateLesson(old(db.Snapshot()), draft)
  {
    ghost var t := db.Snapshot();
    var checked := LessonModel.Validate(db.nextId, draft);
    if checked.Invalid? {
      response := Failure(400, Join(checked.messages));
      assert CreateLesson(t, draft) == EnrollmentController.Step(t, response);
      return;
    }
    ghost var after := t.(lessons := t.lessons + [checked.value], nextId := t.nextId + 1);
    assert CreateLesson(t, draft) == EnrollmentController.Step(after, Success(201, checked.value));
    db.InsertLesson(checked.value);
    response := Success(201, checked.value);
  }

  method AddLessonIn(db: Db, caller: User, courseId: Id, body: LessonDraft) returns (response: Response<Lesson>)
    requires db.Valid()
    modifies db
    ensures db.Valid()
    ensures EnrollmentController.Step(db.Snapshot(), response) == AddLesson(old(db.Snapshot()), caller, courseId, body)
  {
    var found := FindCourse(db.courses, courseId);
    if found.None? {
      return Failure(404, "Course not found");
    }
    if !CourseController.CanManage(db.courses[found.value], caller) {
      return Failure(403, "Not authorized to add lesson to this course");
    }
    var draft := body.(course := Some(courseId), videoUrl := NormalizeField(body.videoUrl));
    response := CreateLessonIn(db, draft);
  }

  lemma AddKeepsConsistent(t: Tables, caller: User, courseId: Id, body: LessonDraft)
    requires Consistent(t)
    ensures Consistent(AddLesson(t, caller, courseId, body).tables)
  {
    var found := FindCourse(t.courses, courseId);
    if found.Some? && CourseController.CanManage(t.courses[found.value], caller) {
      var draft := body.(course := Some(courseId), videoUrl := NormalizeField(body.videoUrl));
      var checked := LessonModel.Validate(t.nextId, draft);
      if checked.Valid? {
        AppendLessonKeeps(t, checked.value);
      }
    }
  }

  /** The new lesson always belongs to the route's course, whatever the body
      says; it is stored last under a fresh id; a missing course or a caller
      who may not manage it changes nothing. */
  lemma AddLessonOutcome(t: Tables, caller: User, courseId: Id, body: LessonDraft, other: Option<Id>)
    ensures AddLesson(t, caller, courseId, body.(course := other)) == AddLesson(t, caller, courseId, body)
    ensures var s := AddLesson(t, caller, courseId, body);
      && (s.response.Success? ==>
            && s.response.code == 201 && s.response.body.course == courseId
            && s.response.body.id == t.nextId && s.tables.lessons == t.lessons + [s.response.body])
      && (s.response.Failure? ==> s.tables == t)
      && (FindCourse(t.courses, courseId).None? ==> s.response == Failure(404, "Course not found"))
      && ((forall c :: c in t.courses && c.id == courseId ==> !CourseController.CanManage(c, caller))
          && FindCourse(t.courses, courseId).Some?
          ==> s.response == Failure(403, "Not authorized to add lesson to this course"))
  {
    var found := FindCourse(t.courses, courseId);
    if found.Some? {
      assert t.courses[found.value] in t.courses;
    }
  }

  /** Validation failures are 400 with the schema's messages joined by ", ". */
  lemma AddLessonValidation(t: Tables, caller: User, courseId: Id, body: LessonDraft)
    requires FindCourse(t.courses, courseId).Some?
    requires CourseController.CanManage(t.courses[FindCourse(t.courses, courseId).value], caller)
    ensures var d := body.(course := Some(courseId), videoUrl := NormalizeField(body.videoUrl));
      var s := AddLesson(t, caller, courseId, body);
      && (LessonErrors(d) != [] ==> s.response == Failure(400, Join(LessonErrors(d))))
      && (LessonErrors(d) == [] ==> s.response.Success?)
  {
  }

  /** A bare video id is stored as its embed link. */
  lemma AddLessonStoresEmbed(t: Tables, caller: User, courseId: Id, body: LessonDraft)
    requires body.videoUrl.Some? && IsVideoId(body.videoUrl.value)
    requires AddLesson(t, caller, courseId, body).response.Success?
    ensures AddLesson(t, caller, courseId, body).response.body.videoUrl == EmbedPrefix + body.videoUrl.value
  {
    var v := body.videoUrl.value;
    var d := body.(course := Some(courseId), videoUrl := Some(EmbedPrefix + v));
    NormalizeBareId(v);
    assert NormalizeField(body.videoUrl) == Some(EmbedPrefix + v);
    assert AddLesson(t, caller, courseId, body).response == Success(201, LessonModel.Validate(t.nextId, d).value);
    EmbedTrimmed(v);
  }

  // ---------------------------------------------------------------- updateLesson

  /** `findByIdAndUpdate(id, body, { runValidators: true })` on a lesson: the
      setters trim, the update validators check only the paths being set, and
      a required path set to a blank string or a `type` outside the enum fails.
      `course` and `order` are taken as given. */
  function ApplyLessonPatch(l: Lesson, p: LessonDraft): (r: Option<Lesson>)
    ensures r.Some? ==> r.value.id == l.id
    ensures r.Some? && LessonModel.WellFormed(l) ==> LessonModel.WellFormed(r.value)
    ensures r.None? <==>
      (p.title.Some? && Trim(p.title.value) == "") || (p.kind.Some? && ParseType(p.kind.value).None?)
      || (p.videoUrl.Some? && Trim(p.videoUrl.value) == "")
    ensures r.Some? ==> r.value.title == if p.title.Some? then Trim(p.title.value) else l.title
    ensures r.Some? ==> r.value.kind == if p.kind.Some? then ParseType(p.kind.value).value else l.kind
    ensures r.Some? ==> r.value.videoUrl == if p.videoUrl.Some? then Trim(p.videoUrl.value) else l.videoUrl
    ensures r.Some? ==> r.value.content == (if p.content.Some? then p.content else l.content)
    ensures r.Some? ==> r.value.duration == (if p.duration.Some? then p.duration else l.duration)
    ensures r.Some? ==> r.value.course == p.course.GetOr(l.course) && r.value.order == p.order.GetOr(l.order)
  {
    var title := if p.title.Some? then Trim(p.title.value) else l.title;
    var videoUrl := if p.videoUrl.Some? then Trim(p.videoUrl.value) else l.videoUrl;
    var kind := if p.kind.Some? then ParseType(p.kind.value) else Some(l.kind);
    if (p.title.Some? && title == "") || kind.None? || (p.videoUrl.Some? && videoUrl == "") then None
    else Some(Lesson(l.id, title, kind.value, if p.content.Some? then p.content else l.content, videoUrl,
                     if p.duration.Some? then p.duration else l.duration, p.course.GetOr(l.course), p.order.GetOr(l.order)))
  }

  /** `updateLesson`: 404 for a missing lesson; a lesson whose course is gone
      makes `course.instructor` throw, which is 500; 403 for a caller who may
      not manage the course; a failing update validator is 500; else 200. */
  function UpdateLesson(t: Tables, caller: User, id: Id, body: LessonDraft): EnrollmentController.Step<Lesson> {
    match FindLesson(t.lessons, id)
    case None => EnrollmentController.Step(t, Failure(404, "Lesson not found"))
    case Some(i) =>
      match FindCourse(t.courses, t.lessons[i].course)
      case None => EnrollmentController.Step(t, Failure(500, "Server Error"))
      case Some(j) =>
        if !CourseController.CanManage(t.courses[j], caller) then
          EnrollmentController.Step(t, Failure(403, "Not authorized"))
        else
          match ApplyLessonPatch(t.lessons[i], body.(videoUrl := NormalizeField(body.videoUrl)))
          case None => EnrollmentController.Step(t, Failure(500, "Server Error"))
          case Some(l) => EnrollmentController.Step(t.(lessons := t.lessons[i := l]), Success(200, l))
  }

  method UpdateLessonIn(db: Db, caller: User, id: Id, body: LessonDraft) returns (response: Response<Lesson>)
    requires db.Valid()
    modifies db
    ensures db.Valid()
    ensures EnrollmentController.Step(db.Snapshot(), response) == UpdateLesson(old(db.Snapshot()), caller, id, body)
  {
    UpdateKeepsConsistent(db.Snapshot(), caller, id, body);
    var found := FindLesson(db.lessons, id);
    if found.None? {
      return Failure(404, "Lesson not found");
    }
    var lesson := db.lessons[found.value];
    var course := FindCourse(db.courses, lesson.course);
    if course.None? {
      return Failure(500, "Server Error");
    }
    if !CourseController.CanManage(db.courses[course.value], caller) {
      return Failure(403, "Not authorized");
    }
    var updated := ApplyLessonPatch(lesson, body.(videoUrl := NormalizeField(body.videoUrl)));
    if updated.None? {
      return Failure(500, "Server Error");
    }
    db.lessons := db.lessons[found.value := updated.value];
    response := Success(200, updated.value);
  }

  lemma UpdateKeepsConsistent(t: Tables, caller: User, id: Id, body: LessonDraft)
    requires Consistent(t)
    ensures Consistent(UpdateLesson(t, caller, id, body).tables)
  {
    var s := UpdateLesson(t, caller, id, body);
    if s.response.Success? {
      var i := FindLesson(t.lessons, id).value;
      var ls := t.lessons[i := s.response.body];
      assert t.lessons[i] in t.lessons;
      forall x | x in ls ensures x.id < t.nextId && LessonModel.WellFormed(x) {
        var k :| 0 <= k < |ls| && ls[k] == x;
        if k != i {
          assert t.lessons[k] in t.lessons;
        }
      }
      DistinctUpdate(t.lessons, i, s.response.body, LessonKey);
      LessonsKeep(t, ls);
    }
  }

  /** A successful update replaces the one lesson in place, keeps its id, and
      leaves courses, progress and users alone. The body's `course` is applied
      as given: a caller who manages the lesson's course can move the lesson
      to any course id. */
  lemma UpdateTouchesOneLesson(t: Tables, caller: User, id: Id, body: LessonDraft)
    ensures var s := UpdateLesson(t, caller, id, body);
      s.response.Success? ==>
        && s.response.code == 200 && s.response.body.id == id
        && |s.tables.lessons| == |t.lessons|
        && (forall k :: 0 <= k < |t.lessons| && t.lessons[k].id != id ==> s.tables.lessons[k] == t.lessons[k])
        && s.tables.courses == t.courses && s.tables.progress == t.progress && s.tables.users == t.users
        && (body.course.Some? ==> s.response.body.course == body.course.value)
  {
  }

  /** What an allowed update writes: the body, its video URL normalised,
      patched onto the lesson. A blank title or video URL or a type outside
      the enum answers 500 with nothing changed; otherwise the lesson at its
      place becomes the patched lesson. */
  lemma UpdateLessonWrites(t: Tables, caller: User, id: Id, body: LessonDraft, i: nat, j: nat)
    requires FindLesson(t.lessons, id) == Some(i)
    requires FindCourse(t.courses, t.lessons[i].course) == Some(j)
    requires CourseController.CanManage(t.courses[j], caller)
    ensures var s := UpdateLesson(t, caller, id, body);
      var patch := body.(videoUrl := NormalizeField(body.videoUrl));
      && (s.response.Failure? <==> ApplyLessonPatch(t.lessons[i], patch).None?)
      && (s.response.Failure? ==> s == EnrollmentController.Step(t, Failure(500, "Server Error")))
      && (s.response.Success? ==>
            && ApplyLessonPatch(t.lessons[i], patch) == Some(s.response.body)
            && s.tables.lessons == t.lessons[i := s.response.body]
            && s.response.body.title == if body.title.Some? then Trim(body.title.value) else t.lessons[i].title)
  {
  }

  // ---------------------------------------------------------------- deleteLesson

  /** The lessons without the one at index `i`. */
  function WithoutLesson(ls: seq<Lesson>, i: nat): (r: seq<Lesson>)
    requires i < |ls|
    ensures |r| == |ls| - 1
    ensures forall l :: l in r ==> l in ls
  {
    ls[..i] + ls[i + 1..]
  }

  /** `deleteLesson`: 404, 500 for a lesson whose course is gone, 403 for a
      caller who may not manage the course, else the lesson is removed.
      Progress records that list the lesson keep it. */
  function DeleteLesson(t: Tables, caller: User, id: Id): EnrollmentController.Step<string> {
    match FindLesson(t.lessons, id)
    case None => EnrollmentController.Step(t, Failure(404, "Lesson not found"))
    case Some(i) =>
      match FindCourse(t.courses, t.lessons[i].course)
      case None => EnrollmentController.Step(t, Failure(500, "Server Error"))
      case Some(j) =>
        if !CourseController.CanManage(t.courses[j], caller) then
          EnrollmentController.Step(t, Failure(403, "Not authorized"))
        else EnrollmentController.Step(t.(lessons := WithoutLesson(t.lessons, i)), Success(200, "Lesson removed"))
  }

  method DeleteLessonIn(db: Db, caller: User, id: Id) returns (response: Response<string>)
    requires db.Valid()
    modifies db
    ensures db.Valid()
    ensures EnrollmentController.Step(db.Snapshot(), response) == DeleteLesson(old(db.Snapshot()), caller, id)
  {
    DeleteKeepsConsistent(db.Snapshot(), caller, id);
    var found := FindLesson(db.lessons, id);
    if found.None? {
      return Failure(404, "Lesson not found");
    }
    var course := FindCourse(db.courses, db.lessons[found.value].course);
    if course.None? {
      return Failure(500, "Server Error");
    }
    if !CourseController.CanManage(db.courses[course.value], caller) {
      return Failure(403, "Not authorized");
    }
    db.lessons := WithoutLesson(db.lessons, found.value);
    response := Success(200, "Lesson removed");
  }

  lemma DeleteKeepsConsistent(t: Tables, caller: User, id: Id)
    requires Consistent(t)
    ensures Consistent(DeleteLesson(t, caller, id).tables)
  {
    var s := DeleteLesson(t, caller, id);
    if s.response.Success? {
      DistinctRemoveAt(t.lessons, FindLesson(t.lessons, id).value, LessonKey);
      LessonsKeep(t, s.tables.lessons);
    }
  }

  /** Update and delete of a missing lesson are 404, and a caller who may not
      manage the lesson's course gets 403; neither changes anything. */
  lemma LessonGuards(t: Tables, caller: User, id: Id, body: LessonDraft)
    ensures (forall l :: l in t.lessons ==> l.id != id) ==>
      && UpdateLesson(t, caller, id, body) == EnrollmentController.Step(t, Failure(404, "Lesson not found"))
      && DeleteLesson(t, caller, id) == EnrollmentController.Step(t, Failure(404, "Lesson not found"))
    ensures var i := FindLesson(t.lessons, id);
      i.Some? && FindCourse(t.courses, t.lessons[i.value].course).Some? &&
      !CourseController.CanManage(t.courses[FindCourse(t.courses, t.lessons[i.value].course).value], caller) ==>
        && UpdateLesson(t, caller, id, body) == EnrollmentController.Step(t, Failure(403, "Not authorized"))
        && DeleteLesson(t, caller, id) == EnrollmentController.Step(t, Failure(403, "Not authorized"))
  {
  }

  /** A successful delete removes exactly the first lesson with that id and
      keeps the others in order; courses and progress are untouched. */
  lemma DeleteRemovesOne(t: Tables, caller: User, id: Id)
    ensures var s := DeleteLesson(t, caller, id);
      s.response.Success? ==>
        var i := FindLesson(t.lessons, id).value;
        && s.response == Success(200, "Lesson removed")
        && s.tables.lessons == t.lessons[..i] + t.lessons[i + 1..]
        && s.tables.courses == t.courses && s.tables.progress == t.progress
  {
  }

  // ---------------------------------------------------------------- orphans

  /** Finding: once a course is deleted as written, its lessons stay behind and
      nobody, not even an admin, can update or delete them: both handlers
      dereference the missing course and answer 500. */
  lemma OrphanLessonsAreStuck(t: Tables, caller: User, courseId: Id, lessonId: Id, anyone: User, body: LessonDraft)
    requires Consistent(t)
    requires CourseController.DeleteCourse(t, caller, courseId).response.Success?
    requires FindLesson(t.lessons, lessonId).Some?
    requires t.lessons[FindLesson(t.lessons, lessonId).value].course == courseId
    ensures var t1 := CourseController.DeleteCourse(t, caller, courseId).tables;
      && UpdateLesson(t1, anyone, lessonId, body) == EnrollmentController.Step(t1, Failure(500, "Server Error"))
      && DeleteLesson(t1, anyone, lessonId) == EnrollmentController.Step(t1, Failure(500, "Server Error"))
  {
    CourseController.DeleteLeavesOrphans(t, caller, courseId);
  }

  /** With the cascading delete no stored lesson points at the deleted course,
      so no lesson can be left in that state by it. */
  lemma CascadeLeavesNoStuckLessons(t: Tables, caller: User, courseId: Id, lessonId: Id)
    requires CourseController.DeleteCourseCascade(t, caller, courseId).response.Success?
    ensures var t1 := CourseController.DeleteCourseCascade(t, caller, courseId).tables;
      var i := FindLesson(t1.lessons, lessonId);
      i.Some? ==> t1.lessons[i.value].course != courseId
  {
    var t1 := CourseController.DeleteCourseCascade(t, caller, courseId).tables;
    CourseController.CascadeLeavesNoLessons(t, caller, courseId);
    var i := FindLesson(t1.lessons, lessonId);
    if i.Some? {
      assert t1.lessons[i.value] in t1.lessons;
    }
  }
}
