/** The enrollment ledger: enrolling, reading and updating a student's
    progress, listing a student's enrollments and removing a student.
    Each handler is a function from the store before to the store after plus
    the response (the specification), and a method on `Db` that performs the
    handler's database calls one by one and is proved to agree with it. */
module EnrollmentController {
  import opened Common
  import opened ProgressModel
  import opened CourseModel
  import opened LessonModel
  import opened Store

  /** The store after a handler ran, and what the handler sent back. */
  datatype Step<+T> = Step(tables: Tables, response: Response<T>)

  /** A progress record as `getProgress` returns it: `completedLessons` populated
      with the lesson documents that still exist, in list order. */
  datatype PopulatedProgress = PopulatedProgress(
    id: Id, student: Id, course: Id, completedLessons: seq<Lesson>, isCompleted: bool)

  /** The populated instructor of a course (`{ _id, name }`). */
  datatype InstructorRef = InstructorRef(id: Id, name: string)

  /** The course fields `getMyCourses` selects: title, description, image, instructor. */
  datatype CourseSummary = CourseSummary(
    id: Id, title: string, description: string, image: string, instructor: Option<InstructorRef>)

  /** One entry of `getMyCourses`: the progress record with `course` populated
      (absent when the course no longer exists). */
  datatype Enrollment = Enrollment(
    id: Id, student: Id, course: Option<CourseSummary>, completedLessons: seq<Id>, isCompleted: bool)

  // ---------------------------------------------------------------- enrollCourse

  /** `enrollCourse`: find the course, refuse a caller already in `students`,
      push and save the course, then create the progress record. The save
      comes before the insert, so an insert refused by the unique index leaves
      the course changed. */
  function Enroll(t: Tables, caller: Id, courseId: Id): Step<string> {
    match FindCourse(t.courses, courseId)
    case None => Step(t, Failure(404, "Course not found"))
    case Some(i) =>
      if caller in t.courses[i].students then Step(t, Failure(400, "Already enrolled"))
      else
        var saved := Saved(t, caller, i);
        match Insert(saved.progress, Initial(t.nextId, caller, courseId))
        case None => Step(saved, Failure(500, "Server Error"))
        case Some(ps) => Step(saved.(progress := ps), Success(200, "Enrolled successfully"))
  }

  method EnrollCourse(db: Db, caller: Id, courseId: Id) returns (response: Response<string>)
    requires db.Valid()
    modifies db
    ensures db.Valid()
    ensures Step(db.Snapshot(), response) == Enroll(old(db.Snapshot()), caller, courseId)
  {
    ghost var t := db.Snapshot();
    EnrollKeepsConsistent(t, caller, courseId);
    var found := FindCourse(db.courses, courseId);
    if found.None? {
      return Failure(404, "Course not found");
    }
    var i := found.value;
    var course := db.courses[i];
    if caller in course.students {
      return Failure(400, "Already enrolled");
    }
    course := course.(students := course.students + [caller]);
    db.courses := db.courses[i := course];
    var id := db.NewId();
    assert db.Snapshot() == Saved(t, caller, i);
    var inserted := Insert(db.progress, Initial(id, caller, courseId));
    if inserted.None? {
      return Failure(500, "Server Error");
    }
    db.progress := inserted.value;
    response := Success(200, "Enrolled successfully");
  }

  lemma EnrollKeepsConsistent(t: Tables, caller: Id, courseId: Id)
    requires Consistent(t)
    ensures Consistent(Enroll(t, caller, courseId).tables)
  {
    var found := FindCourse(t.courses, courseId);
    if found.Some? && caller !in t.courses[found.value].students {
      var i := found.value;
      var t2 := Saved(t, caller, i);
      SavedKeeps(t, caller, i);
      if FindPair(t2.progress, caller, courseId).None? {
        AppendProgressKeeps(t2, Initial(t.nextId, caller, courseId));
      }
    }
  }

  /** The store once `course.save()` has run: the caller appended to the
      course's `students` and an id handed out for the record to come. */
  function Saved(t: Tables, caller: Id, i: nat): (r: Tables)
    requires i < |t.courses|
    ensures r.progress == t.progress && r.nextId == t.nextId + 1
  {
    t.(courses := t.courses[i := t.courses[i].(students := t.courses[i].students + [caller])],
       nextId := t.nextId + 1)
  }

  lemma SavedKeeps(t: Tables, caller: Id, i: nat)
    requires Consistent(t) && i < |t.courses|
    ensures Consistent(Saved(t, caller, i))
  {
    var c := t.courses[i].(students := t.courses[i].students + [caller]);
    assert t.courses[i] in t.courses;
    ReplaceCourseKeeps(t, i, c);
    FreshIdKeeps(t.(courses := t.courses[i := c]));
  }

  /** A missing course gives 404 and changes nothing. */
  lemma EnrollMissingCourse(t: Tables, caller: Id, courseId: Id)
    requires forall c :: c in t.courses ==> c.id != courseId
    ensures Enroll(t, caller, courseId) == Step(t, Failure(404, "Course not found"))
  {
  }

  /** A caller already in the course's `students` gives 400 and changes nothing. */
  lemma EnrollAlreadyEnrolled(t: Tables, caller: Id, courseId: Id, i: nat)
    requires i < |t.courses| && t.courses[i].id == courseId && caller in t.courses[i].students
    requires forall k :: 0 <= k < i ==> t.courses[k].id != courseId
    ensures Enroll(t, caller, courseId) == Step(t, Failure(400, "Already enrolled"))
  {
    assert FindCourse(t.courses, courseId) == Some(i);
  }

  /** A successful enroll appends the caller to the course's `students`, adds one
      (caller, course) record with no completed lessons, and touches nothing else. */
  lemma EnrollSucceeds(t: Tables, caller: Id, courseId: Id, i: nat)
    requires i < |t.courses| && t.courses[i].id == courseId && caller !in t.courses[i].students
    requires forall k :: 0 <= k < i ==> t.courses[k].id != courseId
    requires forall p :: p in t.progress ==> !IsPair(p, caller, courseId)
    ensures var s := Enroll(t, caller, courseId);
      && s.response == Success(200, "Enrolled successfully")
      && |s.tables.courses| == |t.courses|
      && s.tables.courses[i].students == t.courses[i].students + [caller]
      && s.tables.courses[i] == t.courses[i].(students := t.courses[i].students + [caller])
      && (forall k :: 0 <= k < |t.courses| && k != i ==> s.tables.courses[k] == t.courses[k])
      && s.tables.progress == t.progress + [Progress(t.nextId, caller, courseId, [], false)]
      && s.tables.users == t.users && s.tables.lessons == t.lessons
  {
    assert FindCourse(t.courses, courseId) == Some(i);
  }

  /** The non-atomic path: when a record for the pair exists but the caller is not
      in `students`, the course is saved with the caller appended and then the
      insert fails, so the response is 500 with the course changed. */
  lemma EnrollPartialFailure(t: Tables, caller: Id, courseId: Id, i: nat)
    requires i < |t.courses| && t.courses[i].id == courseId && caller !in t.courses[i].students
    requires forall k :: 0 <= k < i ==> t.courses[k].id != courseId
    requires exists p :: p in t.progress && IsPair(p, caller, courseId)
    ensures var s := Enroll(t, caller, courseId);
      && s.response == Failure(500, "Server Error")
      && s.tables.courses == t.courses[i := t.courses[i].(students := t.courses[i].students + [caller])]
      && s.tables.progress == t.progress
  {
    assert FindCourse(t.courses, courseId) == Some(i);
    var p :| p in t.progress && IsPair(p, caller, courseId);
    var k :| 0 <= k < |t.progress| && t.progress[k] == p;
    assert FindPair(t.progress, caller, courseId).Some?;
  }

  /** Enrolling twice: the second call is refused with 400 and changes nothing,
      and the store holds exactly one record for the pair. */
  lemma {:induction false} EnrollTwice(t: Tables, caller: Id, courseId: Id)
    requires Consistent(t)
    requires Enroll(t, caller, courseId).response.Success?
    ensures var t1 := Enroll(t, caller, courseId).tables;
      && Enroll(t1, caller, courseId) == Step(t1, Failure(400, "Already enrolled"))
      && FindPair(t1.progress, caller, courseId).Some?
      && forall j, k :: 0 <= j < k < |t1.progress| ==>
           !(IsPair(t1.progress[j], caller, courseId) && IsPair(t1.progress[k], caller, courseId))
  {
    EnrollKeepsConsistent(t, caller, courseId);
    var i := FindCourse(t.courses, courseId).value;
    var t1 := Enroll(t, caller, courseId).tables;
    assert t1.courses[i].id == courseId && caller in t1.courses[i].students;
    forall k | 0 <= k < i ensures t1.courses[k].id != courseId {
      assert t1.courses[k] == t.courses[k];
    }
    EnrollAlreadyEnrolled(t1, caller, courseId, i);
    assert t1.progress[|t1.progress| - 1] == Initial(t.nextId, caller, courseId);
  }

  // ---------------------------------------------------------------- getProgress

  /** `populate('completedLessons')`: each id replaced by its lesson document;
      ids whose lesson no longer exists are dropped. */
  function Populate(ids: seq<Id>, lessons: seq<Lesson>): (r: seq<Lesson>)
    ensures |r| <= |ids|
    ensures forall l :: l in r ==> l in lessons && l.id in ids
  {
    if ids == [] then []
    else
      (match FindLesson(lessons, ids[0])
       case None => []
       case Some(k) => [lessons[k]])
      + Populate(ids[1..], lessons)
  }

  /** When every referenced lesson still exists, nothing is dropped. */
  lemma {:induction false} PopulateKeepsAll(ids: seq<Id>, lessons: seq<Lesson>)
    requires forall x :: x in ids ==> exists l :: l in lessons && l.id == x
    ensures |Populate(ids, lessons)| == |ids|
  {
    if ids != [] {
      assert ids[0] in ids;
      var l :| l in lessons && l.id == ids[0];
      assert FindLesson(lessons, ids[0]).Some?;
      forall x | x in ids[1..] ensures exists l :: l in lessons && l.id == x {
        assert x in ids;
      }
      PopulateKeepsAll(ids[1..], lessons);
    }
  }

  /** `getProgress`: the caller's record for the course, or 404. */
  function GetProgress(t: Tables, caller: Id, courseId: Id): (r: Response<PopulatedProgress>)
    ensures r.Failure? <==> forall p :: p in t.progress ==> !IsPair(p, caller, courseId)
    ensures r.Failure? ==> r == Failure(404, "Progress not found")
    ensures r.Success? ==> r.code == 200 && r.body.student == caller && r.body.course == courseId
    ensures r.Success? ==>
      && FindPair(t.progress, caller, courseId).Some?
      && var p := t.progress[FindPair(t.progress, caller, courseId).value];
        && r.body.id == p.id && r.body.isCompleted == p.isCompleted
        && r.body.completedLessons == Populate(p.completedLessons, t.lessons)
  {
    match FindPair(t.progress, caller, courseId)
    case None => Failure(404, "Progress not found")
    case Some(k) =>
      var p := t.progress[k];
      Success(200, PopulatedProgress(p.id, p.student, p.course, Populate(p.completedLessons, t.lessons), p.isCompleted))
  }

  // ---------------------------------------------------------------- updateProgress

  /** `updateProgress`: find the caller's record for the course (404 if none) and
      append the lesson id only when it is not already listed. The lesson is not
      checked against the course and `isCompleted` is never touched. */
  function UpdateProgress(t: Tables, caller: Id, courseId: Id, lessonId: Id): Step<Progress> {
    match FindPair(t.progress, caller, courseId)
    case None => Step(t, Failure(404, "Not enrolled or progress not found"))
    case Some(k) =>
      var p := t.progress[k];
      if lessonId in p.completedLessons then Step(t, Success(200, p))
      else
        var p' := p.(completedLessons := p.completedLessons + [lessonId]);
        Step(t.(progress := t.progress[k := p']), Success(200, p'))
  }

  method UpdateProgressIn(db: Db, caller: Id, courseId: Id, lessonId: Id) returns (response: Response<Progress>)
    requires db.Valid()
    modifies db
    ensures db.Valid()
    ensures Step(db.Snapshot(), response) == UpdateProgress(old(db.Snapshot()), caller, courseId, lessonId)
  {
    UpdateKeepsConsistent(db.Snapshot(), caller, courseId, lessonId);
    var found := FindPair(db.progress, caller, courseId);
    if found.None? {
      return Failure(404, "Not enrolled or progress not found");
    }
    var k := found.value;
    var progress := db.progress[k];
    if lessonId !in progress.completedLessons {
      progress := progress.(completedLessons := progress.completedLessons + [lessonId]);
      db.progress := db.progress[k := progress];
    }
    response := Success(200, progress);
  }

  lemma UpdateKeepsConsistent(t: Tables, caller: Id, courseId: Id, lessonId: Id)
    requires Consistent(t)
    ensures Consistent(UpdateProgress(t, caller, courseId, lessonId).tables)
  {
    var found := FindPair(t.progress, caller, courseId);
    if found.Some? && lessonId !in t.progress[found.value].completedLessons {
      var p := t.progress[found.value];
      ReplaceProgressKeeps(t, found.value, p.(completedLessons := p.completedLessons + [lessonId]));
    }
  }

  /** No record for (caller, course): 404 and nothing changes. */
  lemma UpdateProgressNotEnrolled(t: Tables, caller: Id, courseId: Id, lessonId: Id)
    requires forall p :: p in t.progress ==> !IsPair(p, caller, courseId)
    ensures UpdateProgress(t, caller, courseId, lessonId) == Step(t, Failure(404, "Not enrolled or progress not found"))
  {
  }

  /** Marking the same lesson twice is the same as marking it once. */
  lemma UpdateProgressIdempotent(t: Tables, caller: Id, courseId: Id, lessonId: Id)
    ensures var s1 := UpdateProgress(t, caller, courseId, lessonId);
      UpdateProgress(s1.tables, caller, courseId, lessonId) == s1
  {
    var s1 := UpdateProgress(t, caller, courseId, lessonId);
    match FindPair(t.progress, caller, courseId)
    case None =>
    case Some(k) =>
      var k1 := FindPair(s1.tables.progress, caller, courseId);
      assert k1 == Some(k) by {
        assert forall j :: 0 <= j < |t.progress| ==>
          IsPair(s1.tables.progress[j], caller, courseId) == IsPair(t.progress[j], caller, courseId);
      }
  }

  /** The record's list only ever grows by this one id, at the end and only when
      absent: no entry is lost or reordered, no duplicate appears, `isCompleted`
      and every other record, course, lesson and user stay as they were. */
  lemma UpdateProgressAppendsOnce(t: Tables, caller: Id, courseId: Id, lessonId: Id, k: nat)
    requires k < |t.progress| && IsPair(t.progress[k], caller, courseId)
    requires forall j :: 0 <= j < k ==> !IsPair(t.progress[j], caller, courseId)
    ensures var s := UpdateProgress(t, caller, courseId, lessonId);
      var old_ := t.progress[k].completedLessons;
      && s.response.Success?
      && |s.tables.progress| == |t.progress|
      && s.tables.progress[k].completedLessons
           == (if lessonId in old_ then old_ else old_ + [lessonId])
      && lessonId in s.tables.progress[k].completedLessons
      && (NoDuplicates(old_) ==> NoDuplicates(s.tables.progress[k].completedLessons))
      && s.tables.progress[k].isCompleted == t.progress[k].isCompleted
      && (forall j :: 0 <= j < |t.progress| && j != k ==> s.tables.progress[j] == t.progress[j])
      && s.tables.courses == t.courses && s.tables.lessons == t.lessons && s.tables.users == t.users
  {
    assert FindPair(t.progress, caller, courseId) == Some(k);
  }

  /** Whether a lesson id is accepted does not depend on the lessons collection:
      ids of lessons of other courses, or of no lesson at all, are recorded alike. */
  lemma UpdateProgressIgnoresLessons(t: Tables, ls: seq<Lesson>, caller: Id, courseId: Id, lessonId: Id)
    ensures UpdateProgress(t.(lessons := ls), caller, courseId, lessonId).tables.progress
         == UpdateProgress(t, caller, courseId, lessonId).tables.progress
    ensures UpdateProgress(t.(lessons := ls), caller, courseId, lessonId).response
         == UpdateProgress(t, caller, courseId, lessonId).response
  {
  }

  // ---------------------------------------------------------------- getMyCourses

  /** `populate({ path: 'course', select, populate: 'instructor' })` for one record. */
  function Summary(t: Tables, courseId: Id): (r: Option<CourseSummary>)
    ensures r.Some? <==> exists c :: c in t.courses && c.id == courseId
    ensures r.Some? ==> r.value.id == courseId
  {
    match FindCourse(t.courses, courseId)
    case None => None
    case Some(i) =>
      var c := t.courses[i];
      var instructor := match FindUser(t.users, c.instructor)
        case None => None
        case Some(u) => Some(InstructorRef(t.users[u].id, t.users[u].name));
      Some(CourseSummary(c.id, c.title, c.description, c.image, instructor))
  }

  function ToEnrollment(t: Tables, p: Progress): Enrollment {
    Enrollment(p.id, p.student, Summary(t, p.course), p.completedLessons, p.isCompleted)
  }

  /** `getMyCourses`: every record of the caller, in store order, with its course. */
  function GetMyCourses(t: Tables, caller: Id): (r: seq<Enrollment>)
    ensures |r| == CountWhere(t.progress, (p: Progress) => p.student == caller)
  {
    MyCoursesOf(t, t.progress, caller)
  }

  function MyCoursesOf(t: Tables, ps: seq<Progress>, caller: Id): (r: seq<Enrollment>)
    ensures |r| == CountWhere(ps, (p: Progress) => p.student == caller)
    ensures forall e :: e in r ==> e.student == caller
  {
    if ps == [] then []
    else (if ps[0].student == caller then [ToEnrollment(t, ps[0])] else []) + MyCoursesOf(t, ps[1..], caller)
  }

  /** The list is the caller's records in store order, each carrying its course
      summary, or no course when the course has been deleted. */
  lemma {:induction false} MyCoursesAreRecords(t: Tables, ps: seq<Progress>, caller: Id)
    ensures MyCoursesOf(t, ps, caller)
      == seq(|Filter(ps, (p: Progress) => p.student == caller)|,
             k requires 0 <= k < |Filter(ps, (p: Progress) => p.student == caller)| =>
               ToEnrollment(t, Filter(ps, (p: Progress) => p.student == caller)[k]))
  {
    if ps != [] {
      MyCoursesAreRecords(t, ps[1..], caller);
    }
  }

  // ---------------------------------------------------------------- removeStudent

  /** `removeStudent`: drop every occurrence of the student from the course's
      `students`, save, then delete the pair's progress record. */
  function RemoveStudent(t: Tables, courseId: Id, studentId: Id): Step<string> {
    match FindCourse(t.courses, courseId)
    case None => Step(t, Failure(404, "Course not found"))
    case Some(i) =>
      var students := Filter(t.courses[i].students, (s: Id) => s != studentId);
      Step(t.(courses := t.courses[i := t.courses[i].(students := students)],
              progress := DeletePair(t.progress, studentId, courseId)),
           Success(200, "Student removed from course"))
  }

  method RemoveStudentFrom(db: Db, courseId: Id, studentId: Id) returns (response: Response<string>)
    requires db.Valid()
    modifies db
    ensures db.Valid()
    ensures Step(db.Snapshot(), response) == RemoveStudent(old(db.Snapshot()), courseId, studentId)
  {
    RemoveKeepsConsistent(db.Snapshot(), courseId, studentId);
    var found := FindCourse(db.courses, courseId);
    if found.None? {
      return Failure(404, "Course not found");
    }
    var i := found.value;
    var course := db.courses[i];
    course := course.(students := Filter(course.students, (s: Id) => s != studentId));
    db.courses := db.courses[i := course];
    db.progress := DeletePair(db.progress, studentId, courseId);
    response := Success(200, "Student removed from course");
  }

  lemma RemoveKeepsConsistent(t: Tables, courseId: Id, studentId: Id)
    requires Consistent(t)
    ensures Consistent(RemoveStudent(t, courseId, studentId).tables)
  {
    var found := FindCourse(t.courses, courseId);
    if found.Some? {
      var i := found.value;
      var c := t.courses[i].(students := Filter(t.courses[i].students, (s: Id) => s != studentId));
      assert t.courses[i] in t.courses;
      ReplaceCourseKeeps(t, i, c);
      var t1 := t.(courses := t.courses[i := c]);
      var ps := DeletePair(t.progress, studentId, courseId);
      DeletePairKeepsUnique(t.progress, studentId, courseId);
      ProgressKeep(t1, ps);
      assert t1.(progress := ps) == RemoveStudent(t, courseId, studentId).tables;
    }
  }

  /** After a removal the student is in the course's list no more, everyone else
      stays, and the pair's progress is gone, so `getProgress` answers 404. */
  lemma RemoveStudentEffect(t: Tables, courseId: Id, studentId: Id, i: nat)
    requires i < |t.courses| && t.courses[i].id == courseId
    requires forall k :: 0 <= k < i ==> t.courses[k].id != courseId
    ensures var t1 := RemoveStudent(t, courseId, studentId).tables;
      && studentId !in t1.courses[i].students
      && (forall s :: s in t.courses[i].students && s != studentId ==> s in t1.courses[i].students)
      && (forall s :: s in t1.courses[i].students ==> s in t.courses[i].students)
      && GetProgress(t1, studentId, courseId) == Failure(404, "Progress not found")
      && (forall p :: p in t.progress && !IsPair(p, studentId, courseId) ==> p in t1.progress)
      && t1.users == t.users && t1.lessons == t.lessons
      && |t1.courses| == |t.courses|
      && (forall k :: 0 <= k < |t.courses| && k != i ==> t1.courses[k] == t.courses[k])
  {
    assert FindCourse(t.courses, courseId) == Some(i);
    FilterMembers(t.courses[i].students, (s: Id) => s != studentId);
  }

  /** Removal keeps the remaining students in their original order: the new
      list is the old one without the student, and it acts on each stretch of
      the old list separately, so whatever came first still comes first. */
  lemma {:induction false} RemoveKeepsOrder(t: Tables, courseId: Id, studentId: Id, i: nat, a: seq<Id>, b: seq<Id>)
    requires i < |t.courses| && t.courses[i].id == courseId
    requires forall k :: 0 <= k < i ==> t.courses[k].id != courseId
    requires t.courses[i].students == a + b
    ensures var t1 := RemoveStudent(t, courseId, studentId).tables;
      && t1.courses[i].students == Filter(t.courses[i].students, (s: Id) => s != studentId)
      && t1.courses[i].students
         == Filter(a, (s: Id) => s != studentId) + Filter(b, (s: Id) => s != studentId)
  {
    assert FindCourse(t.courses, courseId) == Some(i);
    FilterAppend(a, b, (s: Id) => s != studentId);
  }

  // ---------------------------------------------------------------- isCompleted

  /** No record marked completed. */
  ghost predicate NoneCompleted(ps: seq<Progress>) {
    forall p :: p in ps ==> !p.isCompleted
  }

  /** Nothing in the ledger ever sets `isCompleted`: enrolling, marking lessons
      and removing students all keep every record incomplete. */
  lemma LedgerNeverCompletes(t: Tables, caller: Id, courseId: Id, lessonId: Id)
    requires NoneCompleted(t.progress)
    ensures NoneCompleted(Enroll(t, caller, courseId).tables.progress)
    ensures NoneCompleted(UpdateProgress(t, caller, courseId, lessonId).tables.progress)
    ensures NoneCompleted(RemoveStudent(t, courseId, caller).tables.progress)
  {
    var t1 := UpdateProgress(t, caller, courseId, lessonId).tables;
    forall p | p in t1.progress ensures !p.isCompleted {
      var j :| 0 <= j < |t1.progress| && t1.progress[j] == p;
      assert t.progress[j] in t.progress;
    }
  }
}
