/** The document store the controllers work on: one collection per model,
    each in insertion (natural) order, and a source of fresh ids.
    Every database call of a handler is one atomic step on these collections. */
module Store {
  import opened Common
  import opened ProgressModel
  import opened CourseModel
  import opened LessonModel

  /** A user document, with the fields the handlers read. `password` is the
      stored credential that `matchPassword` compares against. */
  datatype User = User(id: Id, name: string, email: string, password: string, role: string)

  /** A snapshot of every collection. */
  datatype Tables = Tables(
    users: seq<User>,
    courses: seq<Course>,
    lessons: seq<Lesson>,
    progress: seq<Progress>,
    nextId: Id)

  /** The `_id` of each kind of document, as a key. */
  function UserKey(u: User): int { u.id }
  function CourseKey(c: Course): int { c.id }
  function LessonKey(l: Lesson): int { l.id }

  /** What every reachable store satisfies: ids already handed out are below
      `nextId`, no two users, courses or lessons share an `_id`, stored courses
      and lessons passed their schema, and the (student, course) index is
      unique. */
  ghost predicate Consistent(t: Tables) {
    && (forall u :: u in t.users ==> u.id < t.nextId)
    && (forall c :: c in t.courses ==> c.id < t.nextId && CourseModel.WellFormed(c))
    && (forall l :: l in t.lessons ==> l.id < t.nextId && LessonModel.WellFormed(l))
    && (forall p :: p in t.progress ==> p.id < t.nextId)
    && DistinctKeys(t.users, UserKey)
    && DistinctKeys(t.courses, CourseKey)
    && DistinctKeys(t.lessons, LessonKey)
    && UniquePairs(t.progress)
  }

  /** Replacing one course by a well-formed document with the same id keeps the store consistent. */
  lemma ReplaceCourseKeeps(t: Tables, i: nat, c: Course)
    requires Consistent(t) && i < |t.courses|
    requires c.id == t.courses[i].id && CourseModel.WellFormed(c)
    ensures Consistent(t.(courses := t.courses[i := c]))
  {
    var cs := t.courses[i := c];
    forall x | x in cs ensures x.id < t.nextId && CourseModel.WellFormed(x) {
      var k :| 0 <= k < |cs| && cs[k] == x;
      if k != i {
        assert t.courses[k] in t.courses;
      } else {
        assert t.courses[i] in t.courses;
      }
    }
    DistinctUpdate(t.courses, i, c, CourseKey);
    CoursesKeep(t, cs);
  }

  /** Replacing one progress record by one with the same id and pair keeps the store consistent. */
  lemma ReplaceProgressKeeps(t: Tables, k: nat, p: Progress)
    requires Consistent(t) && k < |t.progress|
    requires p.id == t.progress[k].id && p.student == t.progress[k].student && p.course == t.progress[k].course
    ensures Consistent(t.(progress := t.progress[k := p]))
  {
    var ps := t.progress[k := p];
    forall x | x in ps ensures x.id < t.nextId {
      var j :| 0 <= j < |ps| && ps[j] == x;
      assert t.progress[j] in t.progress;
    }
    assert forall j :: 0 <= j < |ps| ==> ps[j].student == t.progress[j].student && ps[j].course == t.progress[j].course;
    ProgressKeep(t, ps);
  }

  lemma CoursesKeep(t: Tables, cs: seq<Course>)
    requires Consistent(t)
    requires forall x :: x in cs ==> x.id < t.nextId && CourseModel.WellFormed(x)
    requires DistinctKeys(cs, CourseKey)
    ensures Consistent(t.(courses := cs))
  {
  }

  lemma UsersKeep(t: Tables, us: seq<User>)
    requires Consistent(t)
    requires forall u :: u in us ==> u.id < t.nextId
    requires DistinctKeys(us, UserKey)
    ensures Consistent(t.(users := us))
  {
  }

  lemma LessonsKeep(t: Tables, ls: seq<Lesson>)
    requires Consistent(t)
    requires forall l :: l in ls ==> l.id < t.nextId && LessonModel.WellFormed(l)
    requires DistinctKeys(ls, LessonKey)
    ensures Consistent(t.(lessons := ls))
  {
  }

  lemma ProgressKeep(t: Tables, ps: seq<Progress>)
    requires Consistent(t)
    requires forall p :: p in ps ==> p.id < t.nextId
    requires UniquePairs(ps)
    ensures Consistent(t.(progress := ps))
  {
  }

  /** Adding a record under a fresh id for a pair not yet stored keeps the store consistent. */
  lemma AppendProgressKeeps(t: Tables, p: Progress)
    requires Consistent(t) && p.id < t.nextId
    requires FindPair(t.progress, p.student, p.course).None?
    ensures Consistent(t.(progress := t.progress + [p]))
  {
    var ps := t.progress + [p];
    assert Insert(t.progress, p) == Some(ps);
    forall x | x in ps ensures x.id < t.nextId {
      if x != p {
        assert x in t.progress;
      }
    }
    ProgressKeep(t, ps);
  }

  /** Storing a well-formed lesson under a fresh id keeps the store consistent. */
  lemma AppendLessonKeeps(t: Tables, l: Lesson)
    requires Consistent(t) && l.id == t.nextId && LessonModel.WellFormed(l)
    ensures Consistent(t.(lessons := t.lessons + [l], nextId := t.nextId + 1))
  {
    var ls := t.lessons + [l];
    forall x | x in ls ensures x.id < t.nextId + 1 && LessonModel.WellFormed(x) {
      if x != l {
        assert x in t.lessons;
      }
    }
    DistinctSnoc(t.lessons, l, LessonKey);
    FreshIdKeeps(t);
    LessonsKeep(t.(nextId := t.nextId + 1), ls);
    assert t.(nextId := t.nextId + 1).(lessons := ls) == t.(lessons := ls, nextId := t.nextId + 1);
  }

  /** Storing a well-formed course under a fresh id keeps the store consistent. */
  lemma AppendCourseKeeps(t: Tables, c: Course)
    requires Consistent(t) && c.id == t.nextId && CourseModel.WellFormed(c)
    ensures Consistent(t.(courses := t.courses + [c], nextId := t.nextId + 1))
  {
    var cs := t.courses + [c];
    forall x | x in cs ensures x.id < t.nextId + 1 && CourseModel.WellFormed(x) {
      if x != c {
        assert x in t.courses;
      }
    }
    DistinctSnoc(t.courses, c, CourseKey);
    FreshIdKeeps(t);
    CoursesKeep(t.(nextId := t.nextId + 1), cs);
    assert t.(nextId := t.nextId + 1).(courses := cs) == t.(courses := cs, nextId := t.nextId + 1);
  }

  /** Storing a user under a fresh id keeps the store consistent. */
  lemma AppendUserKeeps(t: Tables, u: User)
    requires Consistent(t) && u.id == t.nextId
    ensures Consistent(t.(users := t.users + [u], nextId := t.nextId + 1))
  {
    var us := t.users + [u];
    forall x | x in us ensures x.id < t.nextId + 1 {
      if x != u {
        assert x in t.users;
      }
    }
    DistinctSnoc(t.users, u, UserKey);
    FreshIdKeeps(t);
    UsersKeep(t.(nextId := t.nextId + 1), us);
    assert t.(nextId := t.nextId + 1).(users := us) == t.(users := us, nextId := t.nextId + 1);
  }

  /** Handing out an id keeps the store consistent. */
  lemma FreshIdKeeps(t: Tables)
    requires Consistent(t)
    ensures Consistent(t.(nextId := t.nextId + 1))
  {
  }

  /** `Course.findById(id)` */
  function FindCourse(cs: seq<Course>, id: Id): (r: Option<nat>)
    ensures r.Some? ==> r.value < |cs| && cs[r.value].id == id
    ensures r.None? <==> forall c :: c in cs ==> c.id != id
  {
    FindFirst(cs, (c: Course) => c.id == id)
  }

  /** `Lesson.findById(id)` */
  function FindLesson(ls: seq<Lesson>, id: Id): (r: Option<nat>)
    ensures r.Some? ==> r.value < |ls| && ls[r.value].id == id
    ensures r.None? <==> forall l :: l in ls ==> l.id != id
  {
    FindFirst(ls, (l: Lesson) => l.id == id)
  }

  /** `User.findById(id)` */
  function FindUser(us: seq<User>, id: Id): (r: Option<nat>)
    ensures r.Some? ==> r.value < |us| && us[r.value].id == id
    ensures r.None? <==> forall u :: u in us ==> u.id != id
  {
    FindFirst(us, (u: User) => u.id == id)
  }

  /** `User.findOne({ email })` */
  function FindUserByEmail(us: seq<User>, email: string): (r: Option<nat>)
    ensures r.Some? ==> r.value < |us| && us[r.value].email == email
    ensures r.None? <==> forall u :: u in us ==> u.email != email
  {
    FindFirst(us, (u: User) => u.email == email)
  }

  /** The database as the handlers see it: collections they read and replace. */
  class Db {
    var users: seq<User>
    var courses: seq<Course>
    var lessons: seq<Lesson>
    var progress: seq<Progress>
    var nextId: Id

    function Snapshot(): (t: Tables)
      reads this
      ensures t.users == users && t.courses == courses && t.lessons == lessons
      ensures t.progress == progress && t.nextId == nextId
    {
      Tables(users, courses, lessons, progress, nextId)
    }

    ghost predicate Valid()
      reads this
    {
      Consistent(Snapshot())
    }

    constructor ()
      ensures Valid()
      ensures Snapshot() == Tables([], [], [], [], 0)
    {
      users, courses, lessons, progress, nextId := [], [], [], [], 0;
    }

    /** A new ObjectId, different from every id handed out before. */
    method NewId() returns (id: Id)
      modifies this`nextId
      ensures id == old(nextId) && nextId == id + 1
    {
      id := nextId;
      nextId := nextId + 1;
    }

    /** `User.create`: the new user document takes the next id. */
    method InsertUser(u: User)
      requires Valid() && u.id == nextId
      modifies this
      ensures Valid()
      ensures Snapshot() == old(Snapshot()).(users := old(users) + [u], nextId := old(nextId) + 1)
    {
      AppendUserKeeps(Snapshot(), u);
      var id := NewId();
      users := users + [u];
    }

    /** `Course.create`: the validated course document takes the next id. */
    method InsertCourse(c: Course)
      requires Valid() && c.id == nextId && CourseModel.WellFormed(c)
      modifies this
      ensures Valid()
      ensures Snapshot() == old(Snapshot()).(courses := old(courses) + [c], nextId := old(nextId) + 1)
    {
      AppendCourseKeeps(Snapshot(), c);
      var id := NewId();
      courses := courses + [c];
    }

    /** `Lesson.create`: the validated lesson document takes the next id. */
    method InsertLesson(l: Lesson)
      requires Valid() && l.id == nextId && LessonModel.WellFormed(l)
      modifies this
      ensures Valid()
      ensures Snapshot() == old(Snapshot()).(lessons := old(lessons) + [l], nextId := old(nextId) + 1)
    {
      AppendLessonKeeps(Snapshot(), l);
      var id := NewId();
      lessons := lessons + [l];
    }
  }
}
