/** The course page: which lesson opens first, the completion percentage,
    and marking the current lesson complete. */
module CourseDetail {
  import opened Common

  /** An entry of the page's `completedLessons`: a lesson document as
      `getProgress` populates it, or a bare id the page appended itself.
      `includes(id)` compares with `===`, so only a bare id can match. */
  datatype Entry = Populated(lesson: Id) | Bare(id: Id) {
    function Key(): Id {
      match this
      case Populated(l) => l
      case Bare(i) => i
    }
  }

  /** `progress?.completedLessons?.includes(id)` */
  predicate Includes(completed: Option<seq<Entry>>, id: Id) {
    completed.Some? && Bare(id) in completed.value
  }

  /** Whether an entry names the lesson, whatever its form. */
  predicate Covers(completed: Option<seq<Entry>>, id: Id) {
    completed.Some? && exists e :: e in completed.value && e.Key() == id
  }

  /** The lesson to open: the first one `done` does not hold, else the first. */
  function FirstOpen(lessons: seq<Id>, done: Id -> bool): (r: Option<Id>)
    ensures r.Some? <==> |lessons| > 0
    ensures r.Some? ==> r.value in lessons
    ensures (exists k :: 0 <= k < |lessons| && !done(lessons[k])) ==>
      exists k :: 0 <= k < |lessons| && r == Some(lessons[k]) && !done(lessons[k]) &&
        forall j :: 0 <= j < k ==> done(lessons[j])
    ensures |lessons| > 0 && (forall k :: 0 <= k < |lessons| ==> done(lessons[k])) ==> r == Some(lessons[0])
  {
    if |lessons| == 0 then None
    else match FindFirst(lessons, (l: Id) => !done(l))
      case Some(k) => Some(lessons[k])
      case None => Some(lessons[0])
  }

  /** The lesson the page opens with: the first not in `completedLessons`,
      or the first lesson; none when the course has no lessons. */
  function InitialLesson(lessons: seq<Id>, completed: Option<seq<Entry>>): Option<Id> {
    FirstOpen(lessons, (id: Id) => Includes(completed, id))
  }

  /** `Math.round((completed.length || 0) / (lessons.length || 1) * 100)`,
      computed exactly. */
  function Percentage(completed: Option<seq<Entry>>, lessons: seq<Id>): (r: nat)
    ensures |lessons| == 0 && (completed.None? || completed.value == []) ==> r == 0
  {
    var done := if completed.Some? then |completed.value| else 0;
    RoundHalfUp(100 * done, if |lessons| == 0 then 1 else |lessons|)
  }

  /** The button is disabled when the current lesson is already listed. */
  predicate CompleteDisabled(completed: Option<seq<Entry>>, current: Option<Id>) {
    current.Some? && Includes(completed, current.value)
  }

  /** The lesson after `id` in course order (`findIndex` gives -1 when it is
      missing, so the first lesson follows), or none after the last. */
  function NextLesson(lessons: seq<Id>, id: Id): (r: Option<Id>)
    ensures r.Some? ==> r.value in lessons
    ensures forall k :: 0 <= k < |lessons| - 1 && lessons[k] == id && id !in lessons[..k] ==> r == Some(lessons[k + 1])
    ensures |lessons| > 0 && lessons[|lessons| - 1] == id && id !in lessons[..|lessons| - 1] ==> r.None?
    ensures id !in lessons && |lessons| > 0 ==> r == Some(lessons[0])
  {
    var index: int := match FindFirst(lessons, (l: Id) => l == id) case Some(k) => k case None => -1;
    if index < |lessons| - 1 then Some(lessons[index + 1]) else None
  }

  // ---------------------------------------------------------------- properties

  lemma MulMono(a: int, b: int, n: nat)
    requires a <= b
    ensures a * n <= b * n
  {
  }

  /** Rounded, `done` of `n` lessons is at most 100%, and exactly 100% when
      all are done. */
  lemma RoundedPercent(done: nat, n: nat)
    requires 0 < n && done <= n
    ensures RoundHalfUp(100 * done, n) <= 100
    ensures done == n ==> RoundHalfUp(100 * done, n) == 100
  {
    var r := RoundHalfUp(100 * done, n);
    MulMono(done, n, 200);
    if r > 100 {
      MulMono(201, 2 * r - 1, n);
    }
    if done == n && r < 100 {
      MulMono(2 * r + 1, 199, n);
    }
  }

  /** Rounded, fewer than 200 lessons show 100% only when all are done. */
  lemma RoundedShort(done: nat, n: nat)
    requires done < n < 200
    ensures RoundHalfUp(100 * done, n) < 100
  {
    var r := RoundHalfUp(100 * done, n);
    MulMono(done, n - 1, 200);
    if r >= 100 {
      MulMono(199, 2 * r - 1, n);
    }
  }

  /** Rounded, all but one of more than 200 lessons shows 100%. */
  lemma RoundedAlmost(n: nat)
    requires n > 200
    ensures RoundHalfUp(100 * (n - 1), n) == 100
  {
    var r := RoundHalfUp(100 * (n - 1), n);
    if r < 100 {
      MulMono(2 * r + 1, 199, n);
    }
    if r > 100 {
      MulMono(201, 2 * r - 1, n);
    }
  }

  /** Rounded down, `done` of `n` lessons is 100% exactly when all are done. */
  lemma FlooredPercent(done: nat, n: nat)
    requires 0 < n && done <= n
    ensures 100 * done / n <= 100
    ensures 100 * done / n == 100 <==> done == n
  {
    var q := 100 * done / n;
    assert q * n <= 100 * done < (q + 1) * n;
    MulMono(done, n, 100);
    if q > 100 {
      MulMono(101, q, n);
    }
    if done == n {
      assert 100 * done == 100 * n;
      if q < 100 {
        MulMono(q + 1, 100, n);
      }
    }
  }

  /** The ids the entries name. */
  function Keys(completed: seq<Entry>): (r: seq<Id>)
    ensures |r| == |completed|
    ensures forall k :: 0 <= k < |r| ==> r[k] == completed[k].Key()
  {
    if completed == [] then [] else [completed[0].Key()] + Keys(completed[1..])
  }

  /** `lessons` without the first occurrence of `x`. */
  function RemoveFirst(lessons: seq<Id>, x: Id): (r: seq<Id>)
    requires x in lessons
    ensures |r| == |lessons| - 1
    ensures forall y :: y in lessons && y != x ==> y in r
    ensures forall y :: y in r ==> y in lessons
  {
    if lessons[0] == x then lessons[1..] else [lessons[0]] + RemoveFirst(lessons[1..], x)
  }

  /** A duplicate-free list drawn from `lessons` is no longer than it, and
      as long only when it names every lesson. */
  lemma {:induction false} SubsetLength(done: seq<Id>, lessons: seq<Id>)
    requires NoDuplicates(done)
    requires forall x :: x in done ==> x in lessons
    ensures |done| <= |lessons|
    ensures |done| == |lessons| ==> forall x :: x in lessons ==> x in done
  {
    if done != [] {
      var x := done[0];
      var rest := RemoveFirst(lessons, x);
      forall y | y in done[1..] ensures y in rest {
        assert y != x;
      }
      SubsetLength(done[1..], rest);
    }
  }

  /** What the page's list holds when it is right: every entry names a
      lesson of the course, and none twice. */
  predicate Sound(completed: seq<Entry>, lessons: seq<Id>) {
    NoDuplicates(Keys(completed)) && forall e :: e in completed ==> e.Key() in lessons
  }

  /** Bounds of the shown percentage: at most 100, 100 when every lesson is
      done, and, for fewer than 200 lessons, 100 only then. */
  lemma PercentageBounds(completed: seq<Entry>, lessons: seq<Id>)
    requires Sound(completed, lessons) && NoDuplicates(lessons)
    ensures Percentage(Some(completed), lessons) <= 100
    ensures |lessons| > 0 && (forall x :: x in lessons ==> Covers(Some(completed), x)) ==>
      Percentage(Some(completed), lessons) == 100
    ensures |lessons| < 200 && Percentage(Some(completed), lessons) == 100 ==>
      forall x :: x in lessons ==> Covers(Some(completed), x)
  {
    var keys := Keys(completed);
    forall x | x in keys ensures x in lessons {
      var k :| 0 <= k < |keys| && keys[k] == x;
      assert completed[k] in completed;
    }
    SubsetLength(keys, lessons);
    forall x | x in keys ensures Covers(Some(completed), x) {
      var k :| 0 <= k < |keys| && keys[k] == x;
      assert completed[k] in completed;
    }
    if forall x :: x in lessons ==> Covers(Some(completed), x) {
      forall x | x in lessons ensures x in keys {
        var e :| e in completed && e.Key() == x;
        var k :| 0 <= k < |completed| && completed[k] == e;
        assert keys[k] == x;
      }
      CoverAll(keys, lessons);
    }
    if |lessons| > 0 {
      RoundedPercent(|completed|, |lessons|);
      if |lessons| < 200 && |completed| < |lessons| {
        RoundedShort(|completed|, |lessons|);
      }
    }
  }

  /** A duplicate-free list that names every lesson is as long as the course. */
  lemma {:induction false} CoverAll(keys: seq<Id>, lessons: seq<Id>)
    requires NoDuplicates(lessons)
    requires forall x :: x in lessons ==> x in keys
    ensures |lessons| <= |keys|
  {
    SubsetLength(lessons, keys);
  }

  /** Finding: with more than 200 lessons, completing all but the last shows
      100% and "Course Completed!". */
  lemma AlmostDoneShowsComplete(lessons: seq<Id>)
    requires |lessons| > 200 && NoDuplicates(lessons)
    ensures var completed := Some(BareAll(lessons[..|lessons| - 1]));
      && !Covers(completed, lessons[|lessons| - 1])
      && Percentage(completed, lessons) == 100
  {
    var done := lessons[..|lessons| - 1];
    var last := lessons[|lessons| - 1];
    assert last !in done;
    RoundedAlmost(|lessons|);
  }

  /** The entries the page appends: bare ids. */
  function BareAll(ids: seq<Id>): (r: seq<Entry>)
    ensures |r| == |ids|
    ensures forall e :: e in r ==> e.Bare? && e.Key() in ids
  {
    if ids == [] then [] else [Bare(ids[0])] + BareAll(ids[1..])
  }

  /** The percentage as evidently intended: rounded down, so it reaches 100
      only when the course is done. */
  function FloorPercentage(completed: Option<seq<Entry>>, lessons: seq<Id>): (r: nat)
    ensures completed.Some? && |completed.value| < |lessons| ==> r < 100
  {
    var done := if completed.Some? then |completed.value| else 0;
    var n := if |lessons| == 0 then 1 else |lessons|;
    assert done < n ==> 100 * done / n < 100 by {
      if done < n {
        FlooredBelow(done, n);
      }
    }
    100 * done / n
  }

  /** Rounded down, fewer than `n` of `n` lessons stay below 100%. */
  lemma FlooredBelow(done: nat, n: nat)
    requires done < n
    ensures 100 * done / n < 100
  {
    var q := 100 * done / n;
    assert q * n <= 100 * done;
    MulMono(done, n - 1, 100);
    if q >= 100 {
      MulMono(100, q, n);
    }
  }

  /** Rounded down, 100% means every lesson of a non-empty course is done. */
  lemma FloorPercentageExact(completed: seq<Entry>, lessons: seq<Id>)
    requires Sound(completed, lessons) && NoDuplicates(lessons) && |lessons| > 0
    ensures FloorPercentage(Some(completed), lessons) <= 100
    ensures FloorPercentage(Some(completed), lessons) == 100 <==>
      forall x :: x in lessons ==> Covers(Some(completed), x)
  {
    var keys := Keys(completed);
    forall x | x in keys ensures x in lessons {
      var k :| 0 <= k < |keys| && keys[k] == x;
      assert completed[k] in completed;
    }
    SubsetLength(keys, lessons);
    FlooredPercent(|completed|, |lessons|);
    if FloorPercentage(Some(completed), lessons) == 100 {
      forall x | x in keys ensures Covers(Some(completed), x) {
        var k :| 0 <= k < |keys| && keys[k] == x;
        assert completed[k] in completed;
      }
    }
    if forall x :: x in lessons ==> Covers(Some(completed), x) {
      forall x | x in lessons ensures x in keys {
        var e :| e in completed && e.Key() == x;
        var k :| 0 <= k < |completed| && completed[k] == e;
        assert keys[k] == x;
      }
      CoverAll(keys, lessons);
    }
  }

  /** Finding: `getProgress` returns the completed lessons as documents, so
      after a reload no lesson counts as done. The page opens at the first
      lesson, and the button stays enabled for each lesson. */
  lemma ReloadForgetsProgress(lessons: seq<Id>, docs: seq<Id>, current: Id)
    requires |lessons| > 0
    ensures var completed := Some(PopulatedAll(docs));
      && InitialLesson(lessons, completed) == Some(lessons[0])
      && !CompleteDisabled(completed, Some(current))
  {
    var completed := Some(PopulatedAll(docs));
    forall k | 0 <= k < |lessons| ensures !Includes(completed, lessons[k]) {
      assert Bare(lessons[k]) !in completed.value;
    }
    assert Bare(current) !in completed.value;
  }

  /** The entries as `getProgress` sends them. */
  function PopulatedAll(ids: seq<Id>): (r: seq<Entry>)
    ensures |r| == |ids|
    ensures forall e :: e in r ==> e.Populated? && e.Key() in ids
    ensures forall x :: x in ids ==> Populated(x) in r
  {
    if ids == [] then [] else [Populated(ids[0])] + PopulatedAll(ids[1..])
  }

  /** Marking again a lesson finished before the reload appends it a second
      time, and a one-lesson course shows 200%. */
  lemma RecompletingOverflows(a: Id)
    ensures !CompleteDisabled(Some([Populated(a)]), Some(a))
    ensures Percentage(Some([Populated(a)] + [Bare(a)]), [a]) == 200
  {
  }

  /** The opening lesson as evidently intended: compared by id, so progress
      survives a reload. */
  function InitialLessonFixed(lessons: seq<Id>, completed: Option<seq<Entry>>): Option<Id> {
    FirstOpen(lessons, (id: Id) => Covers(completed, id))
  }

  /** With the fix, the page reopens at the first lesson not yet done. */
  lemma FixedResumes(lessons: seq<Id>, docs: seq<Id>, k: nat)
    requires k < |lessons| && lessons[k] !in docs
    requires forall j :: 0 <= j < k ==> lessons[j] in docs
    ensures InitialLessonFixed(lessons, Some(PopulatedAll(docs))) == Some(lessons[k])
  {
    var completed := Some(PopulatedAll(docs));
    forall j | 0 <= j < k ensures Covers(completed, lessons[j]) {
      assert Populated(lessons[j]) in completed.value;
    }
    assert !Covers(completed, lessons[k]);
    var r := InitialLessonFixed(lessons, completed);
    var i :| 0 <= i < |lessons| && r == Some(lessons[i]) && !Covers(completed, lessons[i]) &&
      forall j :: 0 <= j < i ==> Covers(completed, lessons[j]);
    assert i == k;
  }

  // ---------------------------------------------------------------- page state

  class CoursePage {
    /** The course's lesson ids in order, once loaded. */
    var course: Option<seq<Id>>
    var completed: Option<seq<Entry>>
    var current: Option<Id>
    var loading: bool

    constructor ()
      ensures course.None? && completed.None? && current.None? && loading
    {
      course := None;
      completed := None;
      current := None;
      loading := true;
    }

    /** The two requests on mount; `fetched` is none when either fails. */
    method Load(fetched: Option<(seq<Id>, seq<Entry>)>)
      modifies this
      ensures !loading
      ensures fetched.None? ==> course == old(course) && completed == old(completed) && current == old(current)
      ensures fetched.Some? ==> course == Some(fetched.value.0) && completed == Some(fetched.value.1)
      ensures fetched.Some? ==>
        current == (if |fetched.value.0| > 0 then InitialLesson(fetched.value.0, Some(fetched.value.1)) else old(current))
    {
      if fetched.Some? {
        var (lessons, entries) := fetched.value;
        course := Some(lessons);
        completed := Some(entries);
        if |lessons| > 0 {
          current := InitialLesson(lessons, Some(entries));
        }
      }
      loading := false;
    }

    /** `handleComplete`, given whether the server accepted the request:
      append the current id and move to the next lesson unless it is the
      last. Nothing changes when there is no current lesson or the request
      fails. */
    method HandleComplete(accepted: bool)
      requires course.Some?
      modifies this
      ensures course == old(course) && loading == old(loading)
      ensures !accepted || old(current).None? ==> completed == old(completed) && current == old(current)
      ensures accepted && old(current).Some? ==>
        completed == Some(old(completed).GetOr([]) + [Bare(old(current).value)])
      ensures accepted && old(current).Some? ==>
        current == (match NextLesson(course.value, old(current).value)
                    case Some(n) => Some(n)
                    case None => old(current))
    {
      if current.None? || !accepted {
        return;
      }
      var id := current.value;
      completed := Some(completed.GetOr([]) + [Bare(id)]);
      var lessons := course.value;
      var found := FindFirst(lessons, (l: Id) => l == id);
      var index: int := if found.Some? then found.value else -1;
      if index < |lessons| - 1 {
        current := Some(lessons[index + 1]);
      }
    }

    /** After the last lesson is marked, its button is disabled. */
    method CompleteLast()
      requires course.Some? && |course.value| > 0 && current == Some(course.value[|course.value| - 1])
      requires course.value[|course.value| - 1] !in course.value[..|course.value| - 1]
      modifies this
      ensures current == old(current) && CompleteDisabled(completed, current)
    {
      HandleComplete(true);
    }
  }
}
