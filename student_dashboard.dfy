/** The student's dashboard: the two lists it loads (every course, and the
    caller's enrollments), the search box that filters the list on show, and
    the "enrolled" mark on each card. Which list is on show follows the
    browser path. */
module StudentDashboard {
  import opened Common
  import opened CourseModel
  import opened CourseController
  import opened EnrollmentController
  import opened Store
  import opened ProgressModel

  /** A response body as the page sees it: a JSON array, or some other
      value (an object). */
  datatype Payload<T> = JsonArray(items: seq<T>) | JsonObject

  /** `Array.isArray(data) ? data : []` */
  function ArrayOrEmpty<T>(p: Payload<T>): (r: seq<T>)
    ensures p.JsonArray? ==> r == p.items
    ensures p.JsonObject? ==> r == []
  {
    match p
    case JsonArray(items) => items
    case JsonObject => []
  }

  /** The fields of a card the page reads. A card built from an enrollment
      carries the record's id as `progressId`; the course summary has no
      category. */
  datatype Card = Card(id: Id, title: Option<string>, category: Option<string>, progressId: Option<Id>)

  function CourseCard(c: Course): Card {
    Card(c.id, Some(c.title), Some(c.category), None)
  }

  /** `{ ...p.course, progressId: p._id }` */
  function EnrolledCard(e: Enrollment): Card
    requires e.course.Some?
  {
    Card(e.course.value.id, Some(e.course.value.title), None, Some(e.id))
  }

  function CourseCards(cs: seq<Course>): (r: seq<Card>)
    ensures |r| == |cs| && forall k :: 0 <= k < |cs| ==> r[k] == CourseCard(cs[k])
  {
    seq(|cs|, k requires 0 <= k < |cs| => CourseCard(cs[k]))
  }

  /** `map(p => p.course ? {...} : null).filter(Boolean)`: the enrollments
      whose course still exists, in order, as cards. */
  function MyCards(es: seq<Enrollment>): (r: seq<Card>)
    ensures |r| == CountWhere(es, (e: Enrollment) => e.course.Some?)
    ensures forall c :: c in r ==> c.title.Some? && c.progressId.Some? && c.category.None?
    decreases |es|
  {
    if es == [] then []
    else (if es[0].course.Some? then [EnrolledCard(es[0])] else []) + MyCards(es[1..])
  }

  /** The card is made from an enrollment of `es` with a course. */
  predicate FromEnrollment(es: seq<Enrollment>, c: Card) {
    exists e :: e in es && e.course.Some? && c == EnrolledCard(e)
  }

  /** The my-courses list holds exactly the cards of the enrollments whose
      course still exists. */
  lemma {:induction false} MyCardsAreEnrollments(es: seq<Enrollment>)
    ensures forall c :: c in MyCards(es) <==> FromEnrollment(es, c)
    decreases |es|
  {
    if es != [] {
      MyCardsAreEnrollments(es[1..]);
      forall c | FromEnrollment(es, c) ensures c in MyCards(es) {
        var e :| e in es && e.course.Some? && c == EnrolledCard(e);
        if e != es[0] {
          assert e in es[1..];
          assert FromEnrollment(es[1..], c);
        }
      }
      forall c | c in MyCards(es) ensures FromEnrollment(es, c) {
        if !(es[0].course.Some? && c == EnrolledCard(es[0])) {
          assert c in MyCards(es[1..]);
          assert FromEnrollment(es[1..], c);
          var e :| e in es[1..] && e.course.Some? && c == EnrolledCard(e);
          assert e in es;
        }
      }
    }
  }

  /** What a completed load sets: both lists. */
  datatype Lists = Lists(courses: seq<Card>, myCourses: seq<Card>)

  /** The JSON `getCourses` sends: the listing object, with `success`,
      `count`, `total`, `page`, `pages` and `data`. */
  function ListingJson(l: Listing): Payload<Course> {
    JsonObject
  }

  /** `fetchData`, as written: both requests together; if either is
      rejected nothing is set (the catch only logs). On success each list
      goes through the array guard. */
  function Load(all: Response<Listing>, mine: Response<seq<Enrollment>>): (r: Option<Lists>)
    ensures r.Some? <==> all.Success? && mine.Success?
    ensures r.Some? ==> r.value.myCourses == MyCards(mine.body)
  {
    if all.Failure? || mine.Failure? then None
    else
      Some(Lists(CourseCards(ArrayOrEmpty(ListingJson(all.body))), MyCards(ArrayOrEmpty(JsonArray(mine.body)))))
  }

  /** The query the page sends to `/api/courses`: none. */
  const NoQuery := ListQuery(None, None, None, None)

  /** The message `handleEnroll` shows for a rejected request: the
      server's, or "Enrollment failed" when there is none. */
  function EnrollError<T>(f: Response<T>): string
    requires f.Failure?
  {
    if f.message != "" then f.message else "Enrollment failed"
  }

  /** What `handleEnroll` leaves: the lists on the page and the error shown. */
  datatype EnrollOutcome = EnrollOutcome(lists: Lists, error: Option<string>)

  /** `handleEnroll`, given the answers to the enroll request and to the two
      reloads sent after it succeeds. Any rejection keeps the lists on show
      and sets the error; otherwise both lists are replaced as on load. */
  function HandleEnroll(shown: Lists, enroll: Response<string>, all: Response<Listing>,
                        mine: Response<seq<Enrollment>>): (r: EnrollOutcome)
    ensures r.error.None? <==> enroll.Success? && all.Success? && mine.Success?
    ensures r.error.None? ==> Load(all, mine) == Some(r.lists)
    ensures r.error.Some? ==> r.lists == shown
    ensures enroll.Failure? ==> r.error == Some(EnrollError(enroll))
  {
    if enroll.Failure? then EnrollOutcome(shown, Some(EnrollError(enroll)))
    else if all.Failure? then EnrollOutcome(shown, Some(EnrollError(all)))
    else if mine.Failure? then EnrollOutcome(shown, Some(EnrollError(mine)))
    else EnrollOutcome(Load(all, mine).value, None)
  }

  /** The caller's list over two runs of records is the two lists joined. */
  lemma {:induction false} MyCoursesOfAppend(t: Tables, a: seq<Progress>, b: seq<Progress>, caller: Id)
    ensures MyCoursesOf(t, a + b, caller) == MyCoursesOf(t, a, caller) + MyCoursesOf(t, b, caller)
    decreases |a|
  {
    if a == [] {
      assert a + b == b;
    } else {
      assert (a + b)[0] == a[0] && (a + b)[1..] == a[1..] + b;
      var head := if a[0].student == caller then [ToEnrollment(t, a[0])] else [];
      assert MyCoursesOf(t, a + b, caller) == head + MyCoursesOf(t, a[1..] + b, caller);
      assert MyCoursesOf(t, a, caller) == head + MyCoursesOf(t, a[1..], caller);
      MyCoursesOfAppend(t, a[1..], b, caller);
    }
  }

  /** After the server accepts an enrollment, the reload puts the course on
      the caller's list, as a card carrying the new record's id, and the
      enrollment error stays clear. */
  lemma EnrolledCourseListed(t: Tables, caller: Id, courseId: Id, i: nat, shown: Lists)
    requires i < |t.courses| && t.courses[i].id == courseId && caller !in t.courses[i].students
    requires forall k :: 0 <= k < i ==> t.courses[k].id != courseId
    requires forall p :: p in t.progress ==> !IsPair(p, caller, courseId)
    ensures var s := Enroll(t, caller, courseId);
      var r := HandleEnroll(shown, s.response, GetCourses(s.tables, NoQuery), Success(200, GetMyCourses(s.tables, caller)));
      && r.error.None?
      && exists c :: c in r.lists.myCourses && c.id == courseId && c.progressId == Some(t.nextId)
  {
    EnrollSucceeds(t, caller, courseId, i);
    var s := Enroll(t, caller, courseId);
    var t2 := s.tables;
    ListingShape(t2, NoQuery);
    var rec := Progress(t.nextId, caller, courseId, [], false);
    MyCoursesOfAppend(t2, t.progress, [rec], caller);
    var e := ToEnrollment(t2, rec);
    assert t2.courses[i] in t2.courses;
    assert e.course.Some? && e.course.value.id == courseId;
    var es := GetMyCourses(t2, caller);
    assert e in es;
    MyCardsAreEnrollments(es);
    assert FromEnrollment(es, EnrolledCard(e));
  }

  /** `location.pathname.includes('my-courses')` */
  predicate IsMyCoursesView(path: string) {
    Contains(path, "my-courses")
  }

  /** The search test on one card: title or category, both lowered, holds
      the lowered query. A missing field never matches. */
  predicate Matches(c: Card, search: string) {
    || (c.title.Some? && Contains(Lower(c.title.value), Lower(search)))
    || (c.category.Some? && Contains(Lower(c.category.value), Lower(search)))
  }

  /** The search test as a filter callback. */
  function MatchesSearch(search: string): Card -> bool {
    (c: Card) => Matches(c, search)
  }

  /** `coursesToShow`: the list of the current view, filtered by the search. */
  function CoursesToShow(path: string, lists: Lists, search: string): (r: seq<Card>)
    ensures var source := if IsMyCoursesView(path) then lists.myCourses else lists.courses;
      forall c :: c in r <==> c in source && Matches(c, search)
    ensures |r| <= |if IsMyCoursesView(path) then lists.myCourses else lists.courses|
  {
    var source := if IsMyCoursesView(path) then lists.myCourses else lists.courses;
    FilterMembers(source, MatchesSearch(search));
    Filter(source, MatchesSearch(search))
  }

  /** The search works card by card, in list order: a view whose list is
      `a + b` shows the matches of `a`, then those of `b`; a single card is
      shown once if it matches and not at all otherwise. So the shown cards
      are the matching cards of the view, each as often as it is listed and
      in the list's order. */
  lemma SearchKeepsOrder(path: string, lists: Lists, search: string, a: seq<Card>, b: seq<Card>)
    requires (if IsMyCoursesView(path) then lists.myCourses else lists.courses) == a + b
    ensures CoursesToShow(path, lists, search)
      == CoursesToShow(path, lists.(myCourses := a, courses := a), search)
       + CoursesToShow(path, lists.(myCourses := b, courses := b), search)
    ensures |a| == 1 ==>
      CoursesToShow(path, lists.(myCourses := a, courses := a), search)
        == if Matches(a[0], search) then a else []
  {
    FilterAppend(a, b, MatchesSearch(search));
    if |a| == 1 {
      assert a[1..] == [];
    }
  }

  /** `isMyCourses || myCourses.some(my => my._id === course._id)` */
  predicate MarkedEnrolled(path: string, lists: Lists, c: Card) {
    IsMyCoursesView(path) || exists m :: m in lists.myCourses && m.id == c.id
  }

  lemma LowerCharIdempotent(c: char)
    ensures LowerChar(LowerChar(c)) == LowerChar(c)
  {
  }

  /** Lowering twice is lowering once. */
  lemma LowerIdempotent(s: string)
    ensures Lower(Lower(s)) == Lower(s)
  {
    forall i | 0 <= i < |s| ensures Lower(Lower(s))[i] == Lower(s)[i] {
      LowerCharIdempotent(s[i]);
    }
  }

  /** The search ignores the case of the query. */
  lemma SearchIgnoresCase(path: string, lists: Lists, search: string)
    ensures CoursesToShow(path, lists, Lower(search)) == CoursesToShow(path, lists, search)
  {
    LowerIdempotent(search);
    var source := if IsMyCoursesView(path) then lists.myCourses else lists.courses;
    FilterSameTest(source, (c: Card) => Matches(c, Lower(search)), (c: Card) => Matches(c, search));
  }

  /** Two tests that agree on every element filter alike. */
  lemma {:induction false} FilterSameTest(s: seq<Card>, p: Card -> bool, q: Card -> bool)
    requires forall c :: c in s ==> p(c) == q(c)
    ensures Filter(s, p) == Filter(s, q)
    decreases |s|
  {
    if s != [] {
      assert s[0] in s;
      assert forall c :: c in s[1..] ==> c in s;
      FilterSameTest(s[1..], p, q);
    }
  }

  /** A filter whose test every element passes keeps the list as it is. */
  lemma {:induction false} FilterKeepsAll(s: seq<Card>, p: Card -> bool)
    requires forall c :: c in s ==> p(c)
    ensures Filter(s, p) == s
    decreases |s|
  {
    if s != [] {
      assert s[0] in s;
      assert forall c :: c in s[1..] ==> c in s;
      FilterKeepsAll(s[1..], p);
    }
  }

  /** An empty search box shows the whole list of the view, in order, since
      every card has a title. */
  lemma EmptySearchShowsAll(path: string, lists: Lists)
    requires forall c :: c in lists.courses ==> c.title.Some?
    requires forall c :: c in lists.myCourses ==> c.title.Some?
    ensures CoursesToShow(path, lists, "") == if IsMyCoursesView(path) then lists.myCourses else lists.courses
  {
    var source := if IsMyCoursesView(path) then lists.myCourses else lists.courses;
    forall c | c in source ensures Matches(c, "") {
      EmptyContained(Lower(c.title.value));
      assert Lower("") == "";
    }
    FilterKeepsAll(source, (c: Card) => Matches(c, ""));
  }

  /** Finding: `getCourses` answers with the listing object, not an array,
      so the guard replaces it by `[]` and the explore view shows no course,
      whatever the store holds and whatever is searched. */
  lemma ExploreAlwaysEmpty(t: Tables, caller: Id, path: string, search: string)
    requires !IsMyCoursesView(path)
    ensures var l := Load(GetCourses(t, NoQuery), Success(200, GetMyCourses(t, caller)));
      l.Some? && CoursesToShow(path, l.value, search) == []
  {
    ListingShape(t, NoQuery);
  }

  /** The load as evidently intended: the course list is the listing's
      `data`. */
  function LoadFixed(all: Response<Listing>, mine: Response<seq<Enrollment>>): (r: Option<Lists>)
    ensures r.Some? <==> all.Success? && mine.Success?
    ensures r.Some? ==> r.value.courses == CourseCards(all.body.data) && r.value.myCourses == MyCards(mine.body)
  {
    if all.Failure? || mine.Failure? then None
    else Some(Lists(CourseCards(all.body.data), MyCards(mine.body)))
  }

  /** With the fix, the explore view with an empty search shows the first
      page of the catalogue: the first fifty courses of the store, in store
      order. */
  lemma ExploreShowsFirstPage(t: Tables, caller: Id, path: string)
    requires !IsMyCoursesView(path)
    ensures var l := LoadFixed(GetCourses(t, NoQuery), Success(200, GetMyCourses(t, caller)));
      && l.Some?
      && CoursesToShow(path, l.value, "") == CourseCards(t.courses[..Min(50, |t.courses|)])
  {
    FirstPageListed(t);
    var l := LoadFixed(GetCourses(t, NoQuery), Success(200, GetMyCourses(t, caller))).value;
    EmptySearchShowsAll(path, l);
  }

  /** The unfiltered listing's first page is the store's first fifty courses. */
  lemma FirstPageListed(t: Tables)
    ensures GetCourses(t, NoQuery).Success?
    ensures GetCourses(t, NoQuery).body.data == t.courses[..Min(50, |t.courses|)]
  {
    ListingShape(t, NoQuery);
    FilterKeepsAllCourses(t.courses);
  }

  /** With no instructor asked for, every course matches. */
  lemma {:induction false} FilterKeepsAllCourses(cs: seq<Course>)
    ensures Filter(cs, ByInstructor(None)) == cs
    decreases |cs|
  {
    if cs != [] {
      FilterKeepsAllCourses(cs[1..]);
    }
  }

  /** With the fix, a card of the explore view is marked enrolled exactly
      when the caller holds a record for that course (and the course still
      exists). */
  lemma ExploreMarksEnrollments(t: Tables, caller: Id, path: string, c: Card)
    requires !IsMyCoursesView(path)
    ensures var l := LoadFixed(GetCourses(t, NoQuery), Success(200, GetMyCourses(t, caller)));
      && l.Some?
      && (MarkedEnrolled(path, l.value, c) <==>
          exists e :: e in GetMyCourses(t, caller) && e.course.Some? && e.course.value.id == c.id)
  {
    ListingShape(t, NoQuery);
    var es := GetMyCourses(t, caller);
    var l := LoadFixed(GetCourses(t, NoQuery), Success(200, es)).value;
    MyCardsAreEnrollments(es);
    if MarkedEnrolled(path, l, c) {
      var m :| m in l.myCourses && m.id == c.id;
      assert FromEnrollment(es, m);
      var e :| e in es && e.course.Some? && m == EnrolledCard(e);
    }
    if exists e :: e in es && e.course.Some? && e.course.value.id == c.id {
      var e :| e in es && e.course.Some? && e.course.value.id == c.id;
      assert FromEnrollment(es, EnrolledCard(e));
      assert EnrolledCard(e) in l.myCourses;
    }
  }
}
