/** The analytics handlers: store-wide totals for admins, per-course
    enrollment and completion figures for an instructor, and a student's
    own enrollment summary. */
module AnalyticsController {
  import opened Common
  import opened ProgressModel
  import opened CourseModel
  import opened Store
  import EnrollmentController

  /** `enrollments === 0 ? 0 : Math.round((completedCount / enrollments) * 100)`,
      the rounding computed exactly (halves up). */
  function CompletionRate(completed: nat, enrollments: nat): (r: nat)
    ensures enrollments == 0 ==> r == 0
    ensures enrollments > 0 ==> 200 * completed < (2 * r + 1) * enrollments
    ensures enrollments > 0 ==> (2 * r - 1) * enrollments <= 200 * completed
  {
    if enrollments == 0 then 0 else RoundHalfUp(100 * completed, enrollments)
  }

  /** A rate of a part of the whole lies in [0, 100]; none completed gives 0 and
      all completed gives 100. */
  lemma CompletionRateBounds(completed: nat, enrollments: nat)
    requires completed <= enrollments
    ensures 0 <= CompletionRate(completed, enrollments) <= 100
    ensures completed == 0 ==> CompletionRate(completed, enrollments) == 0
    ensures 0 < enrollments == completed ==> CompletionRate(completed, enrollments) == 100
  {
    if enrollments > 0 {
      var r := CompletionRate(completed, enrollments);
      MulCancel((2 * r) as int - 1, 200, enrollments);
      if completed == enrollments {
        MulCancelStrict(199, 2 * r + 1, enrollments);
      }
    }
  }

  // Cancelling a positive factor: kept apart so that the solver sees only
  // the product, not the rounding facts around it.
  lemma MulCancel(a: int, b: int, e: int)
    requires e > 0 && a * e <= b * e
    ensures a <= b
  {
  }

  lemma MulCancelStrict(a: int, b: int, e: int)
    requires e > 0 && a * e < b * e
    ensures a < b
  {
  }

  // ---------------------------------------------------------------- instructor

  /** `Course.find({ instructor })` */
  function OwnedBy(instructor: Id): Course -> bool {
    (c: Course) => c.instructor == instructor
  }

  /** `Progress.countDocuments({ course })` */
  function ForCourse(courseId: Id): Progress -> bool {
    (p: Progress) => p.course == courseId
  }

  /** `Progress.countDocuments({ course, isCompleted: true })` */
  function CompletedFor(courseId: Id): Progress -> bool {
    (p: Progress) => p.course == courseId && p.isCompleted
  }

  datatype CourseStat = CourseStat(title: string, enrollments: nat, completedCount: nat, completionRate: nat)

  /** The `courseStats` entry of one course. */
  function StatOf(c: Course, ps: seq<Progress>): (s: CourseStat)
    ensures s.title == c.title && s.completedCount <= s.enrollments && s.completionRate <= 100
  {
    var enrollments := CountWhere(ps, ForCourse(c.id));
    var completed := CountWhere(ps, CompletedFor(c.id));
    CountMonotone(ps, CompletedFor(c.id), ForCourse(c.id));
    CompletionRateBounds(completed, enrollments);
    CourseStat(c.title, enrollments, completed, CompletionRate(completed, enrollments))
  }

  /** The sum of the `enrollments` column. */
  function TotalEnrollments(stats: seq<CourseStat>): nat {
    if stats == [] then 0 else TotalEnrollments(stats[..|stats| - 1]) + stats[|stats| - 1].enrollments
  }

  /** `getInstructorStats`: one pass over the caller's courses in query order,
      counting each course's records and summing the enrollments. */
  method InstructorStats(db: Db, caller: Id) returns (totalCourses: nat, totalStudents: nat, courseStats: seq<CourseStat>)
    ensures var mine := Filter(db.courses, OwnedBy(caller));
      && totalCourses == |mine| == |courseStats|
      && (forall j :: 0 <= j < |mine| ==> courseStats[j] == StatOf(mine[j], db.progress))
    ensures totalStudents == TotalEnrollments(courseStats)
    ensures db.Valid() ==>
      totalStudents == CountWhere(db.progress, InCourses(CourseIds(Filter(db.courses, OwnedBy(caller)))))
  {
    var myCourses := Filter(db.courses, OwnedBy(caller));
    courseStats := [];
    totalStudents := 0;
    for k := 0 to |myCourses|
      invariant |courseStats| == k
      invariant forall j :: 0 <= j < k ==> courseStats[j] == StatOf(myCourses[j], db.progress)
      invariant totalStudents == TotalEnrollments(courseStats)
    {
      var course := myCourses[k];
      var enrollments := CountWhere(db.progress, ForCourse(course.id));
      var completedCount := CountWhere(db.progress, CompletedFor(course.id));
      totalStudents := totalStudents + enrollments;
      courseStats := courseStats + [CourseStat(course.title, enrollments, completedCount,
                                               CompletionRate(completedCount, enrollments))];
      assert courseStats[..k] == courseStats[..|courseStats| - 1];
    }
    totalCourses := |myCourses|;
    if db.Valid() {
      InstructorTotalCountsRecords(db.Snapshot(), caller, courseStats);
    }
  }

  /** The courses' ids. */
  function CourseIds(cs: seq<Course>): (ids: set<Id>)
    ensures forall c :: c in cs ==> c.id in ids
  {
    set c | c in cs :: c.id
  }

  function InCourses(ids: set<Id>): Progress -> bool {
    (p: Progress) => p.course in ids
  }

  /** With distinct course ids, `totalStudents` is the number of progress records
      that belong to one of the instructor's courses: every record is counted once. */
  lemma {:induction false} TotalStudentsCountsRecords(stats: seq<CourseStat>, cs: seq<Course>, ps: seq<Progress>)
    requires |stats| == |cs|
    requires forall j :: 0 <= j < |cs| ==> stats[j] == StatOf(cs[j], ps)
    requires forall i, j :: 0 <= i < j < |cs| ==> cs[i].id != cs[j].id
    ensures TotalEnrollments(stats) == CountWhere(ps, InCourses(CourseIds(cs)))
  {
    if cs == [] {
      assert CourseIds(cs) == {};
      CountMonotone(ps, InCourses({}), (p: Progress) => false);
      CountZero(ps);
    } else {
      var n := |cs| - 1;
      var init := cs[..n];
      assert forall j :: 0 <= j < n ==> stats[..n][j] == StatOf(init[j], ps);
      TotalStudentsCountsRecords(stats[..n], init, ps);
      assert TotalEnrollments(stats) == TotalEnrollments(stats[..n]) + CountWhere(ps, ForCourse(cs[n].id));
      CourseIdsSnoc(cs, n);
      CountDisjointUnion(ps, InCourses(CourseIds(init)), ForCourse(cs[n].id), InCourses(CourseIds(cs)));
    }
  }

  /** In a consistent store the instructor's courses have distinct ids, so
      `totalStudents` counts each of their progress records exactly once. */
  lemma InstructorTotalCountsRecords(t: Tables, caller: Id, stats: seq<CourseStat>)
    requires Consistent(t)
    requires var mine := Filter(t.courses, OwnedBy(caller));
      |stats| == |mine| && forall j :: 0 <= j < |mine| ==> stats[j] == StatOf(mine[j], t.progress)
    ensures TotalEnrollments(stats) == CountWhere(t.progress, InCourses(CourseIds(Filter(t.courses, OwnedBy(caller)))))
  {
    var mine := Filter(t.courses, OwnedBy(caller));
    DistinctFilter(t.courses, OwnedBy(caller), CourseKey);
    TotalStudentsCountsRecords(stats, mine, t.progress);
  }

  /** The ids of a list of courses with distinct ids grow by exactly the new id. */
  lemma CourseIdsSnoc(cs: seq<Course>, n: nat)
    requires n + 1 == |cs|
    requires forall i, j :: 0 <= i < j < |cs| ==> cs[i].id != cs[j].id
    ensures CourseIds(cs) == CourseIds(cs[..n]) + {cs[n].id}
    ensures cs[n].id !in CourseIds(cs[..n])
  {
    assert cs == cs[..n] + [cs[n]];
  }

  lemma {:induction false} CountZero(ps: seq<Progress>)
    ensures CountWhere(ps, (p: Progress) => false) == 0
  {
    if ps != [] {
      CountZero(ps[1..]);
    }
  }

  /** Since nothing ever sets `isCompleted`, every course reports no completions
      and a rate of 0. */
  lemma NoCompletionsReported(c: Course, ps: seq<Progress>)
    requires EnrollmentController.NoneCompleted(ps)
    ensures StatOf(c, ps).completedCount == 0 && StatOf(c, ps).completionRate == 0
  {
    CountNone(ps, CompletedFor(c.id));
    CompletionRateBounds(0, CountWhere(ps, ForCourse(c.id)));
  }

  // ---------------------------------------------------------------- student

  /** One `detailedProgress` entry (the `updatedAt` timestamp is not modelled). */
  datatype Detail = Detail(courseTitle: string, category: string, completedLessons: nat, isCompleted: bool)

  datatype StudentReport = StudentReport(
    totalEnrolled: nat, completedCourses: nat, inProgressCourses: nat, detailedProgress: seq<Detail>)

  function IsCompleted(p: Progress): bool { p.isCompleted }

  function OfStudent(student: Id): Progress -> bool {
    (p: Progress) => p.student == student
  }

  /** The record's course no longer exists, so `populate` leaves it null. */
  predicate Orphan(cs: seq<Course>, p: Progress) {
    p.course !in CourseIds(cs)
  }

  /** Some record of the list has lost its course. */
  predicate HasOrphan(cs: seq<Course>, ps: seq<Progress>) {
    exists j :: 0 <= j < |ps| && Orphan(cs, ps[j])
  }

  /** `getStudentStats`: the caller's records, then one pass over them. */
  method StudentStats(db: Db, caller: Id) returns (r: Response<StudentReport>)
    ensures var mine := Filter(db.progress, OfStudent(caller));
      r.Failure? <==> HasOrphan(db.courses, mine)
    ensures r.Failure? ==> r == Failure(500, "Server Error")
    ensures var mine := Filter(db.progress, OfStudent(caller));
      r.Success? ==> r.code == 200 && Summarizes(r.body, mine)
  {
    var myProgress := Filter(db.progress, OfStudent(caller));
    r := Summarize(db.courses, myProgress);
  }

  /** The report's figures describe the records: one entry each, completed and
      in-progress counts adding up to the total. */
  predicate Summarizes(report: StudentReport, mine: seq<Progress>) {
    && report.totalEnrolled == |mine| == |report.detailedProgress|
    && report.completedCourses + report.inProgressCourses == report.totalEnrolled
    && report.completedCourses == CountWhere(mine, IsCompleted)
    && forall j :: 0 <= j < |mine| ==>
         && report.detailedProgress[j].completedLessons == |mine[j].completedLessons|
         && report.detailedProgress[j].isCompleted == mine[j].isCompleted
  }

  /** The `myProgress.map` callback: count the record as completed or in
      progress, then read its course's title and category. A record whose
      course was deleted populates to null, and reading its title throws,
      which the handler turns into 500. */
  method Summarize(courses: seq<Course>, myProgress: seq<Progress>) returns (r: Response<StudentReport>)
    ensures r.Failure? <==> HasOrphan(courses, myProgress)
    ensures r.Failure? ==> r == Failure(500, "Server Error")
    ensures r.Success? ==> r.code == 200 && Summarizes(r.body, myProgress)
  {
    var completedCourses, inProgressCourses := 0, 0;
    var detailed: seq<Detail> := [];
    for k := 0 to |myProgress|
      invariant |detailed| == k
      invariant completedCourses + inProgressCourses == k
      invariant completedCourses == CountWhere(myProgress[..k], IsCompleted)
      invariant forall j :: 0 <= j < k ==> !Orphan(courses, myProgress[j])
      invariant forall j :: 0 <= j < k ==>
        && detailed[j].completedLessons == |myProgress[j].completedLessons|
        && detailed[j].isCompleted == myProgress[j].isCompleted
    {
      var p := myProgress[k];
      CountSnoc(myProgress[..k], p, IsCompleted);
      assert myProgress[..k + 1] == myProgress[..k] + [p];
      if p.isCompleted {
        completedCourses := completedCourses + 1;
      } else {
        inProgressCourses := inProgressCourses + 1;
      }
      var found := FindCourse(courses, p.course);
      if found.None? {
        assert p.course !in CourseIds(courses);
        return Failure(500, "Server Error");
      }
      var course := courses[found.value];
      assert course in courses;
      detailed := detailed + [Detail(course.title, course.category, |p.completedLessons|, p.isCompleted)];
    }
    assert myProgress[..|myProgress|] == myProgress;
    r := Success(200, StudentReport(|myProgress|, completedCourses, inProgressCourses, detailed));
  }

  lemma {:induction false} CountSnoc<T>(s: seq<T>, x: T, p: T -> bool)
    ensures CountWhere(s + [x], p) == CountWhere(s, p) + (if p(x) then 1 else 0)
  {
    if s == [] {
      assert [x][1..] == [];
    } else {
      assert (s + [x])[1..] == s[1..] + [x];
      CountSnoc(s[1..], x, p);
    }
  }

  // ---------------------------------------------------------------- admin

  datatype AdminReport = AdminReport(
    totalUsers: nat, totalCourses: nat, totalEnrollments: nat, usersByRole: map<string, nat>)

  function HasRole(role: string): User -> bool {
    (u: User) => u.role == role
  }

  /** `getAdminStats`: the three collection sizes and the `$group` of users by
      role, as a map from each role that occurs to its number of users (the
      order of the group results is not modelled). */
  function AdminStats(t: Tables): (r: AdminReport)
    ensures r.totalUsers == |t.users| && r.totalCourses == |t.courses| && r.totalEnrollments == |t.progress|
    ensures r.usersByRole.Keys == set u | u in t.users :: u.role
    ensures forall role :: role in r.usersByRole ==> r.usersByRole[role] == CountWhere(t.users, HasRole(role))
    ensures forall role :: role in r.usersByRole ==> 0 < r.usersByRole[role] <= r.totalUsers
  {
    var roles := set u | u in t.users :: u.role;
    var byRole := map role | role in roles :: CountWhere(t.users, HasRole(role));
    forall role | role in roles ensures 0 < byRole[role] <= |t.users| {
      var u :| u in t.users && u.role == role;
      CountPositive(t.users, HasRole(role), u);
    }
    AdminReport(|t.users|, |t.courses|, |t.progress|, byRole)
  }

  lemma {:induction false} CountPositive<T>(s: seq<T>, p: T -> bool, x: T)
    requires x in s && p(x)
    ensures CountWhere(s, p) > 0
  {
    if s[0] != x {
      CountPositive(s[1..], p, x);
    }
  }

  /** `totalEnrollments` counts progress records: a successful enroll raises it
      by one, a refused one leaves it as it was. */
  lemma EnrollmentTotal(t: Tables, caller: Id, courseId: Id)
    ensures var s := EnrollmentController.Enroll(t, caller, courseId);
      AdminStats(s.tables).totalEnrollments
        == AdminStats(t).totalEnrollments + (if s.response.Success? then 1 else 0)
  {
  }
}
