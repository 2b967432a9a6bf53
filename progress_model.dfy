/** The Progress schema: one enrollment record per (student, course) pair,
    with the ordered list of lessons the student has marked complete. */
module ProgressModel {
  import opened Common

  /** A stored progress document. `completedLessons` is a plain ordered list of
      lesson references: the schema imposes neither uniqueness nor membership
      in the course. */
  datatype Progress = Progress(
    id: Id,
    student: Id,
    course: Id,
    completedLessons: seq<Id>,
    isCompleted: bool)

  /** The fields handed to `Progress.create`; absent fields are `None`. */
  datatype ProgressDraft = ProgressDraft(
    student: Option<Id>,
    course: Option<Id>,
    completedLessons: seq<Id>,
    isCompleted: Option<bool>)

  /** Schema validation and defaults: `student` and `course` are required,
      `isCompleted` defaults to false. */
  function Validate(id: Id, d: ProgressDraft): (r: Option<Progress>)
    ensures r.Some? <==> d.student.Some? && d.course.Some?
    ensures r.Some? ==>
      && r.value.id == id && r.value.student == d.student.value
      && r.value.course == d.course.value && r.value.completedLessons == d.completedLessons
      && r.value.isCompleted == (d.isCompleted.Some? && d.isCompleted.value)
  {
    if d.student.None? || d.course.None? then None
    else Some(Progress(id, d.student.value, d.course.value, d.completedLessons, d.isCompleted.GetOr(false)))
  }

  /** The record `enrollCourse` asks for: no lessons completed, not completed. */
  function Initial(id: Id, student: Id, course: Id): (p: Progress)
    ensures p.student == student && p.course == course && p.id == id
    ensures p.completedLessons == [] && !p.isCompleted
  {
    Validate(id, ProgressDraft(Some(student), Some(course), [], None)).value
  }

  predicate IsPair(p: Progress, student: Id, course: Id) {
    p.student == student && p.course == course
  }

  /** The compound unique index on (student, course): no two records share a pair. */
  ghost predicate UniquePairs(ps: seq<Progress>) {
    forall i, j :: 0 <= i < j < |ps| ==> !IsPair(ps[j], ps[i].student, ps[i].course)
  }

  /** `Progress.findOne({ student, course })`: the first matching record. */
  function FindPair(ps: seq<Progress>, student: Id, course: Id): (r: Option<nat>)
    ensures r.Some? ==> r.value < |ps| && IsPair(ps[r.value], student, course)
    ensures r.None? <==> forall k :: 0 <= k < |ps| ==> !IsPair(ps[k], student, course)
  {
    FindFirst(ps, (p: Progress) => IsPair(p, student, course))
  }

  /** Under the unique index a found record is the only one for its pair. */
  lemma FindPairUnique(ps: seq<Progress>, student: Id, course: Id, k: nat)
    requires UniquePairs(ps)
    requires k < |ps| && IsPair(ps[k], student, course)
    ensures FindPair(ps, student, course) == Some(k)
  {
  }

  /** An insert as the unique index lets it through: a duplicate pair is refused
      (MongoDB's E11000 error), anything else is appended. */
  function Insert(ps: seq<Progress>, p: Progress): (r: Option<seq<Progress>>)
    ensures r.None? <==> FindPair(ps, p.student, p.course).Some?
    ensures r.Some? ==> r.value == ps + [p]
    ensures UniquePairs(ps) && r.Some? ==> UniquePairs(r.value)
  {
    if FindPair(ps, p.student, p.course).Some? then None else Some(ps + [p])
  }

  /** `Progress.findOneAndDelete({ student, course })`; with the unique index at most
      one record matches, so removing every match is the same. */
  function DeletePair(ps: seq<Progress>, student: Id, course: Id): (r: seq<Progress>)
    ensures forall p :: p in r <==> p in ps && !IsPair(p, student, course)
    ensures |r| <= |ps|
    ensures FindPair(r, student, course).None?
  {
    FilterMembers(ps, (p: Progress) => !IsPair(p, student, course));
    Filter(ps, (p: Progress) => !IsPair(p, student, course))
  }

  lemma {:induction false} DeletePairKeepsUnique(ps: seq<Progress>, student: Id, course: Id)
    requires UniquePairs(ps)
    ensures UniquePairs(DeletePair(ps, student, course))
  {
    if ps != [] {
      DeletePairKeepsUnique(ps[1..], student, course);
      var rest := DeletePair(ps[1..], student, course);
      if !IsPair(ps[0], student, course) {
        assert DeletePair(ps, student, course) == [ps[0]] + rest;
        forall j | 0 <= j < |rest| ensures !IsPair(rest[j], ps[0].student, ps[0].course) {
          assert rest[j] in ps[1..];
          var k :| 0 <= k < |ps[1..]| && ps[1..][k] == rest[j];
          assert ps[k + 1] == rest[j];
        }
      } else {
        assert DeletePair(ps, student, course) == rest;
      }
    }
  }
}
