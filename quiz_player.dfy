/** The quiz a student takes: one answer slot per question, selection until
    a result arrives, submission once every question is answered, and a
    retry after a failed attempt. */
module QuizPlayer {
  import opened Common

  /** The body the submit request answers with. */
  datatype QuizResult = QuizResult(score: nat, totalPoints: nat, isPassed: bool)

  /** An answer slot: the chosen option, or null. */
  type Answers = seq<Option<nat>>

  /** `new Array(n).fill(null)` */
  function Blank(n: nat): (r: Answers)
    ensures |r| == n && forall k :: 0 <= k < n ==> r[k].None?
  {
    seq(n, _ => None)
  }

  /** The copy with slot `q` set to option `o`. */
  function Selected(answers: Answers, q: nat, o: nat): (r: Answers)
    requires q < |answers|
    ensures |r| == |answers| && r[q] == Some(o)
    ensures forall k :: 0 <= k < |answers| && k != q ==> r[k] == answers[k]
  {
    answers[q := Some(o)]
  }

  /** `answers.some(a => a === null)` */
  predicate Missing(answers: Answers) {
    exists k :: 0 <= k < |answers| && answers[k].None?
  }

  /** Selections applied one after the other. */
  function SelectAll(answers: Answers, picks: seq<(nat, nat)>): (r: Answers)
    requires forall k :: 0 <= k < |picks| ==> picks[k].0 < |answers|
    ensures |r| == |answers|
    decreases |picks|
  {
    if picks == [] then answers
    else SelectAll(Selected(answers, picks[0].0, picks[0].1), picks[1..])
  }

  /** Some selection is for question `q`. */
  predicate Picked(picks: seq<(nat, nat)>, q: nat) {
    exists k :: 0 <= k < |picks| && picks[k].0 == q
  }

  /** A slot, once filled, stays filled; a picked slot is filled. */
  lemma {:induction false} SelectAllFills(answers: Answers, picks: seq<(nat, nat)>)
    requires forall k :: 0 <= k < |picks| ==> picks[k].0 < |answers|
    ensures forall q :: 0 <= q < |answers| && answers[q].Some? ==> SelectAll(answers, picks)[q].Some?
    ensures forall q :: 0 <= q < |answers| && Picked(picks, q) ==> SelectAll(answers, picks)[q].Some?
    decreases |picks|
  {
    if picks != [] {
      var next := Selected(answers, picks[0].0, picks[0].1);
      SelectAllFills(next, picks[1..]);
      forall q | 0 <= q < |answers| && Picked(picks, q) ensures SelectAll(answers, picks)[q].Some? {
        var k :| 0 <= k < |picks| && picks[k].0 == q;
        if k > 0 {
          assert picks[1..][k - 1].0 == q;
        }
      }
    }
  }

  /** Answering every question, in any order and with any changes of mind,
      makes the quiz submittable. */
  lemma AnsweringEveryQuestion(n: nat, picks: seq<(nat, nat)>)
    requires forall k :: 0 <= k < |picks| ==> picks[k].0 < n
    requires forall q :: 0 <= q < n ==> Picked(picks, q)
    ensures !Missing(SelectAll(Blank(n), picks))
  {
    SelectAllFills(Blank(n), picks);
  }

  /** A fresh quiz cannot be submitted unless it has no questions. */
  lemma FreshQuizMissing(n: nat)
    ensures Missing(Blank(n)) <==> n > 0
  {
    if n > 0 {
      assert Blank(n)[0].None?;
    }
  }

  class Player {
    var answers: Answers
    var result: Option<QuizResult>
    var submitting: bool
    var error: Option<string>

    /** The state for a lesson with `questions` questions. */
    constructor (questions: nat)
      ensures answers == Blank(questions) && result.None? && !submitting && error.None?
    {
      answers := Blank(questions);
      result := None;
      submitting := false;
      error := None;
    }

    /** `handleSelect`: ignored once a result exists. */
    method HandleSelect(q: nat, o: nat)
      requires q < |answers|
      modifies this
      ensures result == old(result) && submitting == old(submitting) && error == old(error)
      ensures answers == if old(result).Some? then old(answers) else Selected(old(answers), q, o)
    {
      if result.Some? {
        return;
      }
      answers := Selected(answers, q, o);
    }

    /** `handleSubmit`, given the server's answer (none when the request
      fails). Returns whether a request was sent and whether `onComplete`
      was called. */
    method HandleSubmit(response: Option<QuizResult>) returns (sent: bool, completed: bool)
      modifies this
      ensures answers == old(answers)
      ensures sent <==> !Missing(old(answers))
      ensures submitting == (if sent then false else old(submitting))
      ensures !sent ==> error == Some("Please answer all questions") && result == old(result)
      ensures sent && response.Some? ==> result == response && error == old(error)
      ensures sent && response.None? ==> error == Some("Failed to submit quiz") && result == old(result)
      ensures completed <==> sent && response.Some? && response.value.isPassed
    {
      if Missing(answers) {
        error := Some("Please answer all questions");
        return false, false;
      }
      sent := true;
      submitting := true;
      if response.Some? {
        result := response;
        completed := response.value.isPassed;
      } else {
        error := Some("Failed to submit quiz");
        completed := false;
      }
      submitting := false;
    }

    /** "Try Again": the result is cleared and every slot emptied. */
    method TryAgain()
      modifies this
      ensures result.None? && answers == Blank(|old(answers)|)
      ensures submitting == old(submitting) && error == old(error)
    {
      result := None;
      answers := Blank(|answers|);
    }
  }
}
