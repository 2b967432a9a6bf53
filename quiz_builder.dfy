/** The instructor's quiz editor. The question list is a new array on every
    change, but the questions in it are shared objects, and each question's
    options array is shared with the list it was copied from. */
module QuizBuilder {

  class Question {
    var text: string
    var options: array<string>
    var correct: nat

    /** The question `addQuestion` appends. */
    constructor Blank()
      ensures text == "" && correct == 0
      ensures fresh(options) && options[..] == ["", "", "", ""]
    {
      text := "";
      options := new string[4](_ => "");
      correct := 0;
    }

    /** `{ ...q, [field]: value }`: a new object whose `options` is the
      same array as `q`'s. */
    constructor Edited(q: Question, field: Field)
      ensures options == q.options
      ensures field.QuestionText? ==> text == field.text && correct == q.correct
      ensures field.CorrectOption? ==> correct == field.index && text == q.text
    {
      options := q.options;
      match field
      case QuestionText(t) =>
        text := t;
        correct := q.correct;
      case CorrectOption(i) =>
        text := q.text;
        correct := i;
    }
  }

  /** The fields the editor passes to `updateQuestion`. */
  datatype Field = QuestionText(text: string) | CorrectOption(index: nat)

  /** `addQuestion`: the old list with a blank question at the end. */
  method AddQuestion(questions: seq<Question>) returns (r: seq<Question>)
    ensures |r| == |questions| + 1 && r[..|questions|] == questions
    ensures fresh(r[|questions|]) && fresh(r[|questions|].options)
    ensures r[|questions|].text == "" && r[|questions|].correct == 0
    ensures r[|questions|].options[..] == ["", "", "", ""]
  {
    var q := new Question.Blank();
    r := questions + [q];
  }

  /** `updateQuestion`: a list of the same length where only the question at
      `index` is replaced, by a copy that differs in the named field and
      shares its options. */
  method UpdateQuestion(questions: seq<Question>, index: nat, field: Field) returns (r: seq<Question>)
    requires index < |questions|
    ensures |r| == |questions|
    ensures forall k :: 0 <= k < |questions| && k != index ==> r[k] == questions[k]
    ensures fresh(r[index]) && r[index].options == questions[index].options
    ensures field.QuestionText? ==> r[index].text == field.text && r[index].correct == questions[index].correct
    ensures field.CorrectOption? ==> r[index].correct == field.index && r[index].text == questions[index].text
  {
    var q := new Question.Edited(questions[index], field);
    r := questions[index := q];
  }

  /** `updateOption`: the list handed on holds the same questions, and the
      option is written into the array the caller's list shares, so the
      previous list changes too. */
  method UpdateOption(questions: seq<Question>, qIndex: nat, oIndex: nat, value: string) returns (r: seq<Question>)
    requires qIndex < |questions| && oIndex < questions[qIndex].options.Length
    modifies questions[qIndex].options
    ensures r == questions
    ensures questions[qIndex].options[oIndex] == value
    ensures forall k :: 0 <= k < questions[qIndex].options.Length && k != oIndex ==>
      questions[qIndex].options[k] == old(questions[qIndex].options[k])
  {
    r := questions;
    questions[qIndex].options[oIndex] := value;
  }

  /** `questions.filter((_, i) => i !== index)` */
  function RemoveAt<T>(questions: seq<T>, index: int): (r: seq<T>)
    ensures 0 <= index < |questions| ==> |r| == |questions| - 1
    ensures 0 <= index < |questions| ==> forall k :: 0 <= k < |r| ==> r[k] == questions[if k < index then k else k + 1]
    ensures !(0 <= index < |questions|) ==> r == questions
    decreases |questions|
  {
    if questions == [] then []
    else (if index == 0 then [] else [questions[0]]) + RemoveAt(questions[1..], index - 1)
  }

  /** Removing a question keeps every other one, in order. */
  lemma RemoveKeepsOthers<T>(questions: seq<T>, index: nat)
    requires index < |questions|
    ensures RemoveAt(questions, index) == questions[..index] + questions[index + 1..]
  {
    var r := RemoveAt(questions, index);
    var s := questions[..index] + questions[index + 1..];
    assert |r| == |s|;
    forall k | 0 <= k < |r| ensures r[k] == s[k] {
    }
  }

  /** After `updateOption`, the previous question still shares its options
      with the list handed on, so the edit shows through both. */
  method EditThroughCopy(questions: seq<Question>, qIndex: nat, text: string, value: string) returns (r: seq<Question>)
    requires qIndex < |questions| && 0 < questions[qIndex].options.Length
    modifies questions[qIndex].options
    ensures |r| == |questions| && r[qIndex].options == questions[qIndex].options
    ensures r[qIndex].options[0] == value && questions[qIndex].options[0] == value
  {
    var edited := UpdateQuestion(questions, qIndex, QuestionText(text));
    r := UpdateOption(edited, qIndex, 0, value);
  }
}
