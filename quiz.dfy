/** The quiz tab (components/QuizView.tsx): four pieces of component state changed
    by three handlers, and the styling of each option button. */
module Quiz {
  import opened Wrappers
  import opened CourseTypes

  /** Number of true entries. */
  function CountTrue(bs: seq<bool>): (n: nat)
    ensures n <= |bs|
  {
    if bs == [] then 0 else (if bs[0] then 1 else 0) + CountTrue(bs[1..])
  }

  lemma {:induction false} CountTrueAppend(bs: seq<bool>, b: bool)
    ensures CountTrue(bs + [b]) == CountTrue(bs) + (if b then 1 else 0)
  {
    if bs != [] {
      assert (bs + [b])[1..] == bs[1..] + [b];
      CountTrueAppend(bs[1..], b);
    } else {
      assert [b][1..] == [];
    }
  }

  class QuizView {
    const questions: seq<QuizQuestion>
    var currentIdx: nat
    var selectedOption: Option<int>
    var isSubmitted: bool
    var score: nat
    /** Whether each submitted question was answered correctly, in order. */
    ghost var answers: seq<bool>

    /** The quiz invariant: the current question exists, a submitted question has a
        selection, one answer is recorded per submitted question, the answer recorded
        for a submitted current question is whether its selection is correct, and the
        score counts the correct answers. */
    ghost predicate Valid()
      reads this
      ensures Valid() ==> score <= currentIdx + (if isSubmitted then 1 else 0) <= |questions|
    {
      && 0 < |questions|
      && currentIdx < |questions|
      && (isSubmitted ==> selectedOption.Some?)
      && |answers| == currentIdx + (if isSubmitted then 1 else 0)
      && (isSubmitted ==> answers[currentIdx] == (selectedOption == Some(questions[currentIdx].correctAnswerIndex)))
      && score == CountTrue(answers)
    }

    /** The initial `useState` values. The render reads the current question
        unconditionally, so the quiz needs at least one question. */
    constructor (questions: seq<QuizQuestion>)
      requires 0 < |questions|
      ensures Valid()
      ensures this.questions == questions
      ensures currentIdx == 0 && selectedOption == None && !isSubmitted && score == 0
    {
      this.questions := questions;
      currentIdx := 0;
      selectedOption := None;
      isSubmitted := false;
      score := 0;
      answers := [];
    }

    /** The option button's click: `!isSubmitted && setSelectedOption(idx)`, for one
        of the current question's options. */
    method SelectOption(idx: int)
      requires Valid()
      requires 0 <= idx < |questions[currentIdx].options|
      modifies this
      ensures Valid()
      ensures selectedOption == if old(isSubmitted) then old(selectedOption) else Some(idx)
      ensures currentIdx == old(currentIdx) && isSubmitted == old(isSubmitted) && score == old(score)
      ensures answers == old(answers)
    {
      if !isSubmitted {
        selectedOption := Some(idx);
      }
    }

    /** handleSubmit, reachable only from the Submit button, which is shown while the
        question is not submitted and enabled once an option is selected. */
    method HandleSubmit()
      requires Valid()
      requires !isSubmitted && selectedOption.Some?
      modifies this
      ensures Valid()
      ensures isSubmitted
      ensures var correct := old(selectedOption) == Some(questions[currentIdx].correctAnswerIndex);
              score == old(score) + (if correct then 1 else 0) && answers == old(answers) + [correct]
      ensures currentIdx == old(currentIdx) && selectedOption == old(selectedOption)
    {
      var correct := selectedOption == Some(questions[currentIdx].correctAnswerIndex);
      isSubmitted := true;
      if correct {
        score := score + 1;
      }
      CountTrueAppend(answers, correct);
      answers := answers + [correct];
    }

    /** handleNext, reachable only from the Next/Finish button shown after submission.
        `completed` is whether onComplete is called; it does not depend on the score. */
    method HandleNext() returns (completed: bool)
      requires Valid()
      requires isSubmitted
      modifies this
      ensures Valid()
      ensures completed <==> old(currentIdx) == |questions| - 1
      ensures !completed ==>
                && currentIdx == old(currentIdx) + 1
                && selectedOption == None && !isSubmitted
                && score == old(score) && answers == old(answers)
      ensures completed ==>
                && currentIdx == old(currentIdx) && selectedOption == old(selectedOption)
                && isSubmitted == old(isSubmitted) && score == old(score) && answers == old(answers)
    {
      if currentIdx < |questions| - 1 {
        currentIdx := currentIdx + 1;
        selectedOption := None;
        isSubmitted := false;
        completed := false;
      } else {
        completed := true;
      }
    }

    /** `isCorrect`, which picks the feedback panel's colours and its "Correct!" or
        "Incorrect" heading. After a submission it agrees with the answer that
        submission recorded, which is the one that raised the score or not. */
    method IsCorrect() returns (correct: bool)
      requires Valid()
      ensures correct <==> selectedOption == Some(questions[currentIdx].correctAnswerIndex)
      ensures isSubmitted ==> (correct <==> answers[currentIdx])
    {
      correct := selectedOption == Some(questions[currentIdx].correctAnswerIndex);
    }

    /** Whether the button after submission reads "Finish Quiz" rather than
        "Next Question": exactly when HandleNext would report completion. */
    method ShowsFinish() returns (finish: bool)
      requires Valid()
      ensures finish <==> currentIdx == |questions| - 1
    {
      finish := !(currentIdx < |questions| - 1);
    }
  }

  /** How an option button is drawn. */
  datatype OptionStyle = Plain | Highlighted | MarkedCorrect | MarkedWrong | Dimmed

  function StyleOf(idx: int, isSubmitted: bool, selectedOption: Option<int>, correctAnswerIndex: int): OptionStyle
  {
    if isSubmitted then
      if idx == correctAnswerIndex then MarkedCorrect
      else if Some(idx) == selectedOption then MarkedWrong
      else Dimmed
    else if Some(idx) == selectedOption then Highlighted
    else Plain
  }

  /** `currentQuestion.options.map((option, idx) => ...)`: one style per option. */
  function OptionStyles(q: QuizQuestion, isSubmitted: bool, selectedOption: Option<int>): (styles: seq<OptionStyle>)
    ensures |styles| == |q.options|
  {
    seq(|q.options|, i requires 0 <= i < |q.options| => StyleOf(i, isSubmitted, selectedOption, q.correctAnswerIndex))
  }

  /** After submission exactly one button is marked correct when the correct index
      is one of the options, and at most one is marked wrong. */
  lemma SubmittedMarks(q: QuizQuestion, selectedOption: Option<int>)
    ensures forall i :: 0 <= i < |q.options| ==>
              (OptionStyles(q, true, selectedOption)[i] == MarkedCorrect <==> i == q.correctAnswerIndex)
    ensures forall i, j :: 0 <= i < j < |q.options| ==>
              !(OptionStyles(q, true, selectedOption)[i] == MarkedWrong && OptionStyles(q, true, selectedOption)[j] == MarkedWrong)
  {
  }

  /** Before submission only the selected option stands out; after it the correct
      option is marked correct, a wrong selection is marked wrong, and the rest are
      dimmed. So a correct selection is never marked wrong. */
  lemma StylesBeforeAndAfterSubmit(idx: int, selectedOption: Option<int>, correctAnswerIndex: int)
    ensures StyleOf(idx, false, selectedOption, correctAnswerIndex) == Highlighted <==> selectedOption == Some(idx)
    ensures StyleOf(idx, false, selectedOption, correctAnswerIndex) in {Plain, Highlighted}
    ensures StyleOf(idx, true, selectedOption, correctAnswerIndex) == MarkedCorrect <==> idx == correctAnswerIndex
    ensures StyleOf(idx, true, selectedOption, correctAnswerIndex) == MarkedWrong <==>
              selectedOption == Some(idx) && idx != correctAnswerIndex
    ensures StyleOf(idx, true, selectedOption, correctAnswerIndex) != Highlighted
    ensures StyleOf(idx, true, selectedOption, correctAnswerIndex) == Dimmed <==>
              idx != correctAnswerIndex && selectedOption != Some(idx)
  {
  }
}
