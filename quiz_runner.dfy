/**
 The quiz runner's answer state: the per-question status shown after a
 submission (`getAnswerStatus`), the answers list it keeps while the quiz is
 taken (`handleSetAnswer` and the resets to all-null), and the submission
 that hands the answers to the scoring of the application shell.
 */
module QuizRunner {
  import opened Strings
  import opened Types
  import opened App

  /** What a question card shows. */
  datatype Status = Correct | Incorrect | Unanswered | Neutral

  /** `getAnswerStatus`: nothing is judged before the results are shown; an
      absent or empty answer is unanswered; otherwise mcq needs the exact
      answer and fill compares trimmed, lower-cased text. */
  function GetAnswerStatus(q: Question, a: Answer, showResults: bool): (st: Status)
    ensures !showResults ==> st == Neutral
    ensures showResults && (a == Null || a == Text("")) ==> st == Unanswered
    ensures showResults && a.Text? && a.value != "" ==> st == Correct || st == Incorrect
    ensures showResults && a.Text? && a.value != "" ==> (st == Correct <==> ScoredCorrect(q, a))
  {
    if !showResults then Neutral
    else if a == Null || a.value == "" then Unanswered
    else
      match q
      case MCQQuestion(_, _, answer) => if a.value == answer then Correct else Incorrect
      case FillQuestion(_, answer) =>
        if ToLower(Trim(a.value)) == ToLower(Trim(answer)) then Correct else Incorrect
  }

  /** `Array(n).fill(null)`. */
  function Blank(n: nat): (answers: seq<Answer>)
    ensures |answers| == n
    ensures forall k :: 0 <= k < n ==> answers[k] == Null
  {
    seq(n, k requires 0 <= k < n => Null)
  }

  /** `handleSetAnswer`: a copy of the answers with position `index` set to
      `value`; writing past the end leaves `undefined` holes, read as `Null`. */
  function WithAnswer(answers: seq<Answer>, index: nat, value: Answer): (r: seq<Answer>)
    ensures |r| == if index < |answers| then |answers| else index + 1
    ensures r[index] == value
    ensures forall k :: 0 <= k < |answers| && k != index ==> r[k] == answers[k]
    ensures forall k :: |answers| <= k < |r| && k != index ==> r[k] == Null
  {
    if index < |answers| then answers[index := value]
    else answers + Blank(index - |answers|) + [value]
  }

  /** Writing the same position twice keeps only the second answer. */
  lemma {:induction false} LastAnswerWins(answers: seq<Answer>, index: nat, v: Answer, w: Answer)
    requires index < |answers|
    ensures WithAnswer(WithAnswer(answers, index, v), index, w) == WithAnswer(answers, index, w)
  {
    assert WithAnswer(WithAnswer(answers, index, v), index, w) == answers[index := w];
  }

  /** Answers to different questions do not interfere. */
  lemma {:induction false} AnswersCommute(answers: seq<Answer>, i: nat, j: nat, v: Answer, w: Answer)
    requires i < |answers| && j < |answers| && i != j
    ensures WithAnswer(WithAnswer(answers, i, v), j, w) == WithAnswer(WithAnswer(answers, j, w), i, v)
  {
    assert WithAnswer(WithAnswer(answers, i, v), j, w) == answers[i := v][j := w];
    assert WithAnswer(WithAnswer(answers, j, w), i, v) == answers[j := w][i := v];
  }

  /** A fresh answer sheet scores nothing, and after a submission every card
      shows unanswered. */
  lemma {:induction false} BlankSheetScoresNothing(quiz: Quiz)
    ensures |CorrectIndices(quiz, Blank(|quiz|), |quiz|)| == 0
    ensures forall i :: 0 <= i < |quiz| ==> GetAnswerStatus(quiz[i], Blank(|quiz|)[i], true) == Unanswered
  {
    var blank := Blank(|quiz|);
    assert forall i: nat :: i < |quiz| ==> AnswerAt(blank, i) == Null;
    assert CorrectIndices(quiz, blank, |quiz|) == {};
  }

  /** The cards agree with the score: a card marked correct is counted, and a
      counted question is marked correct unless its answer is the empty string. */
  lemma {:induction false} StatusAgreesWithScore(quiz: Quiz, answers: seq<Answer>, i: nat)
    requires i < |quiz|
    ensures GetAnswerStatus(quiz[i], AnswerAt(answers, i), true) == Correct ==>
      i in CorrectIndices(quiz, answers, |quiz|)
    ensures i in CorrectIndices(quiz, answers, |quiz|) ==>
      || GetAnswerStatus(quiz[i], AnswerAt(answers, i), true) == Correct
      || (AnswerAt(answers, i) == Text("") && GetAnswerStatus(quiz[i], AnswerAt(answers, i), true) == Unanswered)
  {
  }

  /** The empty-string answer to a fill question is counted by the score
      exactly when the stored answer is blank, yet its card shows unanswered. */
  lemma {:induction false} EmptyFillAnswerScoredButUnanswered(q: Question)
    requires q.FillQuestion?
    ensures ScoredCorrect(q, Text("")) <==> AllWhitespace(q.answer)
    ensures GetAnswerStatus(q, Text(""), true) == Unanswered
  {
    assert Trim("") == "";
    assert ToLower("") == "";
    assert ToLower(Trim(q.answer)) == "" <==> Trim(q.answer) == "";
  }

  /** The state of one running quiz: the questions, one answer slot per
      question, and whether the results are shown. */
  class Runner {
    var quiz: Quiz
    var answers: seq<Answer>
    var showResults: bool

    ghost predicate Valid()
      reads this
    {
      |answers| == |quiz|
    }

    /** The initial state: all answers null, results hidden. */
    constructor (quiz: Quiz)
      ensures Valid()
      ensures this.quiz == quiz && answers == Blank(|quiz|) && !showResults
    {
      this.quiz := quiz;
      answers := Blank(|quiz|);
      showResults := false;
    }

    /** The effect run when a new quiz arrives: answers cleared, results hidden. */
    method QuizChanged(newQuiz: Quiz)
      modifies this
      ensures Valid()
      ensures quiz == newQuiz && answers == Blank(|newQuiz|) && !showResults
    {
      quiz := newQuiz;
      answers := Blank(|newQuiz|);
      showResults := false;
    }

    /** `handleSetAnswer`, called by the card of question `index`. */
    method SetAnswer(index: nat, value: Answer)
      requires Valid() && index < |quiz|
      modifies this`answers
      ensures Valid()
      ensures answers == WithAnswer(old(answers), index, value)
      ensures answers[index] == value
      ensures forall k :: 0 <= k < |answers| && k != index ==> answers[k] == old(answers)[k]
    {
      answers := WithAnswer(answers, index, value);
    }

    /** `handleSubmit`: the answers go to the scoring, then the results are shown. */
    method Submit() returns (score: Score)
      requires Valid()
      modifies this`showResults
      ensures Valid() && showResults
      ensures score.total == |quiz|
      ensures score.correct == |CorrectIndices(quiz, answers, |quiz|)| <= |quiz|
    {
      score := HandleSubmitAnswers(quiz, answers);
      showResults := true;
    }

    /** `handleRestart`: answers cleared, results hidden, same quiz. */
    method Restart()
      requires Valid()
      modifies this`answers, this`showResults
      ensures Valid()
      ensures answers == Blank(|quiz|) && !showResults
    {
      answers := Blank(|quiz|);
      showResults := false;
    }

    /** The status the card of question i shows. */
    function StatusAt(i: nat): (st: Status)
      reads this
      requires Valid() && i < |quiz|
      ensures !showResults ==> st == Neutral
      ensures showResults && answers[i] != Text("") ==>
        (st == Correct <==> i in CorrectIndices(quiz, answers, |quiz|))
    {
      StatusAgreesWithScore(quiz, answers, i);
      GetAnswerStatus(quiz[i], answers[i], showResults)
    }
  }
}
