/** The quiz progress handlers (src/App.tsx:113-141) and the answer-button
    guard (src/App.tsx:204-205), as a state machine over the React state the
    quiz screen reads. */
module Progress {
  import opened Wrappers
  import opened Extract

  /** The progress part of the component state (src/App.tsx:13-19). */
  datatype QuizState = QuizState(
    currentQuestion: nat,
    selectedAnswer: Option<string>,
    score: nat,
    showResult: bool,
    showNextButton: bool)

  /** The initial `useState` values. */
  const Initial := QuizState(0, None, 0, false, false)

  /** `handleAnswerClick`: record the choice, score it, show "Next". */
  function AnswerClick(s: QuizState, qs: seq<QuizQuestion>, variant: string): (t: QuizState)
    requires s.currentQuestion < |qs|
    ensures t.score == s.score + 1 <==> variant == qs[s.currentQuestion].correctAnswer
    ensures t.score == s.score <==> variant != qs[s.currentQuestion].correctAnswer
    ensures t.selectedAnswer == Some(variant) && t.showNextButton
    ensures t.currentQuestion == s.currentQuestion && t.showResult == s.showResult
  {
    var score := if variant == qs[s.currentQuestion].correctAnswer then s.score + 1 else s.score;
    s.(selectedAnswer := Some(variant), score := score, showNextButton := true)
  }

  /** `handleNextQuestion`: advance while another question remains, otherwise
      show the result screen. */
  function NextQuestion(s: QuizState, qs: seq<QuizQuestion>): (t: QuizState)
    ensures s.currentQuestion < |qs| ==> t.currentQuestion < |qs|
    ensures t.currentQuestion > s.currentQuestion <==> s.currentQuestion + 1 < |qs|
    ensures t.currentQuestion == s.currentQuestion || t.currentQuestion == s.currentQuestion + 1
    ensures t.showResult <==> s.showResult || s.currentQuestion + 1 >= |qs|
    ensures t.score == s.score
    ensures s.currentQuestion + 1 < |qs| ==> t.selectedAnswer.None? && !t.showNextButton
    ensures s.currentQuestion + 1 >= |qs| ==>
      t.selectedAnswer == s.selectedAnswer && t.showNextButton == s.showNextButton
  {
    if s.currentQuestion + 1 < |qs| then
      s.(currentQuestion := s.currentQuestion + 1, selectedAnswer := None, showNextButton := false)
    else
      s.(showResult := true)
  }

  /** `resetQuiz`: every progress field back to its initial value. */
  function ResetQuiz(s: QuizState): (t: QuizState)
    ensures t.currentQuestion == 0 && t.score == 0 && t.selectedAnswer.None?
    ensures !t.showResult && !t.showNextButton
  {
    QuizState(0, None, 0, false, false)
  }

  /** `handleEndQuiz`: jump to the result screen keeping the score. */
  function EndQuiz(s: QuizState): (t: QuizState)
    ensures t.showResult
    ensures t.currentQuestion == s.currentQuestion && t.score == s.score && t.selectedAnswer == s.selectedAnswer
    ensures t.showNextButton == s.showNextButton
  {
    s.(showResult := true)
  }

  /** What the user can do on screen: pick an option, press "Next"/"Finish",
      press "End Quiz", or press "Try Again" on the result screen. */
  datatype Event = Choose(variant: string) | Next | End | Reset

  /** JavaScript truthiness of `selectedAnswer`: `null` and `""` are falsy. */
  predicate Truthy(sel: Option<string>) {
    sel.Some? && |sel.value| > 0
  }

  /** Whether the button the event presses is on screen and enabled
      (src/App.tsx:168-309). With no questions only the loading text is shown,
      so no button exists. An option button is disabled once anything is
      selected, and its handler runs only while the selection is falsy. */
  predicate Enabled(s: QuizState, qs: seq<QuizQuestion>, e: Event) {
    && |qs| > 0
    && match e
    case Choose(v) =>
      && !s.showResult
      && s.currentQuestion < |qs|
      && v in qs[s.currentQuestion].variants
      && s.selectedAnswer.None?
      && !Truthy(s.selectedAnswer)
    case Next => !s.showResult && s.showNextButton
    case End => !s.showResult
    case Reset => s.showResult
  }

  /** One event; a press on a missing or disabled button changes nothing. */
  function Step(s: QuizState, qs: seq<QuizQuestion>, e: Event): (t: QuizState)
    ensures |qs| == 0 ==> t == s
    ensures t.score <= s.score + 1
    ensures t.score > s.score ==> e.Choose? && s.selectedAnswer.None? && !s.showResult
  {
    if !Enabled(s, qs, e) then s
    else
      match e
      case Choose(v) => AnswerClick(s, qs, v)
      case Next => NextQuestion(s, qs)
      case End => EndQuiz(s)
      case Reset => ResetQuiz(s)
  }

  function Run(s: QuizState, qs: seq<QuizQuestion>, es: seq<Event>): QuizState
    decreases |es|
  {
    if |es| == 0 then s else Run(Step(s, qs, es[0]), qs, es[1..])
  }

  /** What the quiz screen relies on: the shown question exists, at most one
      answer has been scored per question reached, and "Next" is shown exactly
      when an answer is selected. */
  predicate Consistent(s: QuizState, qs: seq<QuizQuestion>) {
    && s.currentQuestion < |qs|
    && s.score <= s.currentQuestion + (if s.selectedAnswer.Some? then 1 else 0)
    && (s.showNextButton <==> s.selectedAnswer.Some?)
  }

  lemma InitialIsConsistent(qs: seq<QuizQuestion>)
    requires |qs| > 0
    ensures Consistent(Initial, qs)
  {
  }

  /** Every enabled event keeps the state consistent. */
  lemma StepKeepsConsistent(s: QuizState, qs: seq<QuizQuestion>, e: Event)
    requires Consistent(s, qs)
    ensures Consistent(Step(s, qs, e), qs)
  {
  }

  lemma {:induction false} RunKeepsConsistent(s: QuizState, qs: seq<QuizQuestion>, es: seq<Event>)
    requires Consistent(s, qs)
    ensures Consistent(Run(s, qs, es), qs)
    decreases |es|
  {
    if |es| > 0 {
      StepKeepsConsistent(s, qs, es[0]);
      RunKeepsConsistent(Step(s, qs, es[0]), qs, es[1..]);
    }
  }

  /** With the one-answer guard the score never exceeds the number of
      questions, whatever the user does. */
  lemma ScoreAtMostQuestionCount(qs: seq<QuizQuestion>, es: seq<Event>)
    requires |qs| > 0
    ensures Run(Initial, qs, es).score <= |qs|
    ensures Run(Initial, qs, es).currentQuestion < |qs|
  {
    RunKeepsConsistent(Initial, qs, es);
  }

  /** Without the guard, clicking the right option twice scores twice on a
      one-question quiz. */
  lemma UnguardedClicksOvercount()
    ensures
      var qs := [QuizQuestion("q", ["a"], "a")];
      AnswerClick(AnswerClick(Initial, qs, "a"), qs, "a").score == 2 > |qs|
  {
  }

  /** Answer every question correctly from question `k` on, pressing "Next"
      after each. */
  function PerfectPlay(qs: seq<QuizQuestion>, k: nat): (es: seq<Event>)
    requires k <= |qs|
    ensures |es| == 2 * (|qs| - k)
    decreases |qs| - k
  {
    if k == |qs| then [] else [Choose(qs[k].correctAnswer), Next] + PerfectPlay(qs, k + 1)
  }

  lemma {:induction false} RunAppend(s: QuizState, qs: seq<QuizQuestion>, a: seq<Event>, b: seq<Event>)
    ensures Run(s, qs, a + b) == Run(Run(s, qs, a), qs, b)
    decreases |a|
  {
    if |a| > 0 {
      assert (a + b)[0] == a[0];
      assert (a + b)[1..] == a[1..] + b;
      RunAppend(Step(s, qs, a[0]), qs, a[1..], b);
    } else {
      assert a + b == b;
    }
  }

  lemma {:induction false} PerfectPlayFrom(qs: seq<QuizQuestion>, k: nat)
    requires k < |qs|
    requires forall q :: q in qs ==> WellFormed(q)
    ensures
      var t := Run(QuizState(k, None, k, false, false), qs, PerfectPlay(qs, k));
      t.showResult && t.score == |qs|
    decreases |qs| - k
  {
    var s := QuizState(k, None, k, false, false);
    assert WellFormed(qs[k]);
    var chosen := Step(s, qs, Choose(qs[k].correctAnswer));
    assert chosen == QuizState(k, Some(qs[k].correctAnswer), k + 1, false, true);
    var next := Step(chosen, qs, Next);
    var two := [Choose(qs[k].correctAnswer), Next];
    assert Run(s, qs, two) == next by {
      assert two[1..] == [Next];
      assert Run(chosen, qs, [Next]) == Run(next, qs, []);
    }
    RunAppend(s, qs, two, PerfectPlay(qs, k + 1));
    if k + 1 < |qs| {
      assert next == QuizState(k + 1, None, k + 1, false, false);
      PerfectPlayFrom(qs, k + 1);
    } else {
      assert PerfectPlay(qs, k + 1) == [];
      assert next.showResult && next.score == |qs|;
    }
  }

  /** A full score is reachable: when every question is well formed, answering
      each one correctly ends on the result screen with every point. */
  lemma PerfectPlayScoresAll(qs: seq<QuizQuestion>)
    requires |qs| > 0
    requires forall q :: q in qs ==> WellFormed(q)
    ensures Run(Initial, qs, PerfectPlay(qs, 0)).showResult
    ensures Run(Initial, qs, PerfectPlay(qs, 0)).score == |qs|
  {
    PerfectPlayFrom(qs, 0);
  }

  /** "Try Again" forgets everything: the state after it does not depend on
      the state before it. With no questions the button is not on screen. */
  lemma ResetForgetsHistory(s: QuizState, qs: seq<QuizQuestion>)
    requires s.showResult
    ensures Step(s, qs, Reset) == (if |qs| > 0 then Initial else s)
  {
  }
}
