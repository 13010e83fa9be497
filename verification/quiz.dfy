/** The adaptive quiz view (components/Quiz.tsx) as a state machine.
    Each event handler is a pure function from one `State` to the next; the
    awaited generation call is collapsed into the handler, with the service's
    answer passed in as an `Outcome`. What the rendered page lets the user do
    in a given state is `Enabled`, and `Run` replays any sequence of such
    user actions. */
module Quiz {
  import opened Types
  import opened Generation

  /** The view's React state (Quiz.tsx:9-15); `topic` and `difficulty` are
      form inputs and only reach the model as the handler's argument. */
  datatype State = State(
    questions: seq<QuizQuestion>,
    currentIndex: int,
    selectedOption: Option<int>,
    isAnswered: bool,
    score: int,
    quizComplete: bool,
    loading: bool)

  /** The state on first render. */
  const Initial := State([], 0, None, false, 0, false, false)

  /** Which of the four screens the component renders (Quiz.tsx:59, 68, 124, 152). */
  datatype Screen = Spinner | StartForm | Summary | QuestionView

  function ScreenOf(q: State): Screen
  {
    if q.loading then Spinner
    else if |q.questions| == 0 then StartForm
    else if q.quizComplete then Summary
    else QuestionView
  }

  /** The question view reads `questions[currentIndex]`: it is shown and the
      read is in range. */
  predicate Displayed(q: State)
  {
    ScreenOf(q) == QuestionView && 0 <= q.currentIndex < |q.questions|
  }

  // ---------------------------------------------------------------------------
  // Handlers
  // ---------------------------------------------------------------------------

  /** `handleStart` (Quiz.tsx:17-33): an empty topic is ignored; otherwise the
      completion flag, score and position are reset, the list is replaced by
      a generated one or kept on failure, and loading ends. The answer state
      of the previous quiz is deliberately NOT reset, as in the source. */
  function Start(q: State, topic: string, outcome: Outcome<QuizQuestion>): (r: State)
    ensures topic == "" ==> r == q
    ensures topic != "" ==>
      && r.score == 0 && r.currentIndex == 0 && !r.quizComplete && !r.loading
      && r.selectedOption == q.selectedOption && r.isAnswered == q.isAnswered
    ensures topic != "" && outcome.Generated? ==> r.questions == outcome.items
    ensures outcome.Failed? ==> r.questions == q.questions
  {
    if topic == "" then q
    else
      var pending := q.(loading := true, quizComplete := false, score := 0, currentIndex := 0);
      match outcome
      case Generated(qs) => pending.(questions := qs, loading := false)
      case Failed => pending.(loading := false)
  }

  /** `handleOptionClick` (Quiz.tsx:35-38): once answered a click does
      nothing; before, it selects the clicked option and changes nothing else. */
  function ClickOption(q: State, index: int): (r: State)
    ensures q.isAnswered ==> r == q
    ensures !q.isAnswered ==> r.selectedOption == Some(index) && r.(selectedOption := q.selectedOption) == q
  {
    if q.isAnswered then q else q.(selectedOption := Some(index))
  }

  /** `handleSubmitAnswer` (Quiz.tsx:40-47): with nothing selected it does
      nothing; otherwise the question becomes answered and the score rises by
      one exactly when the selection is the correct answer. Reading
      `questions[currentIndex]` throws when the index is out of range, so the
      caller must keep it in range whenever something is selected. */
  function Submit(q: State): (r: State)
    requires q.selectedOption.Some? ==> 0 <= q.currentIndex < |q.questions|
    ensures q.selectedOption.None? ==> r == q
    ensures q.selectedOption.Some? ==>
      && r.isAnswered
      && r.(isAnswered := q.isAnswered, score := q.score) == q
      && (r.score == q.score + 1 <==> q.selectedOption.value == q.questions[q.currentIndex].correctAnswerIndex)
      && (r.score == q.score || r.score == q.score + 1)
  {
    match q.selectedOption
    case None => q
    case Some(choice) =>
      var answered := q.(isAnswered := true);
      if choice == q.questions[q.currentIndex].correctAnswerIndex
      then answered.(score := answered.score + 1)
      else answered
  }

  /** `handleNext` (Quiz.tsx:49-56): before the last question it moves to the
      next one with a clean selection and leaves the score; on the last one it
      only marks the quiz complete. */
  function Next(q: State): (r: State)
    ensures q.currentIndex < |q.questions| - 1 ==>
      && r.currentIndex == q.currentIndex + 1
      && r.selectedOption == None && !r.isAnswered
      && r.score == q.score && r.questions == q.questions
      && r.quizComplete == q.quizComplete && r.loading == q.loading
    ensures q.currentIndex >= |q.questions| - 1 ==> r == q.(quizComplete := true)
  {
    if q.currentIndex < |q.questions| - 1 then
      q.(currentIndex := q.currentIndex + 1, selectedOption := None, isAnswered := false)
    else
      q.(quizComplete := true)
  }

  /** "Take Another Quiz" (Quiz.tsx:142): empties the list, which brings back
      the start form (Quiz.tsx:68) and leaves everything else as it was. */
  function TakeAnother(q: State): (r: State)
    ensures r.questions == [] && r.(questions := q.questions) == q
    ensures !q.loading ==> ScreenOf(r) == StartForm
  {
    q.(questions := [])
  }

  // ---------------------------------------------------------------------------
  // What the rendered page allows
  // ---------------------------------------------------------------------------

  datatype Action =
    | StartQuiz(topic: string, outcome: Outcome<QuizQuestion>)
    | ClickOptionAt(index: int)
    | SubmitAnswer
    | NextQuestion
    | TakeAnotherQuiz

  /** The render guards: the start form submits only on the start screen
      (Quiz.tsx:68-79); option buttons exist for the current question's
      options and are disabled once answered (Quiz.tsx:167, 186); Submit is
      rendered while unanswered and disabled without a selection
      (Quiz.tsx:206-209); Next/Finish is rendered once answered
      (Quiz.tsx:214-216); "Take Another Quiz" is on the summary (Quiz.tsx:124-142). */
  predicate Enabled(q: State, a: Action)
  {
    match a
    case StartQuiz(_, _) => ScreenOf(q) == StartForm
    case ClickOptionAt(i) =>
      Displayed(q) && !q.isAnswered && 0 <= i < |q.questions[q.currentIndex].options|
    case SubmitAnswer => Displayed(q) && !q.isAnswered && q.selectedOption.Some?
    case NextQuestion => Displayed(q) && q.isAnswered
    case TakeAnotherQuiz => ScreenOf(q) == Summary
  }

  function Step(q: State, a: Action): State
    requires Enabled(q, a)
  {
    match a
    case StartQuiz(topic, outcome) => Start(q, topic, outcome)
    case ClickOptionAt(i) => ClickOption(q, i)
    case SubmitAnswer => Submit(q)
    case NextQuestion => Next(q)
    case TakeAnotherQuiz => TakeAnother(q)
  }

  /** Every action of `acts`, in order, is allowed by the page it is taken on. */
  predicate Allowed(q: State, acts: seq<Action>)
    decreases |acts|
  {
    |acts| == 0 || (Enabled(q, acts[0]) && Allowed(Step(q, acts[0]), acts[1..]))
  }

  function Run(q: State, acts: seq<Action>): State
    requires Allowed(q, acts)
    decreases |acts|
  {
    if |acts| == 0 then q else Run(Step(q, acts[0]), acts[1..])
  }

  // ---------------------------------------------------------------------------
  // The invariant
  // ---------------------------------------------------------------------------

  /** Between user actions nothing is loading, the score is never negative,
      a completed quiz sits on its last question, answered, and while there are
      questions the position is in range and the score is at most the number
      of questions answered so far. */
  predicate Inv(q: State)
  {
    && !q.loading
    && 0 <= q.score
    && (q.quizComplete ==> q.isAnswered)
    && (q.quizComplete && |q.questions| > 0 ==> q.currentIndex == |q.questions| - 1)
    && (|q.questions| > 0 ==>
          && 0 <= q.currentIndex < |q.questions|
          && q.score <= q.currentIndex + (if q.isAnswered then 1 else 0) <= |q.questions|)
  }

  lemma InitialInv()
    ensures Inv(Initial)
  {
  }

  lemma StepPreservesInv(q: State, a: Action)
    requires Inv(q) && Enabled(q, a)
    ensures Inv(Step(q, a))
  {
  }

  lemma {:induction false} RunPreservesInv(q: State, acts: seq<Action>)
    requires Inv(q) && Allowed(q, acts)
    ensures Inv(Run(q, acts))
    decreases |acts|
  {
    if |acts| > 0 {
      StepPreservesInv(q, acts[0]);
      RunPreservesInv(Step(q, acts[0]), acts[1..]);
    }
  }

  /** Whatever the user does, whenever the question view is on screen the read
      `questions[currentIndex]` (Quiz.tsx:152) is in range. */
  lemma QuestionReadInRange(acts: seq<Action>)
    requires Allowed(Initial, acts)
    ensures ScreenOf(Run(Initial, acts)) == QuestionView ==> Displayed(Run(Initial, acts))
  {
    RunPreservesInv(Initial, acts);
  }

  /** Whatever the user does, the summary's "You scored S out of N"
      (Quiz.tsx:132) has 0 <= S <= N. */
  lemma FinalScoreWithinTotal(acts: seq<Action>)
    requires Allowed(Initial, acts)
    ensures var r := Run(Initial, acts);
            ScreenOf(r) == Summary ==> 0 <= r.score <= |r.questions|
  {
    RunPreservesInv(Initial, acts);
  }

  /** Actions taken inside one quiz: they neither start nor leave it. */
  predicate Playing(a: Action)
  {
    a.ClickOptionAt? || a.SubmitAnswer? || a.NextQuestion?
  }

  /** The number of submissions in `acts`. */
  function Submissions(acts: seq<Action>): nat
  {
    if |acts| == 0 then 0 else (if acts[0].SubmitAnswer? then 1 else 0) + Submissions(acts[1..])
  }

  /** Inside one quiz the questions never change, the position only moves
      forward, and the score never falls and rises by at most one point per
      submission. */
  lemma {:induction false} PlayingKeepsQuiz(q: State, acts: seq<Action>)
    requires Allowed(q, acts)
    requires forall k :: 0 <= k < |acts| ==> Playing(acts[k])
    ensures var r := Run(q, acts);
            && r.questions == q.questions
            && q.currentIndex <= r.currentIndex
            && q.score <= r.score <= q.score + Submissions(acts)
    decreases |acts|
  {
    if |acts| > 0 {
      assert Playing(acts[0]);
      PlayingKeepsQuiz(Step(q, acts[0]), acts[1..]);
    }
  }

  /** The question the view shows (Quiz.tsx:152), read without going out of range. */
  function CurrentQuestion(q: State): (question: QuizQuestion)
    requires Inv(q) && ScreenOf(q) == QuestionView
    ensures question in q.questions
  {
    q.questions[q.currentIndex]
  }

  /** Selecting an option and submitting it scores exactly when that option
      is the correct one, and leaves the question answered with that selection. */
  lemma AnswerScoresIffCorrect(q: State, i: int)
    requires Enabled(q, ClickOptionAt(i))
    ensures Enabled(ClickOption(q, i), SubmitAnswer)
    ensures var r := Submit(ClickOption(q, i));
            && r.isAnswered && r.selectedOption == Some(i)
            && r.score == q.score + (if i == q.questions[q.currentIndex].correctAnswerIndex then 1 else 0)
  {
  }

  /** The label of the button under an answered question (Quiz.tsx:219). */
  function NextLabel(q: State): string
  {
    if q.currentIndex < |q.questions| - 1 then "Next Question" else "Finish Quiz"
  }

  /** "Next Question" moves on to another unanswered question and "Finish
      Quiz" leads to the summary: the label tells the truth about `Next`. */
  lemma NextLabelMatchesNext(q: State)
    requires Inv(q) && Enabled(q, NextQuestion)
    ensures NextLabel(q) == "Next Question" <==> ScreenOf(Next(q)) == QuestionView
    ensures NextLabel(q) == "Finish Quiz" <==> ScreenOf(Next(q)) == Summary
  {
  }

  // ---------------------------------------------------------------------------
  // The carried-over answer state
  // ---------------------------------------------------------------------------

  /** As written, `Start` keeps `isAnswered`, and a quiz can only be finished
      with its last question answered. So once a quiz has been completed, the
      next one opens on its first question already answered: Submit is not
      offered for it and it can never be scored. */
  lemma NextQuizOpensAnswered(acts: seq<Action>, topic: string, qs: seq<QuizQuestion>)
    requires Allowed(Initial, acts) && ScreenOf(Run(Initial, acts)) == Summary
    requires topic != "" && |qs| > 0
    ensures Enabled(Run(Initial, acts), TakeAnotherQuiz)
    ensures Enabled(TakeAnother(Run(Initial, acts)), StartQuiz(topic, Generated(qs)))
    ensures var r := Start(TakeAnother(Run(Initial, acts)), topic, Generated(qs));
            && Displayed(r) && r.currentIndex == 0 && r.isAnswered
            && !Enabled(r, SubmitAnswer)
            && forall i :: !Enabled(r, ClickOptionAt(i))
  {
    RunPreservesInv(Initial, acts);
  }

  /** A one-question quiz answered and finished: the premise of
      `NextQuizOpensAnswered` can be met. */
  lemma FirstQuizCanBeFinished(question: QuizQuestion)
    requires |question.options| > 0
    ensures var acts := [StartQuiz("Math", Generated([question])), ClickOptionAt(0), SubmitAnswer, NextQuestion];
            Allowed(Initial, acts) && ScreenOf(Run(Initial, acts)) == Summary
  {
    var s0 := Initial;
    var s1 := Start(s0, "Math", Generated([question]));
    var s2 := ClickOption(s1, 0);
    var s3 := Submit(s2);
    var s4 := Next(s3);
    var acts := [StartQuiz("Math", Generated([question])), ClickOptionAt(0), SubmitAnswer, NextQuestion];
    assert acts[1..][1..][1..][1..] == [];
    assert Allowed(s4, acts[1..][1..][1..][1..]);
    assert Allowed(s3, acts[1..][1..][1..]);
    assert Allowed(s2, acts[1..][1..]);
    assert Allowed(s1, acts[1..]);
    assert Run(s3, acts[1..][1..][1..]) == s4;
    assert Run(s2, acts[1..][1..]) == s4;
    assert Run(s1, acts[1..]) == s4;
  }

  /** `handleStart` with the answer state reset as well, as a fresh quiz
      evidently should be. */
  function StartFresh(q: State, topic: string, outcome: Outcome<QuizQuestion>): (r: State)
    ensures topic == "" ==> r == q
    ensures topic != "" ==>
      && r.score == 0 && r.currentIndex == 0 && !r.quizComplete && !r.loading
      && r.selectedOption == None && !r.isAnswered
    ensures topic != "" && outcome.Generated? ==> r.questions == outcome.items
    ensures outcome.Failed? ==> r.questions == q.questions
  {
    if topic == "" then q
    else Start(q, topic, outcome).(selectedOption := None, isAnswered := false)
  }

  /** With the corrected start, a quiz begun from the start form does not
      depend on anything earlier quizzes left behind: it is exactly the quiz
      the first visit would have begun. */
  lemma StartFreshForgetsPreviousQuiz(q: State, topic: string, outcome: Outcome<QuizQuestion>)
    requires ScreenOf(q) == StartForm && topic != ""
    ensures StartFresh(q, topic, outcome) == StartFresh(Initial, topic, outcome)
  {
  }

  /** With the corrected start, a non-empty quiz opens on an unanswered first
      question, and the invariant still holds. */
  lemma StartFreshOpensUnanswered(q: State, topic: string, qs: seq<QuizQuestion>)
    requires Inv(q) && ScreenOf(q) == StartForm
    requires topic != "" && |qs| > 0
    ensures var r := StartFresh(q, topic, Generated(qs));
            && Inv(r) && Displayed(r) && r.currentIndex == 0 && !r.isAnswered
            && forall i :: 0 <= i < |qs[0].options| ==> Enabled(r, ClickOptionAt(i))
  {
  }
}
