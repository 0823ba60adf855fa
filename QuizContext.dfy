/** The browser-side quiz state machine of src/contexts/QuizContext.tsx:
    the reducer, the answer list a submission sends, the answered count,
    the current question and the timer display. */
module QuizContext {
  import opened Wrappers
  import opened QuizTypes
  import opened Js
  import Scoring

  /** The actions the reducer understands, and `Unrecognized` for any other
      dispatched value, which the reducer's default branch returns unchanged. */
  datatype QuizAction =
    | LoadQuestions(questions: seq<QuizQuestion>)
    | SetAnswer(questionId: int, selectedOption: int)
    | NextQuestion
    | PreviousQuestion
    | GoToQuestion(index: int)
    | TickTimer
    | SetTimer(seconds: int)
    | SubmitQuiz
    | ResetQuiz
    | Unrecognized

  /** Ten minutes, in seconds. */
  const QuizSeconds := 600

  /** initialState: no questions, the first index, no answers, a full
      timer, not submitted. It satisfies the state invariant, nothing is
      answered and no question is current yet. */
  function InitialState(): (s: QuizState)
    ensures Valid(s) && AnsweredCount(s) == 0 && CurrentQuestion(s).None?
    ensures s.timeRemaining == QuizSeconds && !s.isSubmitted
  {
    QuizState([], 0, map[], QuizSeconds, false)
  }

  function Min(a: int, b: int): int { if a <= b then a else b }

  function Max(a: int, b: int): int { if a >= b then a else b }

  /** quizReducer: every action yields a new state built from the old one.
      Whatever the action, the index stays in range, only LOAD_QUESTIONS
      replaces the questions, and only SET_TIMER can make the timer
      negative. */
  function Step(state: QuizState, action: QuizAction): (next: QuizState)
    ensures IndexInRange(state) ==> IndexInRange(next)
    ensures !action.LoadQuestions? ==> next.questions == state.questions
    ensures state.timeRemaining >= 0 && !action.SetTimer? ==> next.timeRemaining >= 0
  {
    match action
    case LoadQuestions(questions) =>
      state.(questions := questions, currentQuestionIndex := 0, answers := map[], isSubmitted := false)
    case SetAnswer(questionId, selectedOption) =>
      state.(answers := state.answers[questionId := selectedOption])
    case NextQuestion =>
      state.(currentQuestionIndex := Min(state.currentQuestionIndex + 1, |state.questions| - 1))
    case PreviousQuestion =>
      state.(currentQuestionIndex := Max(state.currentQuestionIndex - 1, 0))
    case GoToQuestion(index) =>
      state.(currentQuestionIndex := Max(0, Min(index, |state.questions| - 1)))
    case TickTimer =>
      state.(timeRemaining := Max(0, state.timeRemaining - 1))
    case SetTimer(seconds) =>
      state.(timeRemaining := seconds)
    case SubmitQuiz =>
      state.(isSubmitted := true)
    case ResetQuiz =>
      InitialState().(questions := state.questions)
    case Unrecognized =>
      state
  }

  /** The state after dispatching `actions` in order. */
  function Run(state: QuizState, actions: seq<QuizAction>): QuizState
    decreases |actions|
  {
    if actions == [] then state else Run(Step(state, actions[0]), actions[1..])
  }

  // ---------------------------------------------------------------------
  // One action at a time
  // ---------------------------------------------------------------------

  /** The countdown saturates at zero: it drops by exactly one while
      positive and touches nothing else. */
  lemma TickTimerSaturates(state: QuizState)
    ensures Step(state, TickTimer).timeRemaining >= 0
    ensures state.timeRemaining > 0 ==> Step(state, TickTimer).timeRemaining == state.timeRemaining - 1
    ensures state.timeRemaining <= 0 ==> Step(state, TickTimer).timeRemaining == 0
    ensures Step(state, TickTimer).(timeRemaining := state.timeRemaining) == state
  {
  }

  /** From a valid index, NEXT_QUESTION stays in range, advances by one
      except at the last question, where it changes nothing. */
  lemma NextQuestionClamps(state: QuizState)
    requires 0 <= state.currentQuestionIndex < |state.questions|
    ensures 0 <= Step(state, NextQuestion).currentQuestionIndex < |state.questions|
    ensures state.currentQuestionIndex < |state.questions| - 1 ==>
              Step(state, NextQuestion).currentQuestionIndex == state.currentQuestionIndex + 1
    ensures state.currentQuestionIndex == |state.questions| - 1 ==> Step(state, NextQuestion) == state
    ensures Step(state, NextQuestion).(currentQuestionIndex := state.currentQuestionIndex) == state
  {
  }

  /** From a valid index, PREVIOUS_QUESTION stays in range, goes back by one
      except at the first question, where it changes nothing. */
  lemma PreviousQuestionClamps(state: QuizState)
    requires 0 <= state.currentQuestionIndex < |state.questions|
    ensures 0 <= Step(state, PreviousQuestion).currentQuestionIndex < |state.questions|
    ensures state.currentQuestionIndex > 0 ==>
              Step(state, PreviousQuestion).currentQuestionIndex == state.currentQuestionIndex - 1
    ensures state.currentQuestionIndex == 0 ==> Step(state, PreviousQuestion) == state
    ensures Step(state, PreviousQuestion).(currentQuestionIndex := state.currentQuestionIndex) == state
  {
  }

  /** GO_TO_QUESTION lands in range for every payload, whatever the current
      index: on the payload itself when it is a valid index, else on the
      nearer end. */
  lemma GoToQuestionClamps(state: QuizState, index: int)
    requires |state.questions| > 0
    ensures 0 <= Step(state, GoToQuestion(index)).currentQuestionIndex < |state.questions|
    ensures 0 <= index < |state.questions| ==> Step(state, GoToQuestion(index)).currentQuestionIndex == index
    ensures index < 0 ==> Step(state, GoToQuestion(index)).currentQuestionIndex == 0
    ensures index >= |state.questions| ==>
              Step(state, GoToQuestion(index)).currentQuestionIndex == |state.questions| - 1
    ensures Step(state, GoToQuestion(index)).(currentQuestionIndex := state.currentQuestionIndex) == state
  {
  }

  /** On an empty question list NEXT_QUESTION sets the index to -1, so no
      question is current afterwards. */
  lemma NextQuestionOnEmpty(state: QuizState)
    requires state.questions == [] && IndexInRange(state)
    ensures Step(state, NextQuestion).currentQuestionIndex == -1
    ensures CurrentQuestion(Step(state, NextQuestion)) == None
  {
  }

  /** SET_ANSWER records the option under its question id, keeps every other
      entry and every other field, and repeating it changes nothing more. */
  lemma SetAnswerUpdatesOneKey(state: QuizState, questionId: int, selectedOption: int)
    ensures Step(state, SetAnswer(questionId, selectedOption)).answers.Keys == state.answers.Keys + {questionId}
    ensures Step(state, SetAnswer(questionId, selectedOption)).answers[questionId] == selectedOption
    ensures forall k :: k in state.answers && k != questionId ==>
              Step(state, SetAnswer(questionId, selectedOption)).answers[k] == state.answers[k]
    ensures Step(state, SetAnswer(questionId, selectedOption)).(answers := state.answers) == state
    ensures Step(Step(state, SetAnswer(questionId, selectedOption)), SetAnswer(questionId, selectedOption))
            == Step(state, SetAnswer(questionId, selectedOption))
  {
  }

  /** LOAD_QUESTIONS installs the questions and starts over at the first of
      them with no answers, not submitted; the timer keeps running as it was. */
  lemma LoadQuestionsStartsOver(state: QuizState, questions: seq<QuizQuestion>)
    ensures Step(state, LoadQuestions(questions)).questions == questions
    ensures Step(state, LoadQuestions(questions)).currentQuestionIndex == 0
    ensures Step(state, LoadQuestions(questions)).answers == map[]
    ensures !Step(state, LoadQuestions(questions)).isSubmitted
    ensures Step(state, LoadQuestions(questions)).timeRemaining == state.timeRemaining
  {
  }

  /** RESET_QUIZ restores the initial index, answers, timer and flag, and
      keeps the loaded questions. */
  lemma ResetQuizKeepsQuestions(state: QuizState)
    ensures Step(state, ResetQuiz).questions == state.questions
    ensures Step(state, ResetQuiz).currentQuestionIndex == 0
    ensures Step(state, ResetQuiz).answers == map[]
    ensures Step(state, ResetQuiz).timeRemaining == 600
    ensures !Step(state, ResetQuiz).isSubmitted
  {
  }

  /** SUBMIT_QUIZ only raises the flag, and a second one changes nothing. */
  lemma SubmitQuizIdempotent(state: QuizState)
    ensures Step(state, SubmitQuiz).isSubmitted
    ensures Step(state, SubmitQuiz).(isSubmitted := state.isSubmitted) == state
    ensures Step(Step(state, SubmitQuiz), SubmitQuiz) == Step(state, SubmitQuiz)
  {
  }

  /** SET_TIMER sets the remaining time to exactly its payload. */
  lemma SetTimerExact(state: QuizState, seconds: int)
    ensures Step(state, SetTimer(seconds)).timeRemaining == seconds
    ensures Step(state, SetTimer(seconds)).(timeRemaining := state.timeRemaining) == state
  {
  }

  /** An action of any other type leaves the state as it is. */
  lemma UnrecognizedIgnored(state: QuizState)
    ensures Step(state, Unrecognized) == state
  {
  }

  // ---------------------------------------------------------------------
  // Invariants over action sequences
  // ---------------------------------------------------------------------

  /** The index names a question whenever there is one; with none it is
      0, or -1 after NEXT_QUESTION. */
  predicate IndexInRange(state: QuizState) {
    if |state.questions| > 0 then 0 <= state.currentQuestionIndex < |state.questions|
    else -1 <= state.currentQuestionIndex <= 0
  }

  /** Every recorded option is one of the four option indexes. */
  predicate OptionsInRange(state: QuizState) {
    forall k :: k in state.answers ==> 0 <= state.answers[k] <= 3
  }

  /** What the state keeps through any run: the index in range, the timer
      never negative, the recorded options valid. */
  predicate Valid(state: QuizState) {
    IndexInRange(state) && state.timeRemaining >= 0 && OptionsInRange(state)
  }

  /** An action the views can dispatch: an option index 0..3, a
      non-negative timer value. */
  predicate Dispatchable(action: QuizAction) {
    && (action.SetAnswer? ==> 0 <= action.selectedOption <= 3)
    && (action.SetTimer? ==> action.seconds >= 0)
  }

  lemma StepPreservesValid(state: QuizState, action: QuizAction)
    requires Valid(state) && Dispatchable(action)
    ensures Valid(Step(state, action))
  {
  }

  /** Every state reachable from a valid one by dispatchable actions is
      valid; in particular, from the initial state. */
  lemma {:induction false} RunPreservesValid(state: QuizState, actions: seq<QuizAction>)
    requires Valid(state)
    requires forall k :: 0 <= k < |actions| ==> Dispatchable(actions[k])
    ensures Valid(Run(state, actions))
    decreases |actions|
  {
    if actions != [] {
      StepPreservesValid(state, actions[0]);
      RunPreservesValid(Step(state, actions[0]), actions[1..]);
    }
  }

  /** Only LOAD_QUESTIONS changes the questions. */
  lemma {:induction false} RunKeepsQuestions(state: QuizState, actions: seq<QuizAction>)
    requires forall k :: 0 <= k < |actions| ==> !actions[k].LoadQuestions?
    ensures Run(state, actions).questions == state.questions
    decreases |actions|
  {
    if actions != [] {
      RunKeepsQuestions(Step(state, actions[0]), actions[1..]);
    }
  }

  /** RESET_QUIZ forgets everything done since the questions were loaded. */
  lemma ResetForgetsHistory(state: QuizState, actions: seq<QuizAction>)
    requires forall k :: 0 <= k < |actions| ==> !actions[k].LoadQuestions?
    ensures Step(Run(state, actions), ResetQuiz) == Step(state, ResetQuiz)
  {
    RunKeepsQuestions(state, actions);
  }

  // ---------------------------------------------------------------------
  // The countdown and auto-submit guards
  // ---------------------------------------------------------------------

  /** The guard of the timer effect: an interval ticks once a second while
      this holds, and each tick takes exactly one second off. */
  predicate TimerRunning(state: QuizState)
    ensures TimerRunning(state) ==> Step(state, TickTimer).timeRemaining == state.timeRemaining - 1 >= 0
  {
    |state.questions| > 0 && state.timeRemaining > 0 && !state.isSubmitted
  }

  /** The guard of the auto-submit effect. It never holds while the timer
      runs, and a stray tick then changes nothing. */
  predicate ShouldAutoSubmit(state: QuizState)
    ensures ShouldAutoSubmit(state) ==> !TimerRunning(state) && Step(state, TickTimer) == state
  {
    state.timeRemaining == 0 && !state.isSubmitted && |state.questions| > 0
  }

  /** `k` timer ticks. */
  function Ticks(k: nat): (ticks: seq<QuizAction>)
    ensures |ticks| == k
    ensures forall i :: 0 <= i < k ==> ticks[i] == TickTimer
  {
    seq(k, _ => TickTimer)
  }

  /** `k` ticks take `k` seconds off the timer, stopping at zero, and change
      nothing else. */
  lemma {:induction false} RunTicks(state: QuizState, k: nat)
    requires state.timeRemaining >= 0
    ensures Run(state, Ticks(k)) == state.(timeRemaining := Max(0, state.timeRemaining - k))
    decreases k
  {
    if k > 0 {
      assert Ticks(k)[0] == TickTimer;
      assert Ticks(k)[1..] == Ticks(k - 1);
      RunTicks(Step(state, TickTimer), k - 1);
    }
  }

  /** Once the timer runs it keeps running for exactly `timeRemaining`
      ticks, and then the auto-submit guard holds. */
  lemma CountdownEndsInAutoSubmit(state: QuizState)
    requires TimerRunning(state)
    ensures forall k: nat :: k < state.timeRemaining ==> TimerRunning(Run(state, Ticks(k)))
    ensures ShouldAutoSubmit(Run(state, Ticks(state.timeRemaining)))
  {
    forall k: nat | k < state.timeRemaining ensures TimerRunning(Run(state, Ticks(k))) {
      RunTicks(state, k);
    }
    RunTicks(state, state.timeRemaining);
  }

  // ---------------------------------------------------------------------
  // The helpers the views call
  // ---------------------------------------------------------------------

  /** The option recorded for question `id`, or 0 when it has none. */
  function Recorded(state: QuizState, id: int): int {
    if id in state.answers then state.answers[id] else 0
  }

  /** The answer list submitQuiz sends: one answer per loaded question, in
      question order. Its options pass the option check when the recorded
      ones are option indexes, and its ids repeat only if the loaded ones do. */
  function BuildAnswers(state: QuizState): (answers: seq<UserAnswer>)
    ensures |answers| == |state.questions|
    ensures forall k :: 0 <= k < |answers| ==>
              answers[k] == UserAnswer(Num(state.questions[k].id), Num(Recorded(state, state.questions[k].id)))
    ensures OptionsInRange(state) ==>
              forall k :: 0 <= k < |answers| ==> Scoring.OptionInRange(answers[k].selectedOption)
    ensures (forall i, j :: 0 <= i < j < |state.questions| ==> state.questions[i].id != state.questions[j].id) ==>
              Distinct(Scoring.SubmittedIds(answers))
  {
    seq(|state.questions|, k requires 0 <= k < |state.questions| =>
      UserAnswer(Num(state.questions[k].id), Num(Recorded(state, state.questions[k].id))))
  }

  /** getAnsweredQuestionsCount: the number of keys in `answers`, which is
      zero exactly when nothing has been answered. */
  function AnsweredCount(state: QuizState): (n: nat)
    ensures n == 0 <==> state.answers == map[]
  {
    KeysEmpty(state.answers);
    |state.answers.Keys|
  }

  lemma KeysEmpty(m: map<int, int>)
    ensures |m.Keys| == 0 <==> m == map[]
  {
    if m.Keys == {} {
      assert m == map[];
    }
  }

  /** getCurrentQuestion: the question at the index, or null when there is
      none there. Under the reducer's index invariant a question is shown
      whenever one is loaded. */
  function CurrentQuestion(state: QuizState): (r: Option<QuizQuestion>)
    ensures r.Some? <==> 0 <= state.currentQuestionIndex < |state.questions|
    ensures r.Some? ==> r.value == state.questions[state.currentQuestionIndex]
    ensures IndexInRange(state) ==> (r.Some? <==> |state.questions| > 0)
  {
    if 0 <= state.currentQuestionIndex < |state.questions| then Some(state.questions[state.currentQuestionIndex])
    else None
  }

  /** isCurrentQuestionAnswered: there is a current question and an
      option is recorded under its id, so the answered count is positive. */
  predicate IsCurrentQuestionAnswered(state: QuizState)
    ensures IsCurrentQuestionAnswered(state) <==>
              0 <= state.currentQuestionIndex < |state.questions|
              && state.questions[state.currentQuestionIndex].id in state.answers
    ensures IsCurrentQuestionAnswered(state) ==> AnsweredCount(state) > 0
  {
    match CurrentQuestion(state)
    case None => false
    case Some(q) => q.id in state.answers
  }

  /** A new id adds one to the answered count, a repeated id none. */
  lemma SetAnswerCount(state: QuizState, questionId: int, selectedOption: int)
    ensures AnsweredCount(Step(state, SetAnswer(questionId, selectedOption)))
            == AnsweredCount(state) + (if questionId in state.answers then 0 else 1)
  {
    var keys := state.answers.Keys;
    assert Step(state, SetAnswer(questionId, selectedOption)).answers.Keys == keys + {questionId};
    if questionId !in keys {
      assert |keys + {questionId}| == |keys| + 1;
    } else {
      assert keys + {questionId} == keys;
    }
  }

  /** Answering the current question marks it answered, and the
      question stays the current one. */
  lemma SetAnswerMarksCurrent(state: QuizState, selectedOption: int)
    requires CurrentQuestion(state).Some?
    ensures var next := Step(state, SetAnswer(CurrentQuestion(state).value.id, selectedOption));
            CurrentQuestion(next) == CurrentQuestion(state) && IsCurrentQuestionAnswered(next)
  {
  }

  /** The ids of the loaded questions. */
  function LoadedIds(state: QuizState): set<int> {
    set q | q in state.questions :: q.id
  }

  /** When every answer is for a loaded question the count is at most the
      number of questions. */
  lemma AnsweredCountAtMost(state: QuizState)
    requires state.answers.Keys <= LoadedIds(state)
    ensures AnsweredCount(state) <= |state.questions|
  {
    var ids := seq(|state.questions|, k requires 0 <= k < |state.questions| => state.questions[k].id);
    assert LoadedIds(state) == Elements(ids) by {
      forall x | x in Elements(ids) ensures x in LoadedIds(state) {
        var k :| 0 <= k < |ids| && ids[k] == x;
        assert state.questions[k] in state.questions;
      }
      forall x | x in LoadedIds(state) ensures x in Elements(ids) {
        var q :| q in state.questions && q.id == x;
        var k :| 0 <= k < |state.questions| && state.questions[k] == q;
        assert ids[k] == x;
      }
    }
    DistinctIffNoShrink(ids);
    SubsetSize(state.answers.Keys, LoadedIds(state));
  }

  lemma {:induction false} SubsetSize<T>(a: set<T>, b: set<T>)
    requires a <= b
    ensures |a| <= |b|
    decreases |a|
  {
    if a != {} {
      var x :| x in a;
      SubsetSize(a - {x}, b - {x});
    }
  }

  /** What a loaded quiz submits passes validation and scores without
      error: the questions come from the store, sanitized in order, and
      every recorded option is an option index. The score counts the
      questions whose recorded option, or 0, is the correct one. */
  lemma SubmissionIsValid(stored: seq<Question>, state: QuizState)
    requires StoreValid(stored)
    requires state.questions == SanitizeAll(stored)
    requires OptionsInRange(state)
    ensures Scoring.Errors(stored, Some(BuildAnswers(state))) == []
    ensures Scoring.Score(stored, BuildAnswers(state)).Success?
    ensures Scoring.Score(stored, BuildAnswers(state)).value.totalQuestions == |stored|
    ensures Scoring.Score(stored, BuildAnswers(state)).value.score
            == |set k | 0 <= k < |stored| && Recorded(state, stored[k].id) == stored[k].correctAnswer|
  {
    BuildAnswersWellFormed(stored, state);
    Scoring.ErrorsEmptyIff(stored, Some(BuildAnswers(state)));
    Scoring.ScoreSuccess(stored, BuildAnswers(state));
    Scoring.GradeAllSucceeds(stored, BuildAnswers(state));
    ScoreCountsRecorded(stored, state, Scoring.GradeAll(stored, BuildAnswers(state)).value);
  }

  lemma BuildAnswersWellFormed(stored: seq<Question>, state: QuizState)
    requires StoreValid(stored)
    requires state.questions == SanitizeAll(stored)
    requires OptionsInRange(state)
    ensures Scoring.WellFormed(stored, BuildAnswers(state))
  {
    var answers := BuildAnswers(state);
    forall k | 0 <= k < |answers|
      ensures Scoring.Known(stored, answers[k].questionId)
      ensures Scoring.OptionInRange(answers[k].selectedOption)
    {
      assert stored[k] in stored;
    }
    var ids := Scoring.SubmittedIds(answers);
    assert Distinct(ids) by {
      forall i, j | 0 <= i < j < |ids| ensures ids[i] != ids[j] {
        assert QuestionIds(stored)[i] != QuestionIds(stored)[j];
      }
    }
  }

  lemma {:induction false} ScoreCountsRecorded(stored: seq<Question>, state: QuizState, graded: seq<AnswerResult>)
    requires StoreValid(stored)
    requires state.questions == SanitizeAll(stored)
    requires |graded| == |stored|
    requires forall k :: 0 <= k < |stored| ==>
               graded[k] == Scoring.Grade(Scoring.Lookup(stored, BuildAnswers(state)[k].questionId).value, BuildAnswers(state)[k])
    ensures Scoring.CountCorrect(graded)
            == |set k | 0 <= k < |stored| && Recorded(state, stored[k].id) == stored[k].correctAnswer|
  {
    forall k | 0 <= k < |stored|
      ensures graded[k].isCorrect <==> Recorded(state, stored[k].id) == stored[k].correctAnswer
    {
      GradedAnswerCorrect(stored, state, graded[k], k);
    }
    Scoring.CountCorrectCounts(graded);
    assert (set k | 0 <= k < |graded| && graded[k].isCorrect)
        == (set k | 0 <= k < |stored| && Recorded(state, stored[k].id) == stored[k].correctAnswer);
  }

  /** The k-th submitted answer is graded correct exactly when the option
      recorded for the k-th stored question, or 0, is its correct one. */
  lemma GradedAnswerCorrect(stored: seq<Question>, state: QuizState, entry: AnswerResult, k: nat)
    requires StoreValid(stored)
    requires state.questions == SanitizeAll(stored)
    requires k < |stored|
    requires entry == Scoring.Grade(Scoring.Lookup(stored, BuildAnswers(state)[k].questionId).value, BuildAnswers(state)[k])
    ensures entry.isCorrect <==> Recorded(state, stored[k].id) == stored[k].correctAnswer
  {
    var answer := BuildAnswers(state)[k];
    assert state.questions[k].id == stored[k].id;
    assert answer == UserAnswer(Num(stored[k].id), Num(Recorded(state, stored[k].id)));
    Scoring.LookupFindsStored(stored, k);
  }

  // ---------------------------------------------------------------------
  // formatTime
  // ---------------------------------------------------------------------

  /** formatTime: minutes (Math.floor) and the truncated remainder, each
      rendered by Number#toString and padded to two places with '0'. For
      0 to 99:59 that is five characters "MM:SS", the minutes in two
      digits before the colon and the seconds in two digits after it. */
  function FormatTime(seconds: int): (r: string)
    ensures 0 <= seconds < 6000 ==>
              && |r| == 5 && r[2] == ':'
              && AllDigits(r[..2]) && DigitsValue(r[..2]) == seconds / 60
              && AllDigits(r[3..]) && DigitsValue(r[3..]) == seconds % 60
  {
    var mm := PadStart(IntToString(seconds / 60), 2, '0');
    var ss := PadStart(IntToString(Remainder(seconds, 60)), 2, '0');
    if 0 <= seconds < 6000 then
      RemainderOfNatural(seconds, 60);
      TwoDigits(seconds / 60);
      TwoDigits(seconds % 60);
      JoinedAtColon(mm, ss);
      mm + ":" + ss
    else
      mm + ":" + ss
  }

  /** The inverse of FormatTime on its "MM:SS" outputs. */
  function ParseTime(s: string): Option<int> {
    if |s| == 5 && s[2] == ':' && AllDigits(s[..2]) && AllDigits(s[3..]) && DigitsValue(s[3..]) < 60
    then Some(60 * DigitsValue(s[..2]) + DigitsValue(s[3..]))
    else None
  }

  /** A number below 100, padded to two digits, reads back as itself. */
  lemma TwoDigits(n: nat)
    requires n < 100
    ensures |PadStart(IntToString(n), 2, '0')| == 2
    ensures AllDigits(PadStart(IntToString(n), 2, '0'))
    ensures DigitsValue(PadStart(IntToString(n), 2, '0')) == n
  {
    var s := IntToString(n);
    assert s == NatToString(n);
    NatToStringRoundTrip(n);
    if n < 10 {
      var p := PadStart(s, 2, '0');
      assert p == ['0'] + s;
      assert p[..1] == ['0'] && p[1] == s[0];
      assert DigitsValue(p[..1]) == 10 * DigitsValue([]) + DigitValue('0');
    } else {
      assert s == NatToString(n / 10) + [DigitChar(n % 10)];
    }
  }

  /** For 0 to 99:59, ParseTime reads formatTime's output back. */
  lemma FormatTimeRoundTrip(seconds: int)
    requires 0 <= seconds < 6000
    ensures ParseTime(FormatTime(seconds)) == Some(seconds)
  {
    ParseTimeOfMMSS(FormatTime(seconds), seconds);
  }

  /** Two-digit minutes, a colon and two-digit seconds below 60 parse as
      the number of seconds they spell. */
  lemma ParseTimeOfMMSS(r: string, seconds: int)
    requires 0 <= seconds
    requires |r| == 5 && r[2] == ':'
    requires AllDigits(r[..2]) && DigitsValue(r[..2]) == seconds / 60
    requires AllDigits(r[3..]) && DigitsValue(r[3..]) == seconds % 60
    ensures ParseTime(r) == Some(seconds)
  {
    assert 60 * (seconds / 60) + seconds % 60 == seconds;
  }

  /** On a non-negative dividend JavaScript's `%` is Dafny's. */
  lemma RemainderOfNatural(a: int, b: int)
    requires a >= 0 && b > 0
    ensures Remainder(a, b) == a % b
  {
  }

  lemma JoinedAtColon(mm: string, ss: string)
    requires |mm| == 2 && |ss| == 2
    ensures |mm + ":" + ss| == 5 && (mm + ":" + ss)[2] == ':'
    ensures (mm + ":" + ss)[..2] == mm && (mm + ":" + ss)[3..] == ss
  {
  }

  /** The full timer reads "10:00". */
  lemma FormatTimeFullTimer()
    ensures FormatTime(600) == "10:00"
  {
    assert 600 / 60 == 10;
    assert IntToString(10) == NatToString(10) == NatToString(1) + [DigitChar(0)] == "10";
    assert IntToString(0) == NatToString(0) == "0";
    RemainderOfNatural(600, 60);
    var mm, ss := PadStart("10", 2, '0'), PadStart("0", 2, '0');
    assert mm == "10" && ss == "00";
    assert FormatTime(600) == mm + ":" + ss;
  }

  /** The last minute reads "00:59". */
  lemma FormatTimeLastMinute()
    ensures FormatTime(59) == "00:59"
  {
    assert IntToString(59) == NatToString(59) == NatToString(5) + [DigitChar(9)] == "59";
    assert IntToString(0) == NatToString(0) == "0";
    assert Remainder(59, 60) == 59;
    assert PadStart("0", 2, '0') == "00";
  }
}
