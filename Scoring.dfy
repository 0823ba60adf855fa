/** Answer checking (src/lib/scoring.ts): grading a submission against the
    stored questions, and validating a submission before it is graded.

    Both operations are loops in the source, so each is a method proved
    against a function that says what it computes (Score, Errors); the
    lemmas below are about those functions. The stored questions, which the
    source reads from SQLite, are a parameter. */
module Scoring {
  import opened Wrappers
  import opened QuizTypes
  import opened Js

  // ---------------------------------------------------------------------
  // Looking questions up by id
  // ---------------------------------------------------------------------

  /** The ids of the stored questions, `new Set(questions.map(q => q.id))`. */
  function IdSet(questions: seq<Question>): set<int> {
    set q | q in questions :: q.id
  }

  /** `new Map(questions.map(q => [q.id, q]))`: entries are inserted in
      order, so a later question with the same id replaces an earlier one. */
  function QuestionMap(questions: seq<Question>): (m: map<int, Question>)
    ensures m.Keys == IdSet(questions)
    ensures forall id :: id in m ==> m[id] in questions && m[id].id == id
    decreases |questions|
  {
    if questions == [] then map[]
    else
      var init, q := questions[..|questions| - 1], questions[|questions| - 1];
      assert questions == init + [q];
      QuestionMap(init)[q.id := q]
  }

  /** A submitted id names a stored question: only a number can, since the
      map's keys are numbers and `Map#get` compares with SameValueZero. */
  predicate Known(questions: seq<Question>, id: JsValue) {
    id.Num? && id.n in IdSet(questions)
  }

  /** `questionMap.get(id)`. */
  function Lookup(questions: seq<Question>, id: JsValue): (r: Option<Question>)
    ensures r.Some? <==> Known(questions, id)
    ensures r.Some? ==> r.value in questions && id == Num(r.value.id)
  {
    var m := QuestionMap(questions);
    if id.Num? && id.n in m then Some(m[id.n]) else None
  }

  /** With distinct stored ids, looking up a stored question's id finds
      that very question. */
  lemma LookupFindsStored(questions: seq<Question>, j: nat)
    requires StoreValid(questions)
    requires j < |questions|
    ensures Lookup(questions, Num(questions[j].id)) == Some(questions[j])
  {
    var ids := QuestionIds(questions);
    assert questions[j].id in IdSet(questions);
    var q := Lookup(questions, Num(questions[j].id)).value;
    var i :| 0 <= i < |questions| && questions[i] == q;
    assert ids[i] == ids[j];
    assert Distinct(ids);
    assert i == j;
  }

  // ---------------------------------------------------------------------
  // calculateScore
  // ---------------------------------------------------------------------

  /** The error calculateScore throws. */
  datatype ScoreError = QuestionNotFound(questionId: JsValue)

  /** The text of the thrown Error; for a numeric id, the digits between
      "Question with id " and " not found" read back as the id. */
  function ScoreErrorMessage(e: ScoreError): (m: string)
    ensures |m| >= 27 && m[..17] == "Question with id " && m[|m| - 10..] == " not found"
    ensures e.questionId.Num? && e.questionId.n >= 0 ==>
              AllDigits(m[17..|m| - 10]) && DigitsValue(m[17..|m| - 10]) == e.questionId.n
  {
    var shown := ToJsString(e.questionId);
    var m := "Question with id " + shown + " not found";
    assert m[..17] == "Question with id " && m[|m| - 10..] == " not found";
    assert m[17..|m| - 10] == shown;
    m
  }

  /** The result entry for one answer to question `q`; the comparison is
      JavaScript's `===`, so an option that is not a number is never right. */
  function Grade(q: Question, a: UserAnswer): AnswerResult {
    AnswerResult(a.questionId, q.text, a.selectedOption, q.correctAnswer,
                 a.selectedOption == Num(q.correctAnswer), q.options)
  }

  /** The entries of `submission.answers.map(...)`, or the error of the
      first answer whose question is missing. */
  function GradeAll(questions: seq<Question>, answers: seq<UserAnswer>): Result<seq<AnswerResult>, ScoreError>
    decreases |answers|
  {
    if answers == [] then Success([])
    else
      match GradeAll(questions, answers[..|answers| - 1])
      case Failure(e) => Failure(e)
      case Success(graded) =>
        var a := answers[|answers| - 1];
        match Lookup(questions, a.questionId)
        case None => Failure(QuestionNotFound(a.questionId))
        case Some(q) => Success(graded + [Grade(q, a)])
  }

  /** The number of correct entries. */
  function CountCorrect(graded: seq<AnswerResult>): nat
    decreases |graded|
  {
    if graded == [] then 0
    else CountCorrect(graded[..|graded| - 1]) + (if graded[|graded| - 1].isCorrect then 1 else 0)
  }

  /** `Math.round((score / total) * 100)` in exact arithmetic: the integer
      nearest to 100 * score / total, halves rounded up. A score out of zero
      questions is NaN in JavaScript, None here. */
  function RoundedPercentage(score: nat, total: nat): (p: Option<nat>)
    ensures p.Some? <==> total > 0
    ensures p.Some? ==> 2 * total * p.value <= 200 * score + total < 2 * total * (p.value + 1)
  {
    if total == 0 then None
    else
      var x, d := 200 * score + total, 2 * total;
      assert x == d * (x / d) + x % d;
      Some(x / d)
  }

  /** What calculateScore returns or throws: it succeeds exactly when every
      submitted id is a stored id, and then grades every answer, counts at
      most that many correct and reports the number of stored questions as
      the total. */
  function Score(questions: seq<Question>, answers: seq<UserAnswer>): (r: Result<QuizResult, ScoreError>)
    ensures r.Success? <==> forall k :: 0 <= k < |answers| ==> Known(questions, answers[k].questionId)
    ensures r.Success? ==>
              && |r.value.answers| == |answers|
              && r.value.score <= |answers|
              && r.value.totalQuestions == |questions|
  {
    GradeAllSucceeds(questions, answers);
    match GradeAll(questions, answers)
    case Failure(e) => Failure(e)
    case Success(graded) =>
      CountCorrectAtMost(graded);
      var score := CountCorrect(graded);
      Success(QuizResult(score, |questions|, RoundedPercentage(score, |questions|), graded))
  }

  /** Once a prefix of the answers fails, the whole list fails the same way:
      `map` stops at the first throw. */
  lemma {:induction false} GradeAllPrefixFailure(questions: seq<Question>, answers: seq<UserAnswer>, i: nat)
    requires i <= |answers|
    requires GradeAll(questions, answers[..i]).Failure?
    ensures GradeAll(questions, answers) == GradeAll(questions, answers[..i])
    decreases |answers| - i
  {
    if i < |answers| {
      assert answers[..i + 1][..i] == answers[..i];
      GradeAllPrefixFailure(questions, answers, i + 1);
    } else {
      assert answers[..i] == answers;
    }
  }

  /** calculateScore: grade each answer in order, counting the correct ones. */
  method CalculateScore(questions: seq<Question>, answers: seq<UserAnswer>) returns (result: Result<QuizResult, ScoreError>)
    ensures result == Score(questions, answers)
  {
    var questionMap := QuestionMap(questions);
    var score: nat := 0;
    var graded: seq<AnswerResult> := [];
    var i := 0;
    while i < |answers|
      invariant 0 <= i <= |answers|
      invariant GradeAll(questions, answers[..i]) == Success(graded)
      invariant score == CountCorrect(graded)
    {
      var answer := answers[i];
      assert answers[..i + 1][..i] == answers[..i];
      if !answer.questionId.Num? || answer.questionId.n !in questionMap {
        result := Failure(QuestionNotFound(answer.questionId));
        GradeAllPrefixFailure(questions, answers, i + 1);
        return;
      }
      var question := questionMap[answer.questionId.n];
      var isCorrect := answer.selectedOption == Num(question.correctAnswer);
      if isCorrect {
        score := score + 1;
      }
      var entry := AnswerResult(answer.questionId, question.text, answer.selectedOption,
                                question.correctAnswer, isCorrect, question.options);
      assert (graded + [entry])[..|graded|] == graded;
      graded := graded + [entry];
      i := i + 1;
    }
    assert answers[..i] == answers;
    var totalQuestions := |questions|;
    result := Success(QuizResult(score, totalQuestions, RoundedPercentage(score, totalQuestions), graded));
  }

  /** Grading succeeds exactly when every submitted id is a stored id, and
      then yields one entry per answer, in submission order. */
  lemma {:induction false} GradeAllSucceeds(questions: seq<Question>, answers: seq<UserAnswer>)
    ensures GradeAll(questions, answers).Success? <==>
            forall k :: 0 <= k < |answers| ==> Known(questions, answers[k].questionId)
    ensures GradeAll(questions, answers).Success? ==>
            var graded := GradeAll(questions, answers).value;
            && |graded| == |answers|
            && forall k :: 0 <= k < |answers| ==>
                 graded[k] == Grade(Lookup(questions, answers[k].questionId).value, answers[k])
    decreases |answers|
  {
    if answers != [] {
      var init := answers[..|answers| - 1];
      GradeAllSucceeds(questions, init);
      forall k | 0 <= k < |init| ensures init[k] == answers[k] { }
    }
  }

  /** When some submitted id is unknown, grading fails on the first such
      answer, naming its id. */
  lemma {:induction false} GradeAllFailsAtFirstUnknown(questions: seq<Question>, answers: seq<UserAnswer>, j: nat)
    requires j < |answers|
    requires !Known(questions, answers[j].questionId)
    requires forall k :: 0 <= k < j ==> Known(questions, answers[k].questionId)
    ensures GradeAll(questions, answers) == Failure(QuestionNotFound(answers[j].questionId))
    decreases |answers|
  {
    var init := answers[..|answers| - 1];
    if j == |answers| - 1 {
      GradeAllSucceeds(questions, init);
    } else {
      GradeAllFailsAtFirstUnknown(questions, init, j);
    }
  }

  /** CountCorrect counts the entries marked correct. */
  lemma {:induction false} CountCorrectCounts(graded: seq<AnswerResult>)
    ensures CountCorrect(graded) == |set k | 0 <= k < |graded| && graded[k].isCorrect|
    decreases |graded|
  {
    if graded != [] {
      var n := |graded| - 1;
      var init := graded[..n];
      CountCorrectCounts(init);
      var before := set k | 0 <= k < n && init[k].isCorrect;
      var after := set k | 0 <= k < |graded| && graded[k].isCorrect;
      if graded[n].isCorrect {
        assert after == before + {n};
      } else {
        assert after == before;
      }
    }
  }

  /** What a successful calculateScore returns: one entry per answer in
      submission order, copying the answer's id and option and taking the
      text, options and correct option from the stored question with that
      id; an entry is correct exactly when its option equals the stored
      answer; the score counts the correct entries; the total is the number
      of stored questions; the percentage is the rounded ratio. */
  lemma ScoreSuccess(questions: seq<Question>, answers: seq<UserAnswer>)
    requires StoreValid(questions)
    requires forall k :: 0 <= k < |answers| ==> Known(questions, answers[k].questionId)
    ensures Score(questions, answers).Success?
    ensures var r := Score(questions, answers).value;
            && |r.answers| == |answers|
            && r.totalQuestions == |questions|
            && r.score == |set k | 0 <= k < |r.answers| && r.answers[k].isCorrect|
            && r.percentage == RoundedPercentage(r.score, |questions|)
            && (forall k :: 0 <= k < |answers| ==>
                  && r.answers[k].questionId == answers[k].questionId
                  && r.answers[k].selectedOption == answers[k].selectedOption
                  && (r.answers[k].isCorrect <==> answers[k].selectedOption == Num(r.answers[k].correctOption)))
            && (forall k, j :: 0 <= k < |answers| && 0 <= j < |questions| && answers[k].questionId == Num(questions[j].id) ==>
                  && r.answers[k].question == questions[j].text
                  && r.answers[k].options == questions[j].options
                  && r.answers[k].correctOption == questions[j].correctAnswer)
  {
    GradeAllSucceeds(questions, answers);
    var graded := GradeAll(questions, answers).value;
    CountCorrectCounts(graded);
    forall k, j | 0 <= k < |answers| && 0 <= j < |questions| && answers[k].questionId == Num(questions[j].id)
      ensures graded[k].question == questions[j].text
      ensures graded[k].options == questions[j].options
      ensures graded[k].correctOption == questions[j].correctAnswer
    {
      LookupFindsStored(questions, j);
    }
  }

  /** calculateScore throws exactly when some submitted id is not a stored
      id, and then for the first such answer. */
  lemma ScoreFailure(questions: seq<Question>, answers: seq<UserAnswer>, j: nat)
    requires j < |answers|
    requires !Known(questions, answers[j].questionId)
    requires forall k :: 0 <= k < j ==> Known(questions, answers[k].questionId)
    ensures Score(questions, answers) == Failure(QuestionNotFound(answers[j].questionId))
  {
    GradeAllFailsAtFirstUnknown(questions, answers, j);
  }

  /** A score no larger than the total gives a percentage in 0..100. */
  lemma PercentageInRange(score: nat, total: nat)
    requires 0 < total && score <= total
    ensures var p := RoundedPercentage(score, total); p.Some? && p.value <= 100
  {
    var p := RoundedPercentage(score, total).value;
    assert 2 * total * p <= 200 * score + total <= 201 * total;
    MulCancel(2 * total, p, 101);
  }

  /** A positive factor cancels from a strict inequality. */
  lemma {:induction false} MulCancel(c: nat, a: nat, b: nat)
    requires 0 < c && c * a < c * b
    ensures a < b
    decreases a
  {
    if a > 0 {
      assert b > 0;
      assert c * (a - 1) == c * a - c && c * (b - 1) == c * b - c;
      MulCancel(c, a - 1, b - 1);
    }
  }

  /** The roundings the tests expect: 1/3, 3/5, 5/5 and 0/5 of the questions. */
  lemma PercentageExamples()
    ensures RoundedPercentage(1, 3) == Some(33)
    ensures RoundedPercentage(3, 5) == Some(60)
    ensures RoundedPercentage(5, 5) == Some(100)
    ensures RoundedPercentage(0, 5) == Some(0)
  {
  }

  // ---------------------------------------------------------------------
  // validateSubmission
  // ---------------------------------------------------------------------

  /** The errors validateSubmission reports; positions are 1-based. */
  datatype ValidationError =
    | InvalidFormat
    | CountMismatch(expected: nat, received: nat)
    | IdNotNumber(position: nat)
    | UnknownId(position: nat, id: int)
    | OptionNotNumber(position: nat)
    | OptionOutOfRange(position: nat)
    | DuplicateIds

  /** The message of an error about the answer at `position`: "Answer ",
      the position in digits, a colon, then `text`. */
  function AnswerMessage(position: nat, text: string): (m: string)
    ensures var digits := NatToString(position);
            && |m| > 8 + |digits| && m[..7] == "Answer "
            && m[7..7 + |digits|] == digits && m[7 + |digits|] == ':'
  {
    var digits := NatToString(position);
    var m := "Answer " + digits + ": " + text;
    assert m[..7] == "Answer " && m[7..7 + |digits|] == digits;
    m
  }

  /** The error strings, word for word. An error about one answer starts
      "Answer ", then its position in digits, then a colon. */
  function Message(e: ValidationError): (m: string)
    ensures PerAnswer(e) ==>
              var digits := NatToString(e.position);
              && |m| > 8 + |digits| && m[..7] == "Answer "
              && m[7..7 + |digits|] == digits && m[7 + |digits|] == ':'
  {
    match e
    case InvalidFormat => "Invalid submission format: answers must be an array"
    case CountMismatch(expected, received) =>
      "Expected " + NatToString(expected) + " answers, but received " + NatToString(received)
    case IdNotNumber(p) => AnswerMessage(p, "questionId must be a number")
    case UnknownId(p, id) => AnswerMessage(p, "invalid questionId " + IntToString(id))
    case OptionNotNumber(p) => AnswerMessage(p, "selectedOption must be a number")
    case OptionOutOfRange(p) => AnswerMessage(p, "selectedOption must be between 0 and 3")
    case DuplicateIds => "Duplicate question IDs found in submission"
  }

  /** Messages about answers at different positions differ: the digits
      after "Answer " name the position unambiguously. */
  lemma MessagesTellPositionsApart(e1: ValidationError, e2: ValidationError)
    requires PerAnswer(e1) && PerAnswer(e2) && e1.position != e2.position
    ensures Message(e1) != Message(e2)
  {
    var m1, m2 := Message(e1), Message(e2);
    var d1, d2 := NatToString(e1.position), NatToString(e2.position);
    if |d1| == |d2| {
      NatToStringRoundTrip(e1.position);
      NatToStringRoundTrip(e2.position);
      assert m1[7..7 + |d1|] != m2[7..7 + |d2|];
    } else if |d1| < |d2| {
      assert m1[7 + |d1|] != m2[7 + |d1|] by { assert m2[7 + |d1|] == d2[|d1|]; }
    } else {
      assert m1[7 + |d2|] != m2[7 + |d2|] by { assert m1[7 + |d2|] == d1[|d2|]; }
    }
  }

  /** The messages of a list of errors, in order. */
  function Render(errors: seq<ValidationError>): (messages: seq<string>)
    ensures |messages| == |errors|
    decreases |errors|
  {
    if errors == [] then [] else Render(errors[..|errors| - 1]) + [Message(errors[|errors| - 1])]
  }

  lemma RenderSnoc(errors: seq<ValidationError>, e: ValidationError)
    ensures Render(errors + [e]) == Render(errors) + [Message(e)]
  {
    assert (errors + [e])[..|errors|] == errors;
  }

  /** The id check of one answer: "must be a number" comes first. */
  function IdErrors(ids: set<int>, position: nat, id: JsValue): seq<ValidationError> {
    match id
    case Num(n) => if n in ids then [] else [UnknownId(position, n)]
    case _ => [IdNotNumber(position)]
  }

  /** The option check of one answer: "must be a number" comes first. */
  function OptionErrors(position: nat, option: JsValue): seq<ValidationError> {
    match option
    case Num(n) => if n < 0 || n > 3 then [OptionOutOfRange(position)] else []
    case _ => [OptionNotNumber(position)]
  }

  /** The errors of each answer in turn, at its 1-based position. */
  function AnswerErrors(ids: set<int>, answers: seq<UserAnswer>): seq<ValidationError>
    decreases |answers|
  {
    if answers == [] then []
    else
      var a := answers[|answers| - 1];
      AnswerErrors(ids, answers[..|answers| - 1])
        + IdErrors(ids, |answers|, a.questionId) + OptionErrors(|answers|, a.selectedOption)
  }

  /** `submission.answers.map(a => a.questionId)`. */
  function SubmittedIds(answers: seq<UserAnswer>): (ids: seq<JsValue>)
    ensures |ids| == |answers|
    ensures forall k :: 0 <= k < |ids| ==> ids[k] == answers[k].questionId
    ensures Distinct(ids) <==> |Elements(ids)| == |answers|
  {
    var ids := seq(|answers|, k requires 0 <= k < |answers| => answers[k].questionId);
    DistinctIffNoShrink(ids);
    ids
  }

  /** The errors validateSubmission reports, in order: the count error, the
      errors of each answer in index order, then the duplicate error. An
      `answers` field that is missing or not an array is None, and only
      then is the format error reported, alone. No error at all needs one
      answer per stored question. */
  function Errors(questions: seq<Question>, answers: Option<seq<UserAnswer>>): (errors: seq<ValidationError>)
    ensures answers.None? ==> errors == [InvalidFormat]
    ensures answers.Some? ==> InvalidFormat !in errors
    ensures errors == [] ==> answers.Some? && |answers.value| == |questions|
  {
    match answers
    case None => [InvalidFormat]
    case Some(submitted) =>
      AnswerErrorsRanked(IdSet(questions), submitted, |submitted|);
      (if |submitted| != |questions| then [CountMismatch(|questions|, |submitted|)] else [])
        + AnswerErrors(IdSet(questions), submitted)
        + (if Distinct(SubmittedIds(submitted)) then [] else [DuplicateIds])
  }

  /** The questionId check of one answer, appending at most one message. */
  method CheckQuestionId(ids: set<int>, position: nat, id: JsValue, errors0: seq<string>, ghost found0: seq<ValidationError>)
    returns (errors: seq<string>, ghost found: seq<ValidationError>)
    requires errors0 == Render(found0)
    ensures found == found0 + IdErrors(ids, position, id)
    ensures errors == Render(found)
  {
    errors, found := errors0, found0;
    if !id.Num? {
      var e := IdNotNumber(position);
      RenderSnoc(found, e);
      errors, found := errors + [Message(e)], found + [e];
    } else if id.n !in ids {
      var e := UnknownId(position, id.n);
      RenderSnoc(found, e);
      errors, found := errors + [Message(e)], found + [e];
    }
  }

  /** The selectedOption check of one answer, appending at most one message. */
  method CheckSelectedOption(position: nat, option: JsValue, errors0: seq<string>, ghost found0: seq<ValidationError>)
    returns (errors: seq<string>, ghost found: seq<ValidationError>)
    requires errors0 == Render(found0)
    ensures found == found0 + OptionErrors(position, option)
    ensures errors == Render(found)
  {
    errors, found := errors0, found0;
    if !option.Num? {
      var e := OptionNotNumber(position);
      RenderSnoc(found, e);
      errors, found := errors + [Message(e)], found + [e];
    } else if option.n < 0 || option.n > 3 {
      var e := OptionOutOfRange(position);
      RenderSnoc(found, e);
      errors, found := errors + [Message(e)], found + [e];
    }
  }

  /** The `forEach` over the answers: each answer's id check, then its
      option check, positions counted from 1. */
  method CheckAnswers(ids: set<int>, submitted: seq<UserAnswer>, errors0: seq<string>, ghost found0: seq<ValidationError>)
    returns (errors: seq<string>, ghost found: seq<ValidationError>)
    requires errors0 == Render(found0)
    ensures found == found0 + AnswerErrors(ids, submitted)
    ensures errors == Render(found)
  {
    errors, found := errors0, found0;
    var index := 0;
    while index < |submitted|
      invariant 0 <= index <= |submitted|
      invariant found == found0 + AnswerErrors(ids, submitted[..index])
      invariant errors == Render(found)
    {
      var answer := submitted[index];
      var position := index + 1;
      AnswerErrorsSnoc(ids, submitted, index);
      ghost var middle;
      errors, middle := CheckQuestionId(ids, position, answer.questionId, errors, found);
      errors, found := CheckSelectedOption(position, answer.selectedOption, errors, middle);
      AppendAssoc(found0, AnswerErrors(ids, submitted[..index]),
                  IdErrors(ids, position, answer.questionId), OptionErrors(position, answer.selectedOption));
      index := index + 1;
    }
    assert submitted[..index] == submitted;
  }

  /** validateSubmission: the list of error strings. */
  method ValidateSubmission(questions: seq<Question>, answers: Option<seq<UserAnswer>>) returns (errors: seq<string>)
    ensures errors == Render(Errors(questions, answers))
  {
    errors := [];
    if answers.None? {
      errors := errors + [Message(InvalidFormat)];
      return;
    }
    var submitted := answers.value;
    var questionIds := IdSet(questions);
    ghost var found: seq<ValidationError> := [];

    if |submitted| != |questions| {
      var e := CountMismatch(|questions|, |submitted|);
      RenderSnoc(found, e);
      errors, found := errors + [Message(e)], found + [e];
    }
    ghost var head := found;
    assert head == if |submitted| != |questions| then [CountMismatch(|questions|, |submitted|)] else [];

    errors, found := CheckAnswers(questionIds, submitted, errors, found);
    errors, found := CheckDuplicates(submitted, errors, found);
    assert found == head + AnswerErrors(questionIds, submitted)
                    + (if Distinct(SubmittedIds(submitted)) then [] else [DuplicateIds]);
  }

  /** The duplicate check: the error is appended exactly when the set of
      submitted ids is smaller than the array. */
  method CheckDuplicates(submitted: seq<UserAnswer>, errors0: seq<string>, ghost found0: seq<ValidationError>)
    returns (errors: seq<string>, ghost found: seq<ValidationError>)
    requires errors0 == Render(found0)
    ensures found == found0 + (if Distinct(SubmittedIds(submitted)) then [] else [DuplicateIds])
    ensures errors == Render(found)
  {
    errors, found := errors0, found0;
    var submittedQuestionIds := SubmittedIds(submitted);
    var uniqueQuestionIds := Elements(submittedQuestionIds);
    if |submittedQuestionIds| != |uniqueQuestionIds| {
      var e := DuplicateIds;
      RenderSnoc(found, e);
      errors, found := errors + [Message(e)], found + [e];
    }
  }

  lemma AppendAssoc<T>(h: seq<T>, a: seq<T>, b: seq<T>, c: seq<T>)
    ensures h + (a + b + c) == h + a + b + c
  {
  }

  lemma AnswerErrorsSnoc(ids: set<int>, answers: seq<UserAnswer>, i: nat)
    requires i < |answers|
    ensures AnswerErrors(ids, answers[..i + 1])
            == AnswerErrors(ids, answers[..i]) + IdErrors(ids, i + 1, answers[i].questionId)
               + OptionErrors(i + 1, answers[i].selectedOption)
  {
    assert answers[..i + 1][..i] == answers[..i];
  }

  /** The rank of an error in the reported order for `n` answers: the count
      error first, then per answer its id error and then its option error,
      the duplicate error last. */
  function Rank(e: ValidationError, n: nat): (r: nat)
    ensures PerAnswer(e) ==> 2 * e.position <= r <= 2 * e.position + 1
  {
    match e
    case InvalidFormat => 0
    case CountMismatch(_, _) => 0
    case IdNotNumber(p) => 2 * p
    case UnknownId(p, _) => 2 * p
    case OptionNotNumber(p) => 2 * p + 1
    case OptionOutOfRange(p) => 2 * p + 1
    case DuplicateIds => 2 * n + 2
  }

  /** Ranks strictly increase along `errors`. */
  predicate Ranked(errors: seq<ValidationError>, n: nat) {
    forall i, j :: 0 <= i < j < |errors| ==> Rank(errors[i], n) < Rank(errors[j], n)
  }

  lemma RankedConcat(a: seq<ValidationError>, b: seq<ValidationError>, n: nat, bound: nat)
    requires Ranked(a, n) && Ranked(b, n)
    requires forall i :: 0 <= i < |a| ==> Rank(a[i], n) < bound
    requires forall j :: 0 <= j < |b| ==> bound <= Rank(b[j], n)
    ensures Ranked(a + b, n)
  {
    forall i, j | 0 <= i < j < |a + b| ensures Rank((a + b)[i], n) < Rank((a + b)[j], n) {
      if j < |a| {
        assert (a + b)[i] == a[i] && (a + b)[j] == a[j];
      } else if i < |a| {
        assert (a + b)[i] == a[i] && (a + b)[j] == b[j - |a|];
      } else {
        assert (a + b)[i] == b[i - |a|] && (a + b)[j] == b[j - |a|];
      }
    }
  }

  lemma RanksBelow(a: seq<ValidationError>, b: seq<ValidationError>, n: nat, bound: nat)
    requires forall i :: 0 <= i < |a| ==> Rank(a[i], n) < bound
    requires forall j :: 0 <= j < |b| ==> Rank(b[j], n) < bound
    ensures forall k :: 0 <= k < |a + b| ==> Rank((a + b)[k], n) < bound
  {
    forall k | 0 <= k < |a + b| ensures Rank((a + b)[k], n) < bound {
      if k >= |a| {
        assert (a + b)[k] == b[k - |a|];
      }
    }
  }

  /** An error of a single answer, at the position it carries. */
  predicate PerAnswer(e: ValidationError) {
    e.IdNotNumber? || e.UnknownId? || e.OptionNotNumber? || e.OptionOutOfRange?
  }

  /** The per-answer errors of `n` answers have positions 1..n and strictly
      increasing ranks. */
  lemma AnswerErrorsRanked(ids: set<int>, answers: seq<UserAnswer>, n: nat)
    ensures forall k :: 0 <= k < |AnswerErrors(ids, answers)| ==>
              PerAnswer(AnswerErrors(ids, answers)[k]) && 1 <= AnswerErrors(ids, answers)[k].position <= |answers|
    ensures Ranked(AnswerErrors(ids, answers), n)
  {
    AnswerErrorsPositions(ids, answers);
    AnswerErrorsRankOrder(ids, answers, n);
  }

  lemma {:induction false} AnswerErrorsPositions(ids: set<int>, answers: seq<UserAnswer>)
    ensures forall k :: 0 <= k < |AnswerErrors(ids, answers)| ==>
              PerAnswer(AnswerErrors(ids, answers)[k]) && 1 <= AnswerErrors(ids, answers)[k].position <= |answers|
    decreases |answers|
  {
    if answers != [] {
      var m := |answers|;
      var a := answers[m - 1];
      AnswerErrorsPositions(ids, answers[..m - 1]);
      var es := AnswerErrors(ids, answers);
      var head := AnswerErrors(ids, answers[..m - 1]);
      var tail := IdErrors(ids, m, a.questionId) + OptionErrors(m, a.selectedOption);
      assert es == head + tail;
      OneAnswerRanked(ids, m, a, 0);
      forall k | 0 <= k < |es| ensures PerAnswer(es[k]) && 1 <= es[k].position <= m {
        if k < |head| {
          assert es[k] == head[k];
        } else {
          assert es[k] == tail[k - |head|];
        }
      }
    }
  }

  lemma {:induction false} AnswerErrorsRankOrder(ids: set<int>, answers: seq<UserAnswer>, n: nat)
    ensures Ranked(AnswerErrors(ids, answers), n)
    decreases |answers|
  {
    if answers != [] {
      var m := |answers|;
      var a := answers[m - 1];
      AnswerErrorsRankOrder(ids, answers[..m - 1], n);
      AnswerErrorsPositions(ids, answers[..m - 1]);
      var head := AnswerErrors(ids, answers[..m - 1]);
      var tail := IdErrors(ids, m, a.questionId) + OptionErrors(m, a.selectedOption);
      assert AnswerErrors(ids, answers) == head + tail;
      OneAnswerRanked(ids, m, a, n);
      assert forall k :: 0 <= k < |head| ==> Rank(head[k], n) < 2 * m;
      RankedConcat(head, tail, n, 2 * m);
    }
  }

  /** The errors of the answer at `position`: at most the id error and then
      the option error, both at that position. */
  lemma OneAnswerRanked(ids: set<int>, position: nat, a: UserAnswer, n: nat)
    ensures var tail := IdErrors(ids, position, a.questionId) + OptionErrors(position, a.selectedOption);
            && (forall k :: 0 <= k < |tail| ==> PerAnswer(tail[k]) && tail[k].position == position)
            && (forall k :: 0 <= k < |tail| ==> 2 * position <= Rank(tail[k], n))
            && Ranked(tail, n)
  {
    var idErr, optErr := IdErrors(ids, position, a.questionId), OptionErrors(position, a.selectedOption);
    var tail := idErr + optErr;
    assert |idErr| <= 1 && |optErr| <= 1;
    forall i, j | 0 <= i < j < |tail| ensures Rank(tail[i], n) < Rank(tail[j], n) {
      assert tail[i] == idErr[0] && tail[j] == optErr[0];
    }
  }

  /** The reported errors come in rank order with no rank repeated: the
      count error, then each answer's errors in index order with the id
      error before the option error, then the duplicate error; hence each
      answer contributes at most one id error and at most one option error. */
  lemma ErrorsOrdered(questions: seq<Question>, answers: seq<UserAnswer>)
    ensures Ranked(Errors(questions, Some(answers)), |answers|)
  {
    var n := |answers|;
    AnswerErrorsRanked(IdSet(questions), answers, n);
    var count := if n != |questions| then [CountMismatch(|questions|, n)] else [];
    var middle := AnswerErrors(IdSet(questions), answers);
    var dup := if Distinct(SubmittedIds(answers)) then [] else [DuplicateIds];
    assert Errors(questions, Some(answers)) == count + middle + dup;
    assert forall k :: 0 <= k < |middle| ==> 2 <= Rank(middle[k], n) < 2 * n + 2;
    RankedConcat(count, middle, n, 2);
    RanksBelow(count, middle, n, 2 * n + 2);
    RankedConcat(count + middle, dup, n, 2 * n + 2);
  }

  /** Two errors about the same answer are of different kinds: at most one
      id error and at most one option error per answer. */
  lemma AtMostOneErrorOfEachKind(questions: seq<Question>, answers: seq<UserAnswer>, i: nat, j: nat)
    requires var es := Errors(questions, Some(answers)); i < j < |es| && PerAnswer(es[i]) && PerAnswer(es[j])
    ensures var es := Errors(questions, Some(answers));
            es[i].position == es[j].position ==>
              (es[i].IdNotNumber? || es[i].UnknownId?) && (es[j].OptionNotNumber? || es[j].OptionOutOfRange?)
  {
    ErrorsOrdered(questions, answers);
    var es := Errors(questions, Some(answers));
    if es[i].position == es[j].position {
      assert Rank(es[i], |answers|) < Rank(es[j], |answers|);
    }
  }

  /** The selected option passes the option check. */
  predicate OptionInRange(option: JsValue) {
    option.Num? && 0 <= option.n <= 3
  }

  /** The answers of one list raise no per-answer error exactly when every
      id is a stored id and every option lies in 0..3. */
  lemma {:induction false} AnswerErrorsEmpty(questions: seq<Question>, answers: seq<UserAnswer>)
    ensures AnswerErrors(IdSet(questions), answers) == [] <==>
            forall k :: 0 <= k < |answers| ==>
              Known(questions, answers[k].questionId) && OptionInRange(answers[k].selectedOption)
    decreases |answers|
  {
    if answers != [] {
      var init := answers[..|answers| - 1];
      AnswerErrorsEmpty(questions, init);
      forall k | 0 <= k < |init| ensures init[k] == answers[k] { }
    }
  }

  /** What a submission must satisfy to pass validation. */
  predicate WellFormed(questions: seq<Question>, answers: seq<UserAnswer>) {
    && |answers| == |questions|
    && (forall k :: 0 <= k < |answers| ==> Known(questions, answers[k].questionId))
    && (forall k :: 0 <= k < |answers| ==> OptionInRange(answers[k].selectedOption))
    && Distinct(SubmittedIds(answers))
  }

  /** validateSubmission reports no error exactly when the answers form an
      array with one answer per stored question, every id a stored id,
      every option in 0..3, and no id repeated. */
  lemma ErrorsEmptyIff(questions: seq<Question>, answers: Option<seq<UserAnswer>>)
    ensures Errors(questions, answers) == [] <==> answers.Some? && WellFormed(questions, answers.value)
  {
    if answers.Some? {
      AnswerErrorsEmpty(questions, answers.value);
    }
  }

  /** A missing or non-array `answers` field gives exactly the format error,
      and no other check is made. */
  lemma NotAnArray(questions: seq<Question>)
    ensures Render(Errors(questions, None)) == ["Invalid submission format: answers must be an array"]
  {
  }

  /** Every error reported for an array of answers has its cause: each
      answer-level error points at an answer that has the fault it names
      ("must be a number" only for a non-number, "invalid questionId" or
      "between 0 and 3" only for a number), the count error only when the
      counts differ, the duplicate error only when an id repeats. */
  predicate Justified(questions: seq<Question>, answers: seq<UserAnswer>, e: ValidationError) {
    match e
    case InvalidFormat => false
    case CountMismatch(expected, received) =>
      expected == |questions| && received == |answers| && expected != received
    case IdNotNumber(p) =>
      1 <= p <= |answers| && !answers[p - 1].questionId.Num?
    case UnknownId(p, id) =>
      1 <= p <= |answers| && answers[p - 1].questionId == Num(id) && id !in IdSet(questions)
    case OptionNotNumber(p) =>
      1 <= p <= |answers| && !answers[p - 1].selectedOption.Num?
    case OptionOutOfRange(p) =>
      1 <= p <= |answers| && answers[p - 1].selectedOption.Num?
      && (answers[p - 1].selectedOption.n < 0 || answers[p - 1].selectedOption.n > 3)
    case DuplicateIds => !Distinct(SubmittedIds(answers))
  }

  lemma {:induction false} AnswerErrorsJustified(questions: seq<Question>, answers: seq<UserAnswer>, all: seq<UserAnswer>)
    requires answers <= all
    ensures forall e :: e in AnswerErrors(IdSet(questions), answers) ==> Justified(questions, all, e)
    decreases |answers|
  {
    if answers != [] {
      var m := |answers|;
      assert answers[..m - 1] <= all;
      AnswerErrorsJustified(questions, answers[..m - 1], all);
      assert all[m - 1] == answers[m - 1];
    }
  }

  /** Every reported error is justified by the submission. */
  lemma ErrorsSound(questions: seq<Question>, answers: seq<UserAnswer>)
    ensures forall e :: e in Errors(questions, Some(answers)) ==> Justified(questions, answers, e)
  {
    AnswerErrorsJustified(questions, answers, answers);
  }

  /** A prefix of the answers raises a prefix of the errors. */
  lemma {:induction false} AnswerErrorsPrefix(ids: set<int>, answers: seq<UserAnswer>, i: nat)
    requires i <= |answers|
    ensures AnswerErrors(ids, answers[..i]) <= AnswerErrors(ids, answers)
    decreases |answers| - i
  {
    if i < |answers| {
      AnswerErrorsPrefix(ids, answers, i + 1);
      assert answers[..i + 1][..i] == answers[..i];
    } else {
      assert answers[..i] == answers;
    }
  }

  lemma InPrefix<T>(e: T, prefix: seq<T>, s: seq<T>)
    requires e in prefix && prefix <= s
    ensures e in s
  {
    var k :| 0 <= k < |prefix| && prefix[k] == e;
    assert s[k] == e;
  }

  /** Every fault of the submission is reported. */
  lemma ErrorsComplete(questions: seq<Question>, answers: seq<UserAnswer>, p: nat)
    requires 1 <= p <= |answers|
    ensures var a, es := answers[p - 1], Errors(questions, Some(answers));
            && (!a.questionId.Num? ==> IdNotNumber(p) in es)
            && (a.questionId.Num? && a.questionId.n !in IdSet(questions) ==> UnknownId(p, a.questionId.n) in es)
            && (!a.selectedOption.Num? ==> OptionNotNumber(p) in es)
            && (a.selectedOption.Num? && (a.selectedOption.n < 0 || a.selectedOption.n > 3) ==> OptionOutOfRange(p) in es)
            && (|answers| != |questions| ==> CountMismatch(|questions|, |answers|) in es)
            && (!Distinct(SubmittedIds(answers)) ==> DuplicateIds in es)
  {
    var ids := IdSet(questions);
    var a := answers[p - 1];
    var pre := answers[..p];
    assert pre[..p - 1] == answers[..p - 1] && pre[p - 1] == a;
    var own := IdErrors(ids, p, a.questionId) + OptionErrors(p, a.selectedOption);
    assert AnswerErrors(ids, pre) == AnswerErrors(ids, answers[..p - 1]) + own;
    AnswerErrorsPrefix(ids, answers, p);
    var count := if |answers| != |questions| then [CountMismatch(|questions|, |answers|)] else [];
    var middle := AnswerErrors(ids, answers);
    var dup := if Distinct(SubmittedIds(answers)) then [] else [DuplicateIds];
    var es := Errors(questions, Some(answers));
    assert es == count + middle + dup;
    forall e | e in own ensures e in es {
      assert e in AnswerErrors(ids, pre);
      InPrefix(e, AnswerErrors(ids, pre), middle);
    }
  }

  /** Whatever the answers, even none: a count that differs from the number
      of stored questions is reported first, and a repeated id last. */
  lemma ErrorsReportCountAndDuplicates(questions: seq<Question>, answers: seq<UserAnswer>)
    ensures var es := Errors(questions, Some(answers));
            && (|answers| != |questions| ==> |es| > 0 && es[0] == CountMismatch(|questions|, |answers|))
            && (!Distinct(SubmittedIds(answers)) ==> |es| > 0 && es[|es| - 1] == DuplicateIds)
            && (|answers| == |questions| ==> CountMismatch(|questions|, |answers|) !in es)
  {
    var count := if |answers| != |questions| then [CountMismatch(|questions|, |answers|)] else [];
    var middle := AnswerErrors(IdSet(questions), answers);
    var dup := if Distinct(SubmittedIds(answers)) then [] else [DuplicateIds];
    var es := Errors(questions, Some(answers));
    assert es == count + middle + dup;
    AnswerErrorsRanked(IdSet(questions), answers, |answers|);
    assert CountMismatch(|questions|, |answers|) !in middle;
  }

  // ---------------------------------------------------------------------
  // Validation and scoring together
  // ---------------------------------------------------------------------

  /** QuestionIds as the values a submission carries. */
  function StoredIds(questions: seq<Question>): (ids: seq<JsValue>)
    ensures |ids| == |questions|
    ensures forall k :: 0 <= k < |ids| ==> ids[k] == Num(questions[k].id)
  {
    var stored := QuestionIds(questions);
    seq(|stored|, k requires 0 <= k < |stored| => Num(stored[k]))
  }

  /** The score never exceeds the number of graded entries. */
  lemma {:induction false} CountCorrectAtMost(graded: seq<AnswerResult>)
    ensures CountCorrect(graded) <= |graded|
    decreases |graded|
  {
    if graded != [] {
      CountCorrectAtMost(graded[..|graded| - 1]);
    }
  }

  /** Every graded entry takes its correct option from a stored row. */
  lemma GradedOptionsInRange(questions: seq<Question>, answers: seq<UserAnswer>)
    requires StoreValid(questions)
    requires GradeAll(questions, answers).Success?
    ensures forall k :: 0 <= k < |GradeAll(questions, answers).value| ==>
              0 <= GradeAll(questions, answers).value[k].correctOption <= 3
  {
    GradeAllSucceeds(questions, answers);
    var graded := GradeAll(questions, answers).value;
    forall k | 0 <= k < |graded| ensures 0 <= graded[k].correctOption <= 3 {
      var q := Lookup(questions, answers[k].questionId).value;
      var j :| 0 <= j < |questions| && questions[j] == q;
    }
  }

  /** A submission that validateSubmission accepts is scored without a
      throw, its ids are a permutation of the stored ids, the score is at
      most the number of questions, the percentage (when there are
      questions) lies in 0..100, and every correct option lies in 0..3. */
  lemma ValidSubmissionScores(questions: seq<Question>, answers: seq<UserAnswer>)
    requires StoreValid(questions)
    requires Errors(questions, Some(answers)) == []
    ensures Score(questions, answers).Success?
    ensures multiset(SubmittedIds(answers)) == multiset(StoredIds(questions))
    ensures var r := Score(questions, answers).value;
            && r.score <= r.totalQuestions == |questions|
            && (|questions| > 0 ==> r.percentage.Some? && r.percentage.value <= 100)
            && (forall k :: 0 <= k < |r.answers| ==> 0 <= r.answers[k].correctOption <= 3)
  {
    ErrorsEmptyIff(questions, Some(answers));
    GradeAllSucceeds(questions, answers);
    var graded := GradeAll(questions, answers).value;
    CountCorrectAtMost(graded);
    if |questions| > 0 {
      PercentageInRange(CountCorrect(graded), |questions|);
    }
    GradedOptionsInRange(questions, answers);
    SubmittedIdsPermuteStored(questions, answers);
  }

  /** A well-formed submission names every stored question exactly once. */
  lemma SubmittedIdsPermuteStored(questions: seq<Question>, answers: seq<UserAnswer>)
    requires StoreValid(questions)
    requires WellFormed(questions, answers)
    ensures multiset(SubmittedIds(answers)) == multiset(StoredIds(questions))
  {
    var sub, stored := SubmittedIds(answers), StoredIds(questions);
    assert Distinct(stored) by {
      var ids := QuestionIds(questions);
      forall i, j | 0 <= i < j < |stored| ensures stored[i] != stored[j] {
        assert ids[i] != ids[j];
      }
    }
    assert Elements(sub) <= Elements(stored) by {
      forall v | v in Elements(sub) ensures v in Elements(stored) {
        var k :| 0 <= k < |sub| && sub[k] == v;
        assert Known(questions, answers[k].questionId);
        var q :| q in questions && q.id == v.n;
        var j :| 0 <= j < |questions| && questions[j] == q;
        assert stored[j] == v;
      }
    }
    DistinctIffNoShrink(sub);
    DistinctIffNoShrink(stored);
    SubsetOfEqualSize(Elements(sub), Elements(stored));
    DistinctMultiset(sub);
    DistinctMultiset(stored);
  }

  lemma SubsetOfEqualSize<T>(a: set<T>, b: set<T>)
    requires a <= b && |a| == |b|
    ensures a == b
  {
    assert |b - a| == |b| - |a|;
  }
}
