/** The records of src/types/quiz.ts, and the JSON values a request body
    may carry where those records expect a number. */
module QuizTypes {
  import opened Wrappers

  /** A JSON value as the route handlers receive it. Numbers are integers
      (fractions, NaN and the infinities are not modelled). An object is
      known only by its reference, which is what JavaScript compares. */
  datatype JsValue =
    | Undefined
    | Null
    | Bool(b: bool)
    | Num(n: int)
    | Str(s: string)
    | Arr(items: seq<JsValue>)
    | Obj(ref: nat)

  /** A question as stored, with its answer key (src/types/quiz.ts, Question). */
  datatype Question = Question(id: int, text: string, options: seq<string>, correctAnswer: int)

  /** A question as sent to the browser, without the answer key. */
  datatype QuizQuestion = QuizQuestion(id: int, text: string, options: seq<string>)

  /** One submitted answer. Both fields come from the request body and so
      need not be numbers. */
  datatype UserAnswer = UserAnswer(questionId: JsValue, selectedOption: JsValue)

  /** One graded answer in a quiz result. */
  datatype AnswerResult = AnswerResult(
    questionId: JsValue,
    question: string,
    selectedOption: JsValue,
    correctOption: int,
    isCorrect: bool,
    options: seq<string>)

  /** The score of a submission. `percentage` is None where JavaScript
      computes NaN (a score out of zero questions). */
  datatype QuizResult = QuizResult(
    score: nat,
    totalQuestions: nat,
    percentage: Option<nat>,
    answers: seq<AnswerResult>)

  /** The ids of the questions, in order. */
  function QuestionIds(questions: seq<Question>): (ids: seq<int>)
    ensures |ids| == |questions|
    ensures forall k :: 0 <= k < |ids| ==> ids[k] == questions[k].id
  {
    seq(|questions|, k requires 0 <= k < |questions| => questions[k].id)
  }

  /** No value occurs twice in `s`. */
  predicate Distinct<T(==)>(s: seq<T>) {
    forall i, j :: 0 <= i < j < |s| ==> s[i] != s[j]
  }

  /** What the questions table guarantees of every row it returns: the id is
      the primary key (src/lib/database.ts:28), there are four option columns
      (lines 30-33) and the CHECK constraint keeps the answer in 0..3 (line 34). */
  predicate StoreValid(questions: seq<Question>) {
    && Distinct(QuestionIds(questions))
    && forall k :: 0 <= k < |questions| ==>
         |questions[k].options| == 4 && 0 <= questions[k].correctAnswer <= 3
  }

  /** The question without its answer key, as getQuestions returns it. */
  function Sanitize(q: Question): QuizQuestion {
    QuizQuestion(q.id, q.text, q.options)
  }

  /** getQuestions: the same rows as getQuestionsWithAnswers, in the same
      order, each without its answer key. The ids survive in order, so the
      questions of a valid store are shown under distinct ids. */
  function SanitizeAll(questions: seq<Question>): (r: seq<QuizQuestion>)
    ensures |r| == |questions|
    ensures forall k :: 0 <= k < |r| ==> r[k] == Sanitize(questions[k])
    ensures forall k :: 0 <= k < |r| ==> r[k].id == QuestionIds(questions)[k]
    ensures StoreValid(questions) ==> forall i, j :: 0 <= i < j < |r| ==> r[i].id != r[j].id
  {
    var r := seq(|questions|, k requires 0 <= k < |questions| => Sanitize(questions[k]));
    assert StoreValid(questions) ==> forall i, j :: 0 <= i < j < |r| ==> r[i].id != r[j].id by {
      if StoreValid(questions) {
        var ids := QuestionIds(questions);
        forall i, j | 0 <= i < j < |r| ensures r[i].id != r[j].id {
          assert ids[i] != ids[j];
        }
      }
    }
    r
  }

  /** The current state of a quiz in the browser (src/types/quiz.ts, QuizState).
      `answers` maps a question id to the option recorded for it. */
  datatype QuizState = QuizState(
    questions: seq<QuizQuestion>,
    currentQuestionIndex: int,
    answers: map<int, int>,
    timeRemaining: int,
    isSubmitted: bool)

  /** The set of values occurring in `s`, as `new Set(s)` builds it. */
  function Elements<T>(s: seq<T>): set<T> {
    set x | x in s
  }

  /** A sequence has as many distinct elements as entries exactly when no
      entry repeats: the test `ids.length !== new Set(ids).size` relies on it. */
  lemma {:induction false} DistinctIffNoShrink<T>(s: seq<T>)
    ensures |Elements(s)| <= |s|
    ensures Distinct(s) <==> |Elements(s)| == |s|
  {
    if s != [] {
      var init, last := s[..|s| - 1], s[|s| - 1];
      DistinctIffNoShrink(init);
      assert s == init + [last];
      assert Elements(s) == Elements(init) + {last};
      if last in Elements(init) {
        var j :| 0 <= j < |init| && init[j] == last;
        assert s[j] == s[|s| - 1];
      } else {
        assert |Elements(s)| == |Elements(init)| + 1;
        if Distinct(init) {
          forall i, j | 0 <= i < j < |s| ensures s[i] != s[j] {
            if j == |s| - 1 {
              assert s[i] in Elements(init);
            } else {
              assert s[i] == init[i] && s[j] == init[j];
            }
          }
        } else {
          var i, j :| 0 <= i < j < |init| && init[i] == init[j];
          assert s[i] == s[j];
        }
      }
    }
  }

  /** Two repetition-free sequences over the same values hold each value once,
      so they are permutations of each other. */
  lemma {:induction false} DistinctMultiset<T>(s: seq<T>)
    requires Distinct(s)
    ensures multiset(s) == multiset(Elements(s))
  {
    if s != [] {
      var init, last := s[..|s| - 1], s[|s| - 1];
      assert s == init + [last];
      assert Distinct(init) by {
        forall i, j | 0 <= i < j < |init| ensures init[i] != init[j] {
          assert init[i] == s[i] && init[j] == s[j];
        }
      }
      DistinctMultiset(init);
      assert Elements(s) == Elements(init) + {last};
      assert last !in Elements(init) by {
        forall j | 0 <= j < |init| ensures init[j] != last {
          assert init[j] == s[j];
        }
      }
    }
  }
}
