# Online quiz: scoring, validation, quiz state and question creation

A Dafny model of the logic at the centre of the Online-Quiz-Application, a
Next.js multiple-choice quiz with a SQLite question store:

- **Scoring** (`src/lib/scoring.ts`): `calculateScore` grades each submitted
  answer against the stored question with that id, counts the correct ones
  and rounds a percentage; `validateSubmission` checks the answer count,
  each answer's id and option, and repeated ids, and returns the error
  strings in order. Both are loops in the source, so both are methods
  (`Scoring.CalculateScore`, `Scoring.ValidateSubmission`) proved equal to
  specification functions (`Scoring.Score`, `Scoring.Errors`), about which
  the lemmas are stated. The stored questions are a parameter.
- **Quiz state** (`src/contexts/QuizContext.tsx`): the reducer as a pure
  `Step(state, action)` with `Run` over action sequences, the answer list
  `submitQuiz` posts, `getAnsweredQuestionsCount`, `getCurrentQuestion`,
  `isCurrentQuestionAnswered` and `formatTime`. The timer and auto-submit
  effects appear only as their guard predicates.
- **Question creation** (`src/app/api/admin/questions/route.ts`, `POST`):
  the shape check, the range check and the insert. The table is a value
  whose next AUTOINCREMENT id is the fresh id.

Modules: `Wrappers` (Option, Result), `QuizTypes` (the records of
`src/types/quiz.ts`, JSON values, the store invariant), `Js` (the number and
string operations of JavaScript that the messages and the timer display
use), `Scoring`, `QuizContext`, `AdminQuestions`.

Values that arrive in a request body are modelled by `JsValue`: a field that
`typeof` calls a number is `Num`, and everything else stays distinguishable,
so the "must be a number" errors are modelled. A missing or non-array
`answers` field is `None`.

## Model

| member | source | states |
|---|---|---|
| Scoring.QuestionMap | src/lib/scoring.ts:6 | the map's keys are exactly the stored ids, and each key maps to a stored question carrying that id |
| Scoring.Lookup | src/lib/scoring.ts:10 | a question is found exactly when the submitted id is a number that is a stored id, and what is found is a stored question with that id |
| Scoring.LookupFindsStored | src/lib/scoring.ts:6-10 | with distinct stored ids, looking up a stored question's id yields that very question |
| Scoring.ScoreErrorMessage | src/lib/scoring.ts:12 | the thrown text starts "Question with id " and ends " not found", and for a non-negative numeric id the digits between them read back as that id |
| Scoring.Score | src/lib/scoring.ts:4-39 | calculateScore's outcome: success exactly when every submitted id is a stored id, and then one graded entry per answer, a score no larger than the number of answers and the number of stored questions as the total |
| Scoring.CalculateScore | src/lib/scoring.ts:4-39 | the loop computes exactly Score: the graded entries in order, or the error for the first unknown id, with the score counting the correct entries |
| Scoring.GradeAllPrefixFailure | src/lib/scoring.ts:9-13 | once a prefix of the answers throws, the whole map throws the same error |
| Scoring.GradeAllSucceeds | src/lib/scoring.ts:9-28 | grading succeeds iff every submitted id is known, and then yields one entry per answer, each graded against its looked-up question |
| Scoring.GradeAllFailsAtFirstUnknown | src/lib/scoring.ts:10-13 | grading fails with the first unknown id when all earlier ids are known |
| Scoring.CountCorrectCounts | src/lib/scoring.ts:15-18 | the score equals the number of entries marked correct |
| Scoring.ScoreSuccess | src/lib/scoring.ts:9-31 | with a valid store and known ids: success; one entry per answer in submission order copying questionId and selectedOption and taking text, options and correct option from the stored question with that id; correct iff selectedOption equals the correct answer; totalQuestions is the number of stored questions |
| Scoring.ScoreFailure | src/lib/scoring.ts:10-13 | the first unknown id makes calculateScore fail with that id and no result |
| Scoring.RoundedPercentage | src/lib/scoring.ts:31 | a percentage exists iff there is at least one stored question, and it is 100·score/total rounded half up (the bracketing inequality) |
| Scoring.PercentageInRange | src/lib/scoring.ts:30-31 | a score no larger than the total gives a percentage in 0..100 |
| Scoring.PercentageExamples | src/lib/scoring.ts:31 | 1/3 gives 33, 3/5 gives 60, 5/5 gives 100, 0/5 gives 0 |
| Scoring.SubmittedIds | src/lib/scoring.ts:73-75 | the submitted ids, one per answer, in order; they repeat no id exactly when their Set is as large as the list, which is the duplicate test |
| Scoring.Message | src/lib/scoring.ts:45-76 | the seven error strings; an error about one answer reads "Answer ", its position in digits, then a colon |
| Scoring.MessagesTellPositionsApart | src/lib/scoring.ts:60-68 | messages about answers at different positions are different strings |
| Scoring.Errors | src/lib/scoring.ts:41-80 | the errors in reported order; a missing or non-array answers field gives the format error alone, the format error appears for nothing else, and an empty list needs one answer per stored question |
| Scoring.CheckQuestionId | src/lib/scoring.ts:59-63 | appends the id error of one answer (not a number, else unknown) and its message |
| Scoring.CheckSelectedOption | src/lib/scoring.ts:65-69 | appends the option error of one answer (not a number, else out of 0..3) and its message |
| Scoring.CheckAnswers | src/lib/scoring.ts:58-70 | the `forEach` over the answers appends exactly AnswerErrors of the whole array, in index order, with their messages |
| Scoring.CheckDuplicates | src/lib/scoring.ts:72-77 | the duplicate error is appended exactly when the submitted ids are not pairwise distinct, with its message |
| Scoring.ValidateSubmission | src/lib/scoring.ts:41-80 | the returned strings are exactly the messages of Errors, in order |
| Scoring.NotAnArray | src/lib/scoring.ts:44-47 | a missing or non-array answers field gives exactly the one format error and nothing else |
| Scoring.AnswerErrorsRanked | src/lib/scoring.ts:58-70 | per-answer errors carry positions 1..n and come in index order, the id error before the option error |
| Scoring.ErrorsOrdered | src/lib/scoring.ts:53-77 | the errors come in the order count error, per-answer errors by index, duplicate error, with no rank repeated |
| Scoring.AtMostOneErrorOfEachKind | src/lib/scoring.ts:58-70 | two errors for the same answer are one id error followed by one option error |
| Scoring.AnswerErrorsEmpty | src/lib/scoring.ts:58-70 | no per-answer error iff every id is a known number and every option a number in 0..3 |
| Scoring.ErrorsEmptyIff | src/lib/scoring.ts:44-77 | no error iff answers is an array whose length is the stored count, whose ids are all stored ids, whose options are all in 0..3 and whose ids do not repeat |
| Scoring.AnswerErrorsJustified | src/lib/scoring.ts:58-70 | every per-answer error names a position whose answer has that fault |
| Scoring.ErrorsSound | src/lib/scoring.ts:53-77 | every reported error has its cause in the submission |
| Scoring.ErrorsComplete | src/lib/scoring.ts:53-77 | for each answer position, every fault of that answer is reported, as are a count mismatch and a repeated id |
| Scoring.ErrorsReportCountAndDuplicates | src/lib/scoring.ts:53-77 | for any answer list, an empty one included: a count that differs from the number of stored questions is the first error, a repeated id makes the duplicate error the last one, and a matching count gives no count error |
| Scoring.CountCorrectAtMost | src/lib/scoring.ts:15-18 | the score is at most the number of graded entries |
| Scoring.GradedOptionsInRange | src/lib/scoring.ts:24 | with a valid store every graded correctOption is in 0..3 |
| Scoring.ValidSubmissionScores | src/lib/scoring.ts:10-31 | a submission with no validation error is scored without failure, its ids are a permutation of the stored ids, the score is at most totalQuestions, the percentage is in 0..100 and every correctOption is in 0..3 |
| Scoring.SubmittedIdsPermuteStored | src/lib/scoring.ts:53-77 | a well-formed submission names every stored question exactly once |
| QuizTypes.DistinctIffNoShrink | src/lib/scoring.ts:73-75 | the Set of the ids is as large as the list exactly when no id repeats, which is what the duplicate test relies on |
| QuizTypes.SanitizeAll | src/lib/database.ts:153-173 | the questions in order without their answer keys; the ids come out in the stored order, and a valid store gives distinct ids |
| Js.NatToString | src/lib/scoring.ts:54 | the decimal digits of a number, non-empty, one digit exactly below 10, no leading zero |
| Js.NatToStringRoundTrip | src/lib/scoring.ts:54 | reading the digits back gives the number |
| Js.IntToString | src/lib/scoring.ts:62 | the digits of the magnitude, after a minus sign for a negative number |
| Js.ToJsString | src/lib/scoring.ts:12 | String(value) as a template literal renders it: a string as itself, a number as its digits (after "-" when negative), which read back as the number |
| Js.PadStart | src/contexts/QuizContext.tsx:223 | the string, left-filled to the width, unchanged when already that long |
| Js.Remainder | src/contexts/QuizContext.tsx:222 | the remainder of truncating division, with the sign of the dividend |
| QuizContext.Step | src/contexts/QuizContext.tsx:28-99 | quizReducer: from an index in range every action leaves it in range, only LOAD_QUESTIONS replaces the questions, and only SET_TIMER can make a non-negative timer negative |
| QuizContext.TickTimerSaturates | src/contexts/QuizContext.tsx:72-76 | a tick never leaves the timer negative, takes one second off while positive, stays at 0 at 0, and changes nothing else |
| QuizContext.NextQuestionClamps | src/contexts/QuizContext.tsx:48-55 | from a valid index, next stays in range, advances by one, and at the last question changes nothing |
| QuizContext.PreviousQuestionClamps | src/contexts/QuizContext.tsx:57-61 | from a valid index, previous stays in range, goes back by one, and at index 0 changes nothing |
| QuizContext.GoToQuestionClamps | src/contexts/QuizContext.tsx:63-70 | for any payload the index lands in range: on the payload when valid, else on the nearer end |
| QuizContext.NextQuestionOnEmpty | src/contexts/QuizContext.tsx:48-55 | with no questions, next sets the index to -1 and no question is current |
| QuizContext.SetAnswerUpdatesOneKey | src/contexts/QuizContext.tsx:39-46 | the answer is recorded under its id, every other entry and field is unchanged, and repeating the action changes nothing |
| QuizContext.LoadQuestionsStartsOver | src/contexts/QuizContext.tsx:30-37 | the questions are replaced, the index is 0, the answers are cleared, the flag is cleared and the timer is untouched |
| QuizContext.ResetQuizKeepsQuestions | src/contexts/QuizContext.tsx:90-94 | index 0, no answers, 600 seconds, not submitted, questions kept |
| QuizContext.SubmitQuizIdempotent | src/contexts/QuizContext.tsx:84-88 | submit sets the flag, changes nothing else, and a second submit changes nothing |
| QuizContext.SetTimerExact | src/contexts/QuizContext.tsx:78-82 | the timer is set to exactly the payload and nothing else changes |
| QuizContext.UnrecognizedIgnored | src/contexts/QuizContext.tsx:96-97 | an action of another type leaves the state as it is |
| QuizContext.InitialState | src/contexts/QuizContext.tsx:19-25 | initialState satisfies the state invariant, has nothing answered and no current question, a full 600-second timer and is not submitted |
| QuizContext.StepPreservesValid | src/contexts/QuizContext.tsx:28-99 | every action a view can dispatch keeps the index in range, the timer non-negative and the recorded options in 0..3 |
| QuizContext.RunPreservesValid | src/contexts/QuizContext.tsx:28-99 | the invariant holds after any sequence of dispatchable actions |
| QuizContext.RunKeepsQuestions | src/contexts/QuizContext.tsx:28-99 | only loading changes the questions |
| QuizContext.ResetForgetsHistory | src/contexts/QuizContext.tsx:90-94 | resetting after any actions without a load gives the same state as resetting right away |
| QuizContext.RunTicks | src/contexts/QuizContext.tsx:72-76 | k ticks take k seconds off the timer, stopping at zero, and change nothing else |
| QuizContext.TimerRunning | src/contexts/QuizContext.tsx:154-163 | the timer effect's guard: while it holds a tick takes exactly one second off and leaves the timer non-negative |
| QuizContext.ShouldAutoSubmit | src/contexts/QuizContext.tsx:165-169 | the auto-submit effect's guard: it never holds while the timer runs, and a tick then changes nothing |
| QuizContext.CountdownEndsInAutoSubmit | src/contexts/QuizContext.tsx:154-169 | once the countdown runs it keeps running for exactly timeRemaining ticks, after which the auto-submit guard holds |
| QuizContext.BuildAnswers | src/contexts/QuizContext.tsx:126-129 | one answer per loaded question in question order, with the recorded option or 0; every option passes the 0..3 check when the recorded ones are option indexes, and the ids repeat nothing when the loaded ids are distinct |
| QuizContext.CurrentQuestion | src/contexts/QuizContext.tsx:207-209 | the question at the index when the index is valid, else none; under the reducer's index invariant a question is current exactly when questions are loaded |
| QuizContext.AnsweredCount | src/contexts/QuizContext.tsx:211-213 | getAnsweredQuestionsCount: the number of answer keys, zero exactly when nothing is recorded |
| QuizContext.IsCurrentQuestionAnswered | src/contexts/QuizContext.tsx:215-218 | true exactly when the index names a loaded question whose id has a recorded option, and then the answered count is positive |
| QuizContext.SetAnswerCount | src/contexts/QuizContext.tsx:211-213 | answering adds one to the answered count for a new id and nothing for a repeated one |
| QuizContext.SetAnswerMarksCurrent | src/contexts/QuizContext.tsx:215-218 | answering the current question keeps it current and marks it answered |
| QuizContext.AnsweredCountAtMost | src/contexts/QuizContext.tsx:211-213 | when every answer is for a loaded question the count is at most the number of questions |
| QuizContext.SubmissionIsValid | src/contexts/QuizContext.tsx:126-129 | what a quiz loaded from a valid store submits passes validateSubmission, is scored without failure out of the stored count, and scores the questions whose recorded option (or 0) is correct |
| QuizContext.FormatTime | src/contexts/QuizContext.tsx:220-224 | for 0 to 5999 seconds, five characters MM:SS: the minutes in two digits, a colon, the seconds within the minute in two digits |
| QuizContext.FormatTimeRoundTrip | src/contexts/QuizContext.tsx:220-224 | for 0 to 5999 seconds, parsing the MM:SS text back gives the seconds |
| QuizContext.FormatTimeFullTimer | src/contexts/QuizContext.tsx:220-224 | 600 gives "10:00" |
| QuizContext.FormatTimeLastMinute | src/contexts/QuizContext.tsx:220-224 | 59 gives "00:59" |
| AdminQuestions.Insert | src/lib/db-manager.ts:13-29 | addQuestion: the new row's id is not among the ids of a valid table, the existing rows are untouched, the row is appended last, and a row with four options and an answer in 0..3 keeps the table valid |
| AdminQuestions.Post | src/app/api/admin/questions/route.ts:19-55 | POST only ever appends: the existing rows are untouched, and the table grows by one row exactly when a question is created |
| AdminQuestions.ShapeErrorFirst | src/app/api/admin/questions/route.ts:25-30 | "Invalid question data" with status 400 exactly when the text is falsy, the options are not an array of four or the answer is not a number, whatever the answer's value |
| AdminQuestions.RangeErrorSecond | src/app/api/admin/questions/route.ts:33-38 | "Correct answer must be between 0 and 3" exactly for a well-shaped body whose answer is outside 0..3 |
| AdminQuestions.CreatedIffValid | src/app/api/admin/questions/route.ts:21-47 | a question is created exactly when the body parses and passes both checks |
| AdminQuestions.RejectedInsertsNothing | src/app/api/admin/questions/route.ts:25-46 | a rejected request leaves the table unchanged |
| AdminQuestions.AcceptedEchoes | src/app/api/admin/questions/route.ts:40-47 | an accepted request appends one row under a fresh id and echoes text, options and answer unchanged, the answer in 0..3 |
| AdminQuestions.PostPreservesValid | src/app/api/admin/questions/route.ts:33-46 | every request keeps ids distinct and below the next id, four options per row and every answer in 0..3 |
| AdminQuestions.PostAllPreservesValid | src/app/api/admin/questions/route.ts:21-47 | over any series of requests the table stays valid and one response is given per request |
| AdminQuestions.ValidTableIsStore | src/lib/database.ts:26-35 | a valid table with string texts and options is a store of the kind scoring assumes |

## Left out

- The SQLite store (`src/lib/database.ts`, `src/lib/db-manager.ts`):
  `getQuestionsWithAnswers` is a parameter; the guarantees of its schema
  (primary-key ids, four option columns, the CHECK on the answer) are the
  predicate `QuizTypes.StoreValid`, assumed where a property needs them.
  The insert is a function on a table value that always succeeds. The ways
  better-sqlite3 and the schema can refuse a row that passed both checks
  are not modelled: a null option (the option columns are NOT NULL), and a
  boolean, object or array as the text or an option (the driver cannot bind
  them). A numeric text or option is accepted and stored as text, as the
  model's always-successful insert has it.
- Numbers are integers. Fractions (1.5 passes the range checks), NaN,
  the infinities and -0 are not modelled.
- Scoring.RoundedPercentage: `Math.round((score / total) * 100)` on floats
  is replaced by the exact half-up rounding of 100·score/total; the two
  can differ where rounding of the float product crosses a half. The NaN of
  a score out of zero questions is `None`.
- Arrays and objects used as ids: JavaScript's `Set` and `Map` compare them
  by reference; the model compares arrays structurally and objects by a
  reference token.
- An `answers` element that is `null` makes the source throw a TypeError
  when it reads `answer.questionId`; that path is not modelled. Any other
  element that is not an object (a number, string, boolean or array) reads
  both fields as undefined, which the model covers as
  `UserAnswer(Undefined, Undefined)`.
- A `null` submission makes validateSubmission throw when it reads
  `submission.answers` (src/lib/scoring.ts:44); the model's input starts at
  the `answers` field, so that path is not modelled.
- Object keys of `answers` in the browser state are strings in JavaScript;
  they are integers here.
- `fetch` in `submitQuiz` and `loadQuestions`, the HTTP responses of the
  quiz routes, the admin GET handler and the per-id and stats routes: not
  part of this model. Of `submitQuiz` only the answer list is modelled.
- The `setInterval` countdown and the auto-submit effect are scheduling;
  they appear as the predicates `TimerRunning` and `ShouldAutoSubmit`.
- Parsing the request body: invalid JSON and a null body (whose
  destructuring throws) are the single `None` case answered with a 500.
- React views, layout, components and the CLI scripts are not part of
  this model.
- QuizContext.FormatTime: its contract, and QuizContext.FormatTimeRoundTrip,
  are stated for 0 to 5999 seconds only; `FormatTime` itself follows the
  source on every integer, including negative ones and 100 minutes or more.
