/** The question-creation handler of src/app/api/admin/questions/route.ts
    (POST): a shape check, a range check, then an insert into the questions
    table, whose AUTOINCREMENT key supplies the new id. */
module AdminQuestions {
  import opened Wrappers
  import opened QuizTypes

  /** The three fields read from the parsed request body. A body that is
      not an object still yields this record, with the fields undefined. */
  datatype QuestionBody = QuestionBody(text: JsValue, options: JsValue, correctAnswer: JsValue)

  /** One row of the questions table, as the handler inserts it. */
  datatype Row = Row(id: int, text: JsValue, options: seq<JsValue>, correctAnswer: int)

  /** The questions table: its rows in insertion order, and the id the
      AUTOINCREMENT key hands out next, above every id ever used. */
  datatype Table = Table(rows: seq<Row>, nextId: int)

  /** The JSON response: 200 with the created question, 400 with a
      validation error, or 500. */
  datatype Response =
    | Created(id: int, text: JsValue, options: seq<JsValue>, correctAnswer: int)
    | BadRequest(error: string)
    | ServerError(error: string)

  function Status(r: Response): int {
    match r
    case Created(_, _, _, _) => 200
    case BadRequest(_) => 400
    case ServerError(_) => 500
  }

  /** JavaScript truthiness. */
  predicate Truthy(v: JsValue) {
    match v
    case Undefined => false
    case Null => false
    case Bool(b) => b
    case Num(n) => n != 0
    case Str(s) => s != ""
    case Arr(_) => true
    case Obj(_) => true
  }

  /** The first check: a truthy text, an array of exactly four options and
      a numeric answer. */
  predicate ShapeOk(body: QuestionBody) {
    Truthy(body.text) && body.options.Arr? && |body.options.items| == 4 && body.correctAnswer.Num?
  }

  /** The second check, on a numeric answer. */
  predicate InRange(answer: int) {
    0 <= answer <= 3
  }

  const InvalidData := "Invalid question data"
  const OutOfRange := "Correct answer must be between 0 and 3"
  const AddFailed := "Failed to add question"

  /** The ids of the rows. */
  function Ids(table: Table): set<int> {
    set r | r in table.rows :: r.id
  }

  /** What the table's schema guarantees: distinct ids below the next one,
      four options per row and an answer the CHECK constraint accepts. */
  predicate TableValid(table: Table) {
    && (forall i, j :: 0 <= i < j < |table.rows| ==> table.rows[i].id != table.rows[j].id)
    && (forall i :: 0 <= i < |table.rows| ==> table.rows[i].id < table.nextId)
    && (forall i :: 0 <= i < |table.rows| ==>
          |table.rows[i].options| == 4 && InRange(table.rows[i].correctAnswer))
  }

  /** addQuestion: the row goes in under the next id, which no row of a
      valid table has; the rows already there are untouched, and a row the
      schema accepts keeps the table valid. */
  function Insert(table: Table, text: JsValue, options: seq<JsValue>, correctAnswer: int): (r: (Row, Table))
    ensures TableValid(table) ==> r.0.id !in Ids(table)
    ensures |r.1.rows| == |table.rows| + 1 && r.1.rows[..|table.rows|] == table.rows
    ensures r.1.rows[|table.rows|] == r.0
    ensures TableValid(table) && |options| == 4 && InRange(correctAnswer) ==> TableValid(r.1)
  {
    var row := Row(table.nextId, text, options, correctAnswer);
    var next := Table(table.rows + [row], table.nextId + 1);
    assert next.rows[..|table.rows|] == table.rows;
    (row, next)
  }

  /** POST. `None` is a body whose parsing or destructuring throws (invalid
      JSON, or a null body), which the handler answers with a 500. */
  function Post(table: Table, body: Option<QuestionBody>): (r: (Response, Table))
    ensures |r.1.rows| == |table.rows| + (if r.0.Created? then 1 else 0)
    ensures r.1.rows[..|table.rows|] == table.rows
  {
    match body
    case None => (ServerError(AddFailed), table)
    case Some(b) =>
      if !ShapeOk(b) then (BadRequest(InvalidData), table)
      else if b.correctAnswer.n < 0 || b.correctAnswer.n > 3 then (BadRequest(OutOfRange), table)
      else
        var (row, next) := Insert(table, b.text, b.options.items, b.correctAnswer.n);
        (Created(row.id, b.text, b.options.items, b.correctAnswer.n), next)
  }

  // ---------------------------------------------------------------------
  // Properties
  // ---------------------------------------------------------------------

  /** The shape error is reported exactly when the shape check fails,
      whatever the answer's value: it takes precedence over the range error. */
  lemma ShapeErrorFirst(table: Table, body: QuestionBody)
    ensures Post(table, Some(body)).0 == BadRequest(InvalidData) <==> !ShapeOk(body)
    ensures !ShapeOk(body) ==> Status(Post(table, Some(body)).0) == 400
  {
  }

  /** The range error is reported exactly for a well-shaped body whose
      answer lies outside 0..3. */
  lemma RangeErrorSecond(table: Table, body: QuestionBody)
    ensures Post(table, Some(body)).0 == BadRequest(OutOfRange) <==>
            ShapeOk(body) && !InRange(body.correctAnswer.n)
  {
  }

  /** A question is created exactly when both checks pass. */
  lemma CreatedIffValid(table: Table, body: Option<QuestionBody>)
    ensures Post(table, body).0.Created? <==> body.Some? && ShapeOk(body.value) && InRange(body.value.correctAnswer.n)
  {
  }

  /** A rejected request leaves the table as it was. */
  lemma RejectedInsertsNothing(table: Table, body: Option<QuestionBody>)
    ensures !Post(table, body).0.Created? ==> Post(table, body).1 == table
  {
  }

  /** An accepted request appends one row under a fresh id and echoes the
      text, options and answer it was given, the answer within 0..3. */
  lemma AcceptedEchoes(table: Table, body: QuestionBody)
    requires TableValid(table)
    requires Post(table, Some(body)).0.Created?
    ensures var r := Post(table, Some(body)).0;
            && r.text == body.text
            && body.options == Arr(r.options)
            && body.correctAnswer == Num(r.correctAnswer)
            && InRange(r.correctAnswer)
            && r.id !in Ids(table)
            && Post(table, Some(body)).1.rows == table.rows + [Row(r.id, r.text, r.options, r.correctAnswer)]
  {
    var r := Post(table, Some(body)).0;
    assert forall x :: x in Ids(table) ==> x < table.nextId;
  }

  /** Every POST keeps the table valid, so the rows always satisfy the
      schema's CHECK constraint. */
  lemma PostPreservesValid(table: Table, body: Option<QuestionBody>)
    requires TableValid(table)
    ensures TableValid(Post(table, body).1)
  {
    if Post(table, body).0.Created? {
      var rows := Post(table, body).1.rows;
      assert rows == table.rows + [rows[|rows| - 1]];
    }
  }

  /** The table after a series of requests, and the responses given. */
  function PostAll(table: Table, bodies: seq<Option<QuestionBody>>): (Table, seq<Response>)
    decreases |bodies|
  {
    if bodies == [] then (table, [])
    else
      var (response, next) := Post(table, bodies[0]);
      var (last, responses) := PostAll(next, bodies[1..]);
      (last, [response] + responses)
  }

  /** Over any series of requests the table stays valid, so no two created
      questions share an id. */
  lemma {:induction false} PostAllPreservesValid(table: Table, bodies: seq<Option<QuestionBody>>)
    requires TableValid(table)
    ensures TableValid(PostAll(table, bodies).0)
    ensures |PostAll(table, bodies).1| == |bodies|
    decreases |bodies|
  {
    if bodies != [] {
      PostPreservesValid(table, bodies[0]);
      PostAllPreservesValid(Post(table, bodies[0]).1, bodies[1..]);
    }
  }

  /** The rows read back as stored questions, where every text and option
      is a string. */
  predicate TextRows(table: Table) {
    forall i :: 0 <= i < |table.rows| ==>
      table.rows[i].text.Str? && forall k :: 0 <= k < |table.rows[i].options| ==> table.rows[i].options[k].Str?
  }

  function AsQuestion(row: Row): Question
    requires row.text.Str? && forall k :: 0 <= k < |row.options| ==> row.options[k].Str?
  {
    Question(row.id, row.text.s, seq(|row.options|, k requires 0 <= k < |row.options| => row.options[k].s),
             row.correctAnswer)
  }

  function AsQuestions(table: Table): seq<Question>
    requires TextRows(table)
  {
    seq(|table.rows|, i requires 0 <= i < |table.rows| => AsQuestion(table.rows[i]))
  }

  /** A valid table is a question store of the kind scoring relies on. */
  lemma ValidTableIsStore(table: Table)
    requires TableValid(table) && TextRows(table)
    ensures StoreValid(AsQuestions(table))
  {
    var qs := AsQuestions(table);
    assert forall i :: 0 <= i < |qs| ==> qs[i].id == table.rows[i].id;
    var ids := QuestionIds(qs);
    forall i, j | 0 <= i < j < |ids| ensures ids[i] != ids[j] {
      assert ids[i] == table.rows[i].id && ids[j] == table.rows[j].id;
    }
  }
}
