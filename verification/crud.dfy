/**
 Saving a questionnaire (db_control/crud.py `save_answers`): after checking
 the reception and every question, each answer becomes one `answer_info` row
 whose value sits in the column of its question's answer type.
 */
module Crud {

  import opened Wrappers
  import opened Schemas

  /** A row of `answer_info`; exactly the column of the question's type is set. */
  datatype AnswerInfo = AnswerInfo(
    receptionId: int,
    questionId: int,
    numeric: Option<Value>,
    boolean: Option<Value>,
    categorical: Option<Value>)

  /** The request body: the reception the answers belong to and the answers. */
  datatype AnswerRequest = AnswerRequest(receptionId: int, answers: seq<Answer>)

  /** The two shapes of the returned dict: `{"error": ...}` or `{"message": ...}`. */
  datatype Response = Error(error: string) | Message(message: string)

  /** The column of a row that stores answers to questions of type `t`. */
  function Column(row: AnswerInfo, t: AnswerType): Option<Value> {
    match t
    case Numeric => row.numeric
    case Boolean => row.boolean
    case Categorical => row.categorical
  }

  /** The answer a row holds: its question and the value of its single filled column. */
  function Recovered(row: AnswerInfo): Option<Answer> {
    match (row.numeric, row.boolean, row.categorical)
    case (Some(v), None, None) => Some(Answer(row.questionId, v))
    case (None, Some(v), None) => Some(Answer(row.questionId, v))
    case (None, None, Some(v)) => Some(Answer(row.questionId, v))
    case _ => None
  }

  /**
   The row built for one answer to a question of type `t`: the value goes to
   that type's column and nowhere else, so the row gives the answer back.
   */
  function Stored(receptionId: int, a: Answer, t: AnswerType): (row: AnswerInfo)
    ensures row.receptionId == receptionId && row.questionId == a.questionId
    ensures Column(row, t) == Some(a.value)
    ensures forall u :: u != t ==> Column(row, u) == None
    ensures Recovered(row) == Some(a)
  {
    AnswerInfo(receptionId, a.questionId,
      if t == Numeric then Some(a.value) else None,
      if t == Boolean then Some(a.value) else None,
      if t == Categorical then Some(a.value) else None)
  }

  /** Answer `i` is the first whose question does not exist. */
  ghost predicate FirstUnknownAt(answers: seq<Answer>, questions: map<int, AnswerType>, i: int) {
    && 0 <= i < |answers|
    && answers[i].questionId !in questions
    && forall j :: 0 <= j < i ==> answers[j].questionId in questions
  }

  /** The id of the first answer's question that does not exist, if any. */
  function FirstUnknown(answers: seq<Answer>, questions: map<int, AnswerType>): (q: Option<int>)
    ensures q.None? <==> forall i :: 0 <= i < |answers| ==> answers[i].questionId in questions
    ensures q.Some? ==> exists i :: FirstUnknownAt(answers, questions, i) && answers[i].questionId == q.value
  {
    if |answers| == 0 then None
    else if answers[0].questionId !in questions then
      assert FirstUnknownAt(answers, questions, 0);
      Some(answers[0].questionId)
    else
      var rest := FirstUnknown(answers[1..], questions);
      assert forall i :: 1 <= i < |answers| ==> answers[i] == answers[1..][i - 1];
      if rest.Some? then
        FirstUnknownShift(answers, questions, rest.value);
        rest
      else rest
  }

  /** A first unknown question of the tail is the first of the whole list when the head is known. */
  lemma FirstUnknownShift(answers: seq<Answer>, questions: map<int, AnswerType>, q: int)
    requires |answers| > 0 && answers[0].questionId in questions
    requires exists k :: FirstUnknownAt(answers[1..], questions, k) && answers[1..][k].questionId == q
    ensures exists i :: FirstUnknownAt(answers, questions, i) && answers[i].questionId == q
  {
    var k :| FirstUnknownAt(answers[1..], questions, k) && answers[1..][k].questionId == q;
    assert forall j :: 1 <= j < |answers| ==> answers[j] == answers[1..][j - 1];
    assert FirstUnknownAt(answers, questions, k + 1);
  }

  /**
   `save_answers`: an unknown reception or the first unknown question ends
   the request with an error and nothing saved; otherwise one row per answer,
   in order, is appended and committed. `receptions` and `questions` are the
   ids of the `reception` table and the `question` table's answer types.
   */
  method SaveAnswers(receptions: set<int>, questions: map<int, AnswerType>, table: seq<AnswerInfo>,
                     request: AnswerRequest)
    returns (response: Response, table': seq<AnswerInfo>)
    ensures request.receptionId !in receptions ==> response == Error("Invalid reception ID")
    ensures request.receptionId in receptions && FirstUnknown(request.answers, questions).Some? ==>
      response == Error("Invalid question ID: " + IntToString(FirstUnknown(request.answers, questions).value))
    ensures response.Message? <==>
      request.receptionId in receptions && FirstUnknown(request.answers, questions).None?
    ensures response.Message? ==> response.message == "Answers saved successfully"
    ensures response.Error? ==> table' == table
    ensures response.Message? ==>
      && |table'| == |table| + |request.answers|
      && table'[..|table|] == table
      && forall i :: 0 <= i < |request.answers| ==>
           && request.answers[i].questionId in questions
           && table'[|table| + i] == Stored(request.receptionId, request.answers[i], questions[request.answers[i].questionId])
  {
    if request.receptionId !in receptions {
      return Error("Invalid reception ID"), table;
    }
    var answers := request.answers;
    var pending: seq<AnswerInfo> := [];
    var i := 0;
    while i < |answers|
      invariant 0 <= i <= |answers|
      invariant FirstUnknown(answers, questions) == FirstUnknown(answers[i..], questions)
      invariant forall j :: 0 <= j < i ==> answers[j].questionId in questions
      invariant |pending| == i
      invariant forall j :: 0 <= j < i ==>
        pending[j] == Stored(request.receptionId, answers[j], questions[answers[j].questionId])
    {
      var a := answers[i];
      if a.questionId !in questions {
        return Error("Invalid question ID: " + IntToString(a.questionId)), table;
      }
      assert answers[i..][1..] == answers[i + 1..];
      pending := pending + [Stored(request.receptionId, a, questions[a.questionId])];
      i := i + 1;
    }
    assert answers[i..] == [];
    response, table' := Message("Answers saved successfully"), table + pending;
    assert table'[..|table|] == table;
  }
}
