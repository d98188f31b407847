/** The HTTP handlers' decisions: each builds a record around a supplied id, validates it
    when it is to be stored, calls the store, and maps the result to a status code and a
    JSON body. Routing, body parsing and id generation are outside this module. */
module Handlers {
  import opened Records
  import opened Schemas
  import opened Repository

  /** The JSON body of a response. */
  datatype Body =
    | Message(text: string)
    | QuestionList(questions: seq<Question>)
    | QuestionJson(question: Question)
    | AnswerList(answers: seq<Answer>)
    | AnswerJson(answer: Answer)
    | JsonNull   // `res.json(null)`
    | NoBody     // `res.json()`: an empty body

  /** A status with a body, or no response at all: when the store throws, the handler's
      promise is rejected and, under Express 4, nothing is sent to the client. */
  datatype Response = Respond(status: nat, body: Body) | Unanswered

  const NoDataFound := "No data found."
  const QuestionInvalid := "The provided question is invalid."
  const AnswerInvalid := "The provided answer is invalid"

  /** The request body keys the handlers read. */
  datatype RequestBody = RequestBody(author: Field, summary: Field, answers: Option<seq<Answer>>)

  /** The question `addQuestion` builds: the fresh id plus three keys of the body. */
  function NewQuestion(id: string, body: RequestBody): Question {
    Question(Str(id), body.author, body.summary, body.answers, [])
  }

  /** The answer `addAnswer` builds: the fresh id plus two keys of the body. */
  function NewAnswer(id: string, body: RequestBody): Answer {
    Answer(Str(id), body.author, body.summary, [])
  }

  /** Every stored question has the question shape (and so every stored answer the
      answer shape). */
  ghost predicate AllValid(d: Doc, isUuid: string -> bool) {
    forall i :: 0 <= i < |Loaded(d)| ==> ValidQuestion(Loaded(d)[i], isUuid)
  }

  /** Storing only validated questions keeps every stored record valid. */
  lemma AddQuestionKeepsValid(d: Doc, question: Question, isUuid: string -> bool)
    requires AllValid(d, isUuid) && ValidQuestion(question, isUuid)
    ensures AllValid(AddQuestionTo(d, question).doc, isUuid)
  {
  }

  /** Appending only validated answers keeps every stored record valid. */
  lemma AddAnswerKeepsValid(d: Doc, questionId: string, answer: Answer, isUuid: string -> bool)
    requires AllValid(d, isUuid) && ValidAnswer(answer, isUuid)
    ensures AllValid(AddAnswerTo(d, questionId, answer).doc, isUuid)
  {
    var s := AddAnswerTo(d, questionId, answer);
    if s.out.Value? {
      var i :| FirstQuestion(d.qs, questionId, i);
      var qs, qs' := d.qs, s.doc.qs;
      assert qs' == AppendAnswer(qs, i, answer);
      var answers := qs'[i].answers.value;
      assert answers == qs[i].answers.value + [answer];
      assert Loaded(d)[i] == qs[i];
      forall k | 0 <= k < |answers|
        ensures ValidAnswer(answers[k], isUuid)
      {
        if k < |qs[i].answers.value| {
          assert answers[k] == qs[i].answers.value[k];
        }
      }
      forall j | 0 <= j < |qs'|
        ensures ValidQuestion(qs'[j], isUuid)
      {
        if j != i {
          assert qs'[j] == qs[j];
        }
      }
    }
  }

  /** The question shape says nothing about how the nested answers relate to each
      other: a request whose two answers share a summary passes validation. */
  lemma ValidationAdmitsDuplicateAnswers(id: string, body: RequestBody, isUuid: string -> bool)
    requires isUuid(id) && id != ""
    requires NonEmptyString(body.author) && NonEmptyString(body.summary)
    requires body.answers.Some? && |body.answers.value| == 2
    requires ValidAnswer(body.answers.value[0], isUuid) && ValidAnswer(body.answers.value[1], isUuid)
    requires body.answers.value[0].summary == body.answers.value[1].summary
    ensures ValidQuestion(NewQuestion(id, body), isUuid)
    ensures !DistinctAnswerSummaries(NewQuestion(id, body))
  {
  }

  /** GET /questions: 404 only when the store returns null (empty content); a stored `[]`
      is truthy and answers 200. */
  method GetQuestions(repo: QuestionRepository) returns (resp: Response)
    ensures repo.doc.Empty? <==> resp == Respond(404, Message(NoDataFound))
    ensures repo.doc.Questions? ==> resp == Respond(200, QuestionList(repo.doc.qs))
  {
    var questions := repo.GetQuestions();
    if questions.Value? {   // every array is truthy, `[]` included
      resp := Respond(200, QuestionList(questions.value));
    } else {
      resp := Respond(404, Message(NoDataFound));
    }
  }

  /** GET /questions/:questionId: 200 with the first question that has the id, 404 on null
      or `undefined`. */
  method GetQuestionById(repo: QuestionRepository, questionId: string) returns (resp: Response)
    ensures forall i :: repo.doc.Questions? && FirstQuestion(repo.doc.qs, questionId, i) ==>
              resp == Respond(200, QuestionJson(repo.doc.qs[i]))
    ensures (repo.doc.Empty? || forall j :: 0 <= j < |repo.doc.qs| ==> !repo.doc.qs[j].HasId(questionId)) ==>
              resp == Respond(404, Message(NoDataFound))
  {
    var question := repo.GetQuestionById(questionId);
    if question.Value? {
      resp := Respond(200, QuestionJson(question.value));
    } else {
      resp := Respond(404, Message(NoDataFound));
    }
  }

  /** POST /questions: an invalid record answers 400 and never reaches the store; a valid
      one is passed on and answered 201 with what the store returned, null included (a
      duplicate summary has no status of its own). */
  method AddQuestion(repo: QuestionRepository, id: string, body: RequestBody, isUuid: string -> bool)
    returns (resp: Response)
    modifies repo
    ensures var question := NewQuestion(id, body);
            !ValidQuestion(question, isUuid) ==>
              resp == Respond(400, Message(QuestionInvalid)) && repo.doc == old(repo.doc)
    ensures var question := NewQuestion(id, body);
            var s := AddQuestionTo(old(repo.doc), question);
            ValidQuestion(question, isUuid) ==>
              && repo.doc == s.doc
              && resp == Respond(201, if s.out.Value? then QuestionJson(question) else JsonNull)
    ensures AllValid(old(repo.doc), isUuid) ==> AllValid(repo.doc, isUuid)
    ensures Consistent(old(repo.doc)) && DistinctAnswerSummaries(NewQuestion(id, body)) ==> Consistent(repo.doc)
    ensures resp == Respond(201, QuestionJson(NewQuestion(id, body)))
            && (forall j :: 0 <= j < |Loaded(old(repo.doc))| ==> !Loaded(old(repo.doc))[j].HasId(id))
            ==> QuestionWithId(repo.doc, id) == Value(NewQuestion(id, body))
    ensures (DistinctIds(old(repo.doc)) && DistinctAnswerIds(NewQuestion(id, body))
             && forall j :: 0 <= j < |Loaded(old(repo.doc))| ==> !Loaded(old(repo.doc))[j].HasId(id))
            ==> DistinctIds(repo.doc)
  {
    var question := NewQuestion(id, body);
    var verdict := ValidateQuestion(question, isUuid);
    if verdict.Fail? {
      return Respond(400, Message(QuestionInvalid));
    }
    ghost var before := repo.doc;
    var q := repo.AddQuestion(question);
    if AllValid(before, isUuid) {
      AddQuestionKeepsValid(before, question, isUuid);
    }
    if Consistent(before) && DistinctAnswerSummaries(question) {
      AddQuestionKeepsConsistent(before, question);
    }
    if forall j :: 0 <= j < |Loaded(before)| ==> !Loaded(before)[j].HasId(id) {
      AddedQuestionIsFound(before, question, id);
      if DistinctIds(before) && DistinctAnswerIds(question) {
        AddQuestionKeepsIdsDistinct(before, question);
      }
    }
    resp := Respond(201, if q.Value? then QuestionJson(q.value) else JsonNull);
  }

  /** GET /questions/:questionId/answers: 200 with the answers (an empty array is truthy),
      404 when the store returns null or `undefined`. */
  method GetAnswersByQuestionId(repo: QuestionRepository, questionId: string) returns (resp: Response)
    ensures forall i :: repo.doc.Questions? && FirstQuestion(repo.doc.qs, questionId, i) && repo.doc.qs[i].answers.Some? ==>
              resp == Respond(200, AnswerList(repo.doc.qs[i].answers.value))
    ensures forall i :: repo.doc.Questions? && FirstQuestion(repo.doc.qs, questionId, i) && repo.doc.qs[i].answers.None? ==>
              resp == Respond(404, Message(NoDataFound))
    ensures (repo.doc.Empty? || forall j :: 0 <= j < |repo.doc.qs| ==> !repo.doc.qs[j].HasId(questionId)) ==>
              resp == Respond(404, Message(NoDataFound))
  {
    var answers := repo.GetAnswers(questionId);
    if answers.Value? {   // `[]` is truthy; `undefined` and null are not
      resp := Respond(200, AnswerList(answers.value));
    } else {
      resp := Respond(404, Message(NoDataFound));
    }
  }

  /** GET /questions/:questionId/answers/:answerId: 200 with the answer, 404 on null, and
      no response at all when the store throws because the question is missing. */
  method GetAnswerByAnswerId(repo: QuestionRepository, questionId: string, answerId: string) returns (resp: Response)
    ensures var r := AnswerWithId(repo.doc, questionId, answerId);
            resp == if r.Throws? then Unanswered
                    else if r.Value? then Respond(200, AnswerJson(r.value))
                    else Respond(404, Message(NoDataFound))
    ensures repo.doc.Questions? && (forall j :: 0 <= j < |repo.doc.qs| ==> !repo.doc.qs[j].HasId(questionId)) ==>
              resp == Unanswered
    ensures repo.doc.Empty? ==> resp == Respond(404, Message(NoDataFound))
    ensures forall i, k ::
              (repo.doc.Questions? && FirstQuestion(repo.doc.qs, questionId, i) && repo.doc.qs[i].answers.Some?
               && FirstAnswer(repo.doc.qs[i].answers.value, answerId, k))
              ==> resp == Respond(200, AnswerJson(repo.doc.qs[i].answers.value[k]))
    ensures forall i ::
              (repo.doc.Questions? && FirstQuestion(repo.doc.qs, questionId, i) && repo.doc.qs[i].answers.Some?
               && forall k :: 0 <= k < |repo.doc.qs[i].answers.value| ==> !repo.doc.qs[i].answers.value[k].HasId(answerId))
              ==> resp == Respond(404, Message(NoDataFound))
  {
    var answer := repo.GetAnswer(questionId, answerId);
    if answer.Throws? {
      resp := Unanswered;
    } else if answer.Value? {
      resp := Respond(200, AnswerJson(answer.value));
    } else {
      resp := Respond(404, Message(NoDataFound));
    }
  }

  /** POST /questions/:questionId/answers: an invalid record answers 400 and never reaches
      the store; otherwise 201 with the stored answer, 400 with an empty body when the store
      returns null (duplicate summary or empty content), and no response when it throws. */
  method AddAnswer(repo: QuestionRepository, questionId: string, id: string, body: RequestBody, isUuid: string -> bool)
    returns (resp: Response)
    modifies repo
    ensures var answer := NewAnswer(id, body);
            !ValidAnswer(answer, isUuid) ==>
              resp == Respond(400, Message(AnswerInvalid)) && repo.doc == old(repo.doc)
    ensures var answer := NewAnswer(id, body);
            var s := AddAnswerTo(old(repo.doc), questionId, answer);
            ValidAnswer(answer, isUuid) ==>
              && repo.doc == s.doc
              && resp == match s.out
                         case Value(a) => Respond(201, AnswerJson(a))
                         case Throws => Unanswered
                         case _ => Respond(400, NoBody)
    ensures AllValid(old(repo.doc), isUuid) ==> AllValid(repo.doc, isUuid)
    ensures Consistent(old(repo.doc)) ==> Consistent(repo.doc)
    ensures DistinctIds(old(repo.doc)) && AnswerIdUnused(old(repo.doc), questionId, Str(id)) ==> DistinctIds(repo.doc)
  {
    var answer := NewAnswer(id, body);
    var verdict := ValidateAnswer(answer, isUuid);
    if verdict.Fail? {
      return Respond(400, Message(AnswerInvalid));
    }
    ghost var before := repo.doc;
    var a := repo.AddAnswer(questionId, answer);
    if AllValid(before, isUuid) {
      AddAnswerKeepsValid(before, questionId, answer, isUuid);
    }
    if Consistent(before) {
      AddAnswerKeepsConsistent(before, questionId, answer);
    }
    if DistinctIds(before) && AnswerIdUnused(before, questionId, answer.id) {
      AddAnswerKeepsIdsDistinct(before, questionId, answer);
    }
    if a.Throws? {
      resp := Unanswered;
    } else if a.Value? {
      resp := Respond(201, AnswerJson(a.value));
    } else {
      resp := Respond(400, NoBody);
    }
  }
}
