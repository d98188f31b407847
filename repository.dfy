/** The question repository: a store whose whole state is one JSON document holding the
    array of questions. Every operation loads the document; the two that add a record
    append to what they loaded and rewrite the whole document. The store itself
    validates nothing. */
module Repository {
  import opened Records

  /** The document: empty content (a zero-length file) or a parsed array of questions. */
  datatype Doc = Empty | Questions(qs: seq<Question>)

  /** What a repository call settles to: `null`, `undefined`, a value, or a thrown
      TypeError (a property read on `undefined`). */
  datatype Outcome<+T> = Null | Undefined | Value(value: T) | Throws

  /** The document after a call, with what the call returned. */
  datatype Step<+T> = Step(doc: Doc, out: Outcome<T>)

  /** The questions `addQuestion` starts from: empty content is read as `[]`. */
  function Loaded(d: Doc): seq<Question> {
    if d.Empty? then [] else d.qs
  }

  // Declarative descriptions of the `find` scans

  /** `i` is the first question whose id is `questionId`. */
  ghost predicate FirstQuestion(qs: seq<Question>, questionId: string, i: int) {
    0 <= i < |qs| && qs[i].HasId(questionId) && forall j :: 0 <= j < i ==> !qs[j].HasId(questionId)
  }

  /** `k` is the first answer whose id is `answerId`. */
  ghost predicate FirstAnswer(answers: seq<Answer>, answerId: string, k: int) {
    0 <= k < |answers| && answers[k].HasId(answerId) && forall j :: 0 <= j < k ==> !answers[j].HasId(answerId)
  }

  /** Some stored question's summary is `===` to `summary`. */
  ghost predicate SummaryTaken(qs: seq<Question>, summary: Field) {
    exists j :: 0 <= j < |qs| && StrictEquals(qs[j].summary, summary)
  }

  /** Some answer's summary is `===` to `summary`. */
  ghost predicate AnswerSummaryTaken(answers: seq<Answer>, summary: Field) {
    exists j :: 0 <= j < |answers| && StrictEquals(answers[j].summary, summary)
  }

  // The scans themselves

  /** `questions.find(q => q.id === questionId)`, as a position. */
  function IndexOfQuestion(qs: seq<Question>, questionId: string): (r: Option<nat>)
    ensures r.Some? ==> FirstQuestion(qs, questionId, r.value)
    ensures r.None? <==> forall j :: 0 <= j < |qs| ==> !qs[j].HasId(questionId)
  {
    Find(qs, (q: Question) => q.HasId(questionId))
  }

  /** `answers.find(a => a.id === answerId)`, as a position. */
  function IndexOfAnswer(answers: seq<Answer>, answerId: string): (r: Option<nat>)
    ensures r.Some? ==> FirstAnswer(answers, answerId, r.value)
    ensures r.None? <==> forall j :: 0 <= j < |answers| ==> !answers[j].HasId(answerId)
  {
    Find(answers, (a: Answer) => a.HasId(answerId))
  }

  /** `questions.find(q => q.summary === summary)` found something. */
  function HasSummary(qs: seq<Question>, summary: Field): (b: bool)
    ensures b <==> SummaryTaken(qs, summary)
  {
    Find(qs, (q: Question) => StrictEquals(q.summary, summary)).Some?
  }

  /** `answers.find(a => a.summary === summary)` found something. */
  function HasAnswerSummary(answers: seq<Answer>, summary: Field): (b: bool)
    ensures b <==> AnswerSummaryTaken(answers, summary)
  {
    Find(answers, (a: Answer) => StrictEquals(a.summary, summary)).Some?
  }

  // The six operations, one function each

  /** `getQuestions`: null on empty content, otherwise the stored array as it is; a stored
      `[]` is a zero-length value, not null. */
  function QuestionsIn(d: Doc): (r: Outcome<seq<Question>>)
    ensures r.Null? <==> d.Empty?
    ensures r.Value? ==> r.value == Loaded(d)
    ensures !r.Undefined? && !r.Throws?
  {
    match d
    case Empty => Null
    case Questions(qs) => Value(qs)
  }

  /** `getQuestionById`: null on empty content, the first question with that id, or
      `undefined` when there is none. */
  function QuestionWithId(d: Doc, questionId: string): (r: Outcome<Question>)
    ensures d.Empty? ==> r == Null
    ensures d.Questions? ==> (r == Undefined <==> forall j :: 0 <= j < |d.qs| ==> !d.qs[j].HasId(questionId))
    ensures forall i :: d.Questions? && FirstQuestion(d.qs, questionId, i) ==> r == Value(d.qs[i])
  {
    match d
    case Empty => Null
    case Questions(qs) =>
      match IndexOfQuestion(qs, questionId)
      case None => Undefined
      case Some(i) => Value(qs[i])
  }

  /** `addQuestion`: empty content counts as `[]`; the question is appended unless a stored
      question has a `===` summary, in which case nothing is written and null returned.
      Its answers are stored as given, unchecked. */
  function AddQuestionTo(d: Doc, question: Question): (r: Step<Question>)
    ensures SummaryTaken(Loaded(d), question.summary) ==> r == Step(d, Null)
    ensures !SummaryTaken(Loaded(d), question.summary) ==> r == Step(Questions(Loaded(d) + [question]), Value(question))
  {
    var qs := Loaded(d);
    if HasSummary(qs, question.summary) then Step(d, Null)
    else Step(Questions(qs + [question]), Value(question))
  }

  /** `getAnswers`: null on empty content or when no question has the id; otherwise that
      question's `answers`, which is `undefined` when the key is absent. */
  function AnswersOf(d: Doc, questionId: string): (r: Outcome<seq<Answer>>)
    ensures d.Empty? ==> r == Null
    ensures d.Questions? && (forall j :: 0 <= j < |d.qs| ==> !d.qs[j].HasId(questionId)) ==> r == Null
    ensures forall i :: d.Questions? && FirstQuestion(d.qs, questionId, i) ==>
              r == (if d.qs[i].answers.Some? then Value(d.qs[i].answers.value) else Undefined)
  {
    match d
    case Empty => Null
    case Questions(qs) =>
      match IndexOfQuestion(qs, questionId)
      case None => Null
      case Some(i) =>
        match qs[i].answers
        case None => Undefined
        case Some(answers) => Value(answers)
  }

  /** `getAnswer`: null on empty content. `question.answers` is read before `question` is
      checked, so a missing question (or one stored without answers) throws. Otherwise the
      first answer with the id, or null. */
  function AnswerWithId(d: Doc, questionId: string, answerId: string): (r: Outcome<Answer>)
    ensures d.Empty? ==> r == Null
    ensures d.Questions? && (forall j :: 0 <= j < |d.qs| ==> !d.qs[j].HasId(questionId)) ==> r == Throws
    ensures forall i :: d.Questions? && FirstQuestion(d.qs, questionId, i) && d.qs[i].answers.None? ==> r == Throws
    ensures forall i, k ::
              (d.Questions? && FirstQuestion(d.qs, questionId, i) && d.qs[i].answers.Some?
               && FirstAnswer(d.qs[i].answers.value, answerId, k))
              ==> r == Value(d.qs[i].answers.value[k])
    ensures forall i ::
              (d.Questions? && FirstQuestion(d.qs, questionId, i) && d.qs[i].answers.Some?
               && forall k :: 0 <= k < |d.qs[i].answers.value| ==> !d.qs[i].answers.value[k].HasId(answerId))
              ==> r == Null
    ensures !r.Undefined?
  {
    match d
    case Empty => Null
    case Questions(qs) =>
      match IndexOfQuestion(qs, questionId)
      case None => Throws
      case Some(i) =>
        match qs[i].answers
        case None => Throws
        case Some(answers) =>
          match IndexOfAnswer(answers, answerId)
          case None => Null
          case Some(k) => Value(answers[k])
  }

  /** `qs` with `answer` appended to the answers of the question at `i`. */
  function AppendAnswer(qs: seq<Question>, i: nat, answer: Answer): (r: seq<Question>)
    requires i < |qs| && qs[i].answers.Some?
    ensures |r| == |qs|
    ensures forall j :: 0 <= j < |qs| && j != i ==> r[j] == qs[j]
    ensures r[i] == qs[i].(answers := Some(qs[i].answers.value + [answer]))
  {
    qs[i := qs[i].(answers := Some(qs[i].answers.value + [answer]))]
  }

  /** `addAnswer`: null without writing on empty content; a throw when the question is
      missing or has no answers array; null without writing when one of its answers has a
      `===` summary; otherwise the answer is appended to the first matching question only,
      the whole document is rewritten, and the answer is returned. */
  function AddAnswerTo(d: Doc, questionId: string, answer: Answer): (r: Step<Answer>)
    ensures d.Empty? ==> r == Step(d, Null)
    ensures d.Questions? && (forall j :: 0 <= j < |d.qs| ==> !d.qs[j].HasId(questionId)) ==> r == Step(d, Throws)
    ensures forall i :: d.Questions? && FirstQuestion(d.qs, questionId, i) ==>
              if d.qs[i].answers.None? then r == Step(d, Throws)
              else if AnswerSummaryTaken(d.qs[i].answers.value, answer.summary) then r == Step(d, Null)
              else r == Step(Questions(AppendAnswer(d.qs, i, answer)), Value(answer))
  {
    match d
    case Empty => Step(d, Null)
    case Questions(qs) =>
      match IndexOfQuestion(qs, questionId)
      case None => Step(d, Throws)
      case Some(i) =>
        match qs[i].answers
        case None => Step(d, Throws)
        case Some(answers) =>
          if HasAnswerSummary(answers, answer.summary) then Step(d, Null)
          else Step(Questions(AppendAnswer(qs, i, answer)), Value(answer))
  }

  // What the store keeps true, and how its operations combine

  /** No two questions have `===` summaries. */
  ghost predicate DistinctSummaries(qs: seq<Question>) {
    forall i, j :: 0 <= i < j < |qs| ==> !StrictEquals(qs[i].summary, qs[j].summary)
  }

  /** No two answers of one question have `===` summaries. */
  ghost predicate DistinctAnswerSummaries(q: Question) {
    q.answers.Some? ==>
      forall i, j :: 0 <= i < j < |q.answers.value| ==> !StrictEquals(q.answers.value[i].summary, q.answers.value[j].summary)
  }

  /** The uniqueness rules the two adding operations enforce. */
  ghost predicate Consistent(d: Doc) {
    && DistinctSummaries(Loaded(d))
    && forall i :: 0 <= i < |Loaded(d)| ==> DistinctAnswerSummaries(Loaded(d)[i])
  }

  /** `addQuestion` keeps question summaries distinct. It does not look inside the new
      question's answers, so their distinctness has to come from the caller. */
  lemma AddQuestionKeepsConsistent(d: Doc, question: Question)
    requires Consistent(d) && DistinctAnswerSummaries(question)
    ensures Consistent(AddQuestionTo(d, question).doc)
  {
  }

  /** Whether `addQuestion` stores a question depends on its summary alone: the answers
      it carries are neither checked nor changed. */
  lemma AddQuestionIgnoresAnswers(d: Doc, question: Question, answers: Option<seq<Answer>>)
    ensures AddQuestionTo(d, question.(answers := answers)).out.Value? <==> AddQuestionTo(d, question).out.Value?
    ensures AddQuestionTo(d, question.(answers := answers)).out.Value? ==>
              AddQuestionTo(d, question.(answers := answers)).doc.qs[|Loaded(d)|].answers == answers
  {
  }

  /** A question just added is what a lookup by its id returns, provided no earlier
      question has that id, and the listing is the old one with it at the end. */
  lemma AddedQuestionIsFound(d: Doc, question: Question, questionId: string)
    requires question.HasId(questionId)
    requires forall j :: 0 <= j < |Loaded(d)| ==> !Loaded(d)[j].HasId(questionId)
    ensures var s := AddQuestionTo(d, question);
            s.out.Value? ==> QuestionWithId(s.doc, questionId) == Value(question)
                             && QuestionsIn(s.doc) == Value(Loaded(d) + [question])
  {
    var s := AddQuestionTo(d, question);
    if s.out.Value? {
      assert FirstQuestion(s.doc.qs, questionId, |Loaded(d)|);
    }
  }

  /** Adding a question leaves every earlier successful lookup as it was. */
  lemma AddQuestionKeepsLookups(d: Doc, question: Question, questionId: string)
    requires QuestionWithId(d, questionId).Value?
    ensures QuestionWithId(AddQuestionTo(d, question).doc, questionId) == QuestionWithId(d, questionId)
  {
    var i :| FirstQuestion(d.qs, questionId, i);
    assert FirstQuestion(AddQuestionTo(d, question).doc.qs, questionId, i);
  }

  /** A second `addQuestion` of the same record is refused and writes nothing, so adding
      twice leaves the document as adding once. (A composite summary is never `===` to
      anything, so the rule needs a summary that is not an object or array.) */
  lemma AddQuestionTwiceIsRefused(d: Doc, question: Question)
    requires !question.summary.Composite?
    ensures var once := AddQuestionTo(d, question);
            AddQuestionTo(once.doc, question) == Step(once.doc, Null)
  {
    var once := AddQuestionTo(d, question);
    if once.out.Value? {
      var qs := once.doc.qs;
      assert qs[|qs| - 1] == question;
      assert StrictEquals(qs[|qs| - 1].summary, question.summary);
    }
  }

  /** `addAnswer` keeps question summaries distinct (it changes none) and keeps the
      answer summaries of every question distinct. */
  lemma AddAnswerKeepsConsistent(d: Doc, questionId: string, answer: Answer)
    requires Consistent(d)
    ensures Consistent(AddAnswerTo(d, questionId, answer).doc)
  {
  }

  /** After an answer is added, the question's answers are the old ones with it at the
      end, and looking it up by its id returns it when no earlier answer has that id. */
  lemma AddedAnswerIsFound(d: Doc, questionId: string, answer: Answer, answerId: string)
    ensures var s := AddAnswerTo(d, questionId, answer);
            s.out.Value? ==> && AnswersOf(d, questionId).Value?
                             && AnswersOf(s.doc, questionId) == Value(AnswersOf(d, questionId).value + [answer])
    ensures var s := AddAnswerTo(d, questionId, answer);
            (s.out.Value? && answer.HasId(answerId) && AnswersOf(d, questionId).Value?
             && forall k :: 0 <= k < |AnswersOf(d, questionId).value| ==> !AnswersOf(d, questionId).value[k].HasId(answerId))
            ==> AnswerWithId(s.doc, questionId, answerId) == Value(answer)
  {
    var s := AddAnswerTo(d, questionId, answer);
    if s.out.Value? {
      var i :| FirstQuestion(d.qs, questionId, i);
      var qs' := s.doc.qs;
      assert FirstQuestion(qs', questionId, i);
      var oldAnswers := d.qs[i].answers.value;
      if answer.HasId(answerId) && forall k :: 0 <= k < |oldAnswers| ==> !oldAnswers[k].HasId(answerId) {
        assert FirstAnswer(qs'[i].answers.value, answerId, |oldAnswers|);
      }
    }
  }

  /** `addAnswer` leaves every other question as it was: looking up a question with a
      different id gives the same result before and after. */
  lemma AddAnswerKeepsOtherQuestions(d: Doc, questionId: string, answer: Answer, otherId: string)
    requires otherId != questionId
    ensures var s := AddAnswerTo(d, questionId, answer);
            && QuestionWithId(s.doc, otherId) == QuestionWithId(d, otherId)
            && AnswersOf(s.doc, otherId) == AnswersOf(d, otherId)
  {
    var s := AddAnswerTo(d, questionId, answer);
    if s.out.Value? {
      var i :| FirstQuestion(d.qs, questionId, i);
      var qs, qs' := d.qs, s.doc.qs;
      assert forall j :: 0 <= j < |qs| && qs[j].HasId(otherId) ==> qs'[j] == qs[j];
      assert forall j :: 0 <= j < |qs| ==> (qs'[j].HasId(otherId) <==> qs[j].HasId(otherId));
      var found := IndexOfQuestion(qs, otherId);
      if found.Some? {
        assert FirstQuestion(qs', otherId, found.value);
      }
    }
  }

  /** Repeating an `addAnswer` that did not throw is refused and writes nothing. */
  lemma AddAnswerTwiceIsRefused(d: Doc, questionId: string, answer: Answer)
    requires !answer.summary.Composite?
    ensures var once := AddAnswerTo(d, questionId, answer);
            !once.out.Throws? ==> AddAnswerTo(once.doc, questionId, answer) == Step(once.doc, Null)
  {
    var once := AddAnswerTo(d, questionId, answer);
    if once.out.Value? {
      var i :| FirstQuestion(d.qs, questionId, i);
      var qs' := once.doc.qs;
      assert FirstQuestion(qs', questionId, i);
      var answers := qs'[i].answers.value;
      assert answers[|answers| - 1] == answer;
      assert StrictEquals(answers[|answers| - 1].summary, answer.summary);
    }
  }

  /** Because `addQuestion` does not look inside the answers it stores, a question
      carrying two answers with `===` summaries is stored, and the store then holds two
      answers of one question with the same summary. */
  lemma AddQuestionAdmitsDuplicateAnswers(question: Question)
    requires question.answers.Some? && |question.answers.value| == 2
    requires StrictEquals(question.answers.value[0].summary, question.answers.value[1].summary)
    ensures var s := AddQuestionTo(Empty, question);
            s.out == Value(question) && !Consistent(s.doc)
  {
  }

  // Ids: the store never checks them, so their uniqueness rests on the caller

  /** No two answers of one question have the same id. */
  ghost predicate DistinctAnswerIds(q: Question) {
    q.answers.Some? ==>
      forall i, j :: 0 <= i < j < |q.answers.value| ==> q.answers.value[i].id != q.answers.value[j].id
  }

  /** No two questions have the same id, and no two answers of one question do. */
  ghost predicate DistinctIds(d: Doc) {
    && (forall i, j :: 0 <= i < j < |Loaded(d)| ==> Loaded(d)[i].id != Loaded(d)[j].id)
    && (forall i :: 0 <= i < |Loaded(d)| ==> DistinctAnswerIds(Loaded(d)[i]))
  }

  /** No answer of the first question with id `questionId` has the id `id`: answer ids
      need only be unique within their own question's answers. */
  ghost predicate AnswerIdUnused(d: Doc, questionId: string, id: Field) {
    forall i, k ::
      (d.Questions? && FirstQuestion(d.qs, questionId, i) && d.qs[i].answers.Some?
       && 0 <= k < |d.qs[i].answers.value|)
      ==> d.qs[i].answers.value[k].id != id
  }

  /** Adding a question whose id is fresh (and whose own answers have distinct ids)
      keeps ids distinct. */
  lemma AddQuestionKeepsIdsDistinct(d: Doc, question: Question)
    requires DistinctIds(d) && DistinctAnswerIds(question)
    requires forall j :: 0 <= j < |Loaded(d)| ==> Loaded(d)[j].id != question.id
    ensures DistinctIds(AddQuestionTo(d, question).doc)
  {
    var s := AddQuestionTo(d, question);
    if s.out.Value? {
      var qs, qs' := Loaded(d), Loaded(s.doc);
      assert qs' == qs + [question];
      forall i | 0 <= i < |qs'|
        ensures DistinctAnswerIds(qs'[i])
      {
        if i < |qs| {
          assert qs'[i] == qs[i];
        }
      }
    }
  }

  /** Adding an answer whose id no answer of its question has keeps ids distinct. */
  lemma AddAnswerKeepsIdsDistinct(d: Doc, questionId: string, answer: Answer)
    requires DistinctIds(d) && AnswerIdUnused(d, questionId, answer.id)
    ensures DistinctIds(AddAnswerTo(d, questionId, answer).doc)
  {
    var s := AddAnswerTo(d, questionId, answer);
    if s.out.Value? {
      var i :| FirstQuestion(d.qs, questionId, i);
      var qs, qs' := d.qs, s.doc.qs;
      assert qs' == AppendAnswer(qs, i, answer);
      assert Loaded(d) == qs && Loaded(s.doc) == qs';
      forall m, n | 0 <= m < n < |qs'|
        ensures qs'[m].id != qs'[n].id
      {
        assert qs'[m].id == qs[m].id && qs'[n].id == qs[n].id;
      }
      var oldAnswers := qs[i].answers.value;
      var newAnswers := qs'[i].answers.value;
      assert newAnswers == oldAnswers + [answer];
      forall m, n | 0 <= m < n < |newAnswers|
        ensures newAnswers[m].id != newAnswers[n].id
      {
        assert newAnswers[m] == oldAnswers[m];
        if n < |oldAnswers| {
          assert newAnswers[n] == oldAnswers[n];
        } else {
          assert qs[i].answers.value[m].id != answer.id;
        }
      }
      forall j | 0 <= j < |qs'|
        ensures DistinctAnswerIds(qs'[j])
      {
        if j != i {
          assert qs'[j] == qs[j];
        }
      }
    }
  }

  /** A reused question id is stored all the same, and the lookup by that id keeps
      returning the older question: `find` stops at the first match. */
  lemma ReusedQuestionIdIsHidden(d: Doc, question: Question, questionId: string)
    requires question.HasId(questionId)
    requires QuestionWithId(d, questionId).Value?
    requires !SummaryTaken(Loaded(d), question.summary)
    ensures var s := AddQuestionTo(d, question);
            && s.out == Value(question)
            && !DistinctIds(s.doc)
            && QuestionWithId(s.doc, questionId) == QuestionWithId(d, questionId)
  {
    var s := AddQuestionTo(d, question);
    var i :| FirstQuestion(d.qs, questionId, i);
    var qs' := s.doc.qs;
    assert qs'[i] == d.qs[i] && qs'[|d.qs|] == question;
    assert Loaded(s.doc)[i].id == Loaded(s.doc)[|d.qs|].id;
    assert FirstQuestion(qs', questionId, i);
  }

  /** Likewise for answers: an answer whose id the question already uses is stored when
      its summary is new, and the lookup by that id keeps returning the older answer. */
  lemma ReusedAnswerIdIsHidden(d: Doc, questionId: string, answer: Answer, answerId: string)
    requires answer.HasId(answerId)
    requires AnswerWithId(d, questionId, answerId).Value?
    requires forall i :: d.Questions? && FirstQuestion(d.qs, questionId, i) && d.qs[i].answers.Some?
                         ==> !AnswerSummaryTaken(d.qs[i].answers.value, answer.summary)
    ensures var s := AddAnswerTo(d, questionId, answer);
            && s.out == Value(answer)
            && !DistinctIds(s.doc)
            && AnswerWithId(s.doc, questionId, answerId) == AnswerWithId(d, questionId, answerId)
  {
    var s := AddAnswerTo(d, questionId, answer);
    var i :| FirstQuestion(d.qs, questionId, i);
    var k :| FirstAnswer(d.qs[i].answers.value, answerId, k);
    var qs' := s.doc.qs;
    assert forall j :: 0 <= j < |qs'| ==> (qs'[j].HasId(questionId) <==> d.qs[j].HasId(questionId));
    assert FirstQuestion(qs', questionId, i);
    var oldAnswers := d.qs[i].answers.value;
    var newAnswers := qs'[i].answers.value;
    assert newAnswers == oldAnswers + [answer];
    assert newAnswers[k] == oldAnswers[k] && newAnswers[|oldAnswers|] == answer;
    assert FirstAnswer(newAnswers, answerId, k);
    assert Loaded(s.doc)[i].answers.value[k].id == Loaded(s.doc)[i].answers.value[|oldAnswers|].id;
  }

  /** The store validates nothing: the record `{hello: 'bob', notAnAnswer: 123}` is
      stored and returned when added to `[]`, where a test of the repository expects null
      and an empty listing. */
  lemma MalformedQuestionIsStored()
    ensures var q := Question(Absent, Absent, Absent, None, [("hello", Str("bob")), ("notAnAnswer", Scalar("123"))]);
            var s := AddQuestionTo(Questions([]), q);
            s.out == Value(q) && QuestionsIn(s.doc) == Value([q])
  {
    var q := Question(Absent, Absent, Absent, None, [("hello", Str("bob")), ("notAnAnswer", Scalar("123"))]);
    assert !SummaryTaken([], q.summary);
    assert [] + [q] == [q];
  }

  /** Likewise for an answer: `{hello: 'bob', notAnAnswer: 123}` added to the first of
      two questions with no answers is stored, where a test of the repository expects null
      and no answers. */
  lemma MalformedAnswerIsStored(first: Question, second: Question, questionId: string)
    requires first.HasId(questionId) && first.answers == Some([]) && second.answers == Some([])
    ensures var a := Answer(Absent, Absent, Absent, [("hello", Str("bob")), ("notAnAnswer", Scalar("123"))]);
            var s := AddAnswerTo(Questions([first, second]), questionId, a);
            s.out == Value(a) && AnswersOf(s.doc, questionId) == Value([a])
  {
    var a := Answer(Absent, Absent, Absent, [("hello", Str("bob")), ("notAnAnswer", Scalar("123"))]);
    assert FirstQuestion([first, second], questionId, 0);
    assert !AnswerSummaryTaken([], a.summary);
    assert [] + [a] == [a];
    assert FirstQuestion(AddAnswerTo(Questions([first, second]), questionId, a).doc.qs, questionId, 0);
  }

  /** The store: one document, rewritten as a whole by the two adding operations. */
  class QuestionRepository {
    var doc: Doc

    constructor (content: Doc)
      ensures doc == content
    {
      doc := content;
    }

    method GetQuestions() returns (r: Outcome<seq<Question>>)
      ensures r == QuestionsIn(doc)
    {
      if doc.Empty? {
        return Null;
      }
      r := Value(doc.qs);
    }

    method GetQuestionById(questionId: string) returns (r: Outcome<Question>)
      ensures r == QuestionWithId(doc, questionId)
    {
      if doc.Empty? {
        return Null;
      }
      var qs := doc.qs;
      var found := IndexOfQuestion(qs, questionId);
      r := if found.Some? then Value(qs[found.value]) else Undefined;
    }

    method AddQuestion(question: Question) returns (r: Outcome<Question>)
      modifies this
      ensures Step(doc, r) == AddQuestionTo(old(doc), question)
      ensures r.Value? ==> doc.qs == old(Loaded(doc)) + [question]
      ensures r.Null? ==> doc == old(doc)
    {
      var qs := Loaded(doc);
      if HasSummary(qs, question.summary) {
        return Null;
      }
      qs := qs + [question];   // questions.push(question)
      doc := Questions(qs);    // the whole document is rewritten
      r := Value(question);
    }

    method GetAnswers(questionId: string) returns (r: Outcome<seq<Answer>>)
      ensures r == AnswersOf(doc, questionId)
    {
      if doc.Empty? {
        return Null;
      }
      var qs := doc.qs;
      var found := IndexOfQuestion(qs, questionId);
      if found.None? {
        return Null;
      }
      var answers := qs[found.value].answers;
      r := if answers.Some? then Value(answers.value) else Undefined;
    }

    method GetAnswer(questionId: string, answerId: string) returns (r: Outcome<Answer>)
      ensures r == AnswerWithId(doc, questionId, answerId)
    {
      if doc.Empty? {
        return Null;
      }
      var qs := doc.qs;
      var found := IndexOfQuestion(qs, questionId);
      if found.None? || qs[found.value].answers.None? {
        return Throws;   // reading `answers` of undefined, or `find` of undefined
      }
      var answers := qs[found.value].answers.value;
      var k := IndexOfAnswer(answers, answerId);
      r := if k.Some? then Value(answers[k.value]) else Null;
    }

    method AddAnswer(questionId: string, answer: Answer) returns (r: Outcome<Answer>)
      modifies this
      ensures Step(doc, r) == AddAnswerTo(old(doc), questionId, answer)
      ensures !r.Value? ==> doc == old(doc)
    {
      if doc.Empty? {
        return Null;
      }
      var qs := doc.qs;
      var found := IndexOfQuestion(qs, questionId);
      if found.None? || qs[found.value].answers.None? {
        return Throws;
      }
      var i := found.value;
      var answers := qs[i].answers.value;
      if HasAnswerSummary(answers, answer.summary) {
        return Null;   // the `!question` half of the test can never be reached
      }
      answers := answers + [answer];                  // question.answers.push(answer)
      qs := qs[i := qs[i].(answers := Some(answers))];
      doc := Questions(qs);                           // the whole document is rewritten
      r := Value(answer);
    }
  }
}
