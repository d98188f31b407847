/** The two Joi object schemas, as ordered field checks that stop at the first failure
    (Joi's default `abortEarly`), each proved equivalent to a declarative shape predicate.
    Whether a string is a well-formed UUID is left to the caller: `isUuid` stands for the
    test behind Joi's `string().uuid()`. Validation reads no store. */
module Schemas {
  import opened Records

  /** Why a value was refused. */
  datatype Reason =
    | Required      // a required key is missing
    | NotAString    // `string()` got a value of another type
    | EmptyString   // `string()` refuses '' unless told otherwise
    | NotAUuid      // `uuid()` refused the string
    | NotAllowed    // a key the object schema does not declare

  datatype PathStep = Key(name: string) | Index(position: nat)

  /** The first problem Joi reports: where it is and why. */
  datatype SchemaError = SchemaError(path: seq<PathStep>, reason: Reason)

  datatype Verdict = Pass | Fail(error: SchemaError)

  /** The first failure of two checks run in order. */
  function AndThen(first: Verdict, next: Verdict): Verdict {
    if first.Fail? then first else next
  }

  // Declarative shapes

  /** Accepted by `Joi.string().required()`. */
  predicate NonEmptyString(v: Field) {
    v.Str? && v.text != ""
  }

  /** Accepted by `Joi.string().uuid().required()`. */
  predicate UuidString(v: Field, isUuid: string -> bool) {
    NonEmptyString(v) && isUuid(v.text)
  }

  /** The answer shape: a UUID id, a non-empty author and summary, no other key. */
  predicate ValidAnswer(a: Answer, isUuid: string -> bool) {
    && UuidString(a.id, isUuid)
    && NonEmptyString(a.author)
    && NonEmptyString(a.summary)
    && a.extra == []
  }

  /** The question shape: as an answer, plus an optional array of valid answers. */
  predicate ValidQuestion(q: Question, isUuid: string -> bool) {
    && UuidString(q.id, isUuid)
    && NonEmptyString(q.author)
    && NonEmptyString(q.summary)
    && (q.answers.Some? ==> forall i :: 0 <= i < |q.answers.value| ==> ValidAnswer(q.answers.value[i], isUuid))
    && q.extra == []
  }

  // Ordered checks, in the order Joi runs them

  /** `Joi.string().required()` under `key`: presence, then type, then emptiness. */
  function CheckString(key: string, v: Field): (r: Verdict)
    ensures r.Pass? <==> NonEmptyString(v)
    ensures v.Absent? ==> r == Fail(SchemaError([Key(key)], Required))
    ensures v == Str("") ==> r == Fail(SchemaError([Key(key)], EmptyString))
    ensures !v.Absent? && !v.Str? ==> r == Fail(SchemaError([Key(key)], NotAString))
  {
    match v
    case Absent => Fail(SchemaError([Key(key)], Required))
    case Str(s) => if s == "" then Fail(SchemaError([Key(key)], EmptyString)) else Pass
    case _ => Fail(SchemaError([Key(key)], NotAString))
  }

  /** `Joi.string().uuid().required()` under `key`: the string rules, then the UUID rule. */
  function CheckUuid(key: string, v: Field, isUuid: string -> bool): (r: Verdict)
    ensures r.Pass? <==> UuidString(v, isUuid)
    ensures r.Fail? ==> r.error.path == [Key(key)]
    ensures r.Fail? && NonEmptyString(v) ==> r.error.reason == NotAUuid
  {
    var s := CheckString(key, v);
    if s.Fail? then s
    else if isUuid(v.text) then Pass
    else Fail(SchemaError([Key(key)], NotAUuid))
  }

  /** Joi refuses the first key an object schema does not declare. */
  function CheckNoExtraKeys(extra: seq<(string, Field)>): Verdict {
    if extra == [] then Pass else Fail(SchemaError([Key(extra[0].0)], NotAllowed))
  }

  /** `answerSchema.validate(a)`: id, author, summary, then undeclared keys. */
  function ValidateAnswer(a: Answer, isUuid: string -> bool): (r: Verdict)
    ensures r.Pass? <==> ValidAnswer(a, isUuid)
    ensures r.Fail? && !UuidString(a.id, isUuid) ==> r.error.path == [Key("id")]
    ensures r.Fail? && UuidString(a.id, isUuid) && !NonEmptyString(a.author) ==> r.error.path == [Key("author")]
    ensures r.Fail? ==> |r.error.path| == 1
  {
    AndThen(CheckUuid("id", a.id, isUuid),
    AndThen(CheckString("author", a.author),
    AndThen(CheckString("summary", a.summary),
            CheckNoExtraKeys(a.extra))))
  }

  /** `Joi.array().items(answerSchema)` from position `from` on: the first invalid item
      is reported under its position. */
  function ValidateAnswers(items: seq<Answer>, from: nat, isUuid: string -> bool): (r: Verdict)
    requires from <= |items|
    decreases |items| - from
    ensures r.Pass? <==> forall i :: from <= i < |items| ==> ValidAnswer(items[i], isUuid)
    ensures r.Fail? ==>
      && |r.error.path| == 2
      && r.error.path[0].Index?
      && var i := r.error.path[0].position;
         && from <= i < |items|
         && !ValidAnswer(items[i], isUuid)
         && (forall j :: from <= j < i ==> ValidAnswer(items[j], isUuid))
  {
    if from == |items| then Pass
    else
      var item := ValidateAnswer(items[from], isUuid);
      if item.Fail? then Fail(SchemaError([Index(from)] + item.error.path, item.error.reason))
      else ValidateAnswers(items, from + 1, isUuid)
  }

  /** `questionSchema.validate(q)`: id, author, summary, the optional answers, then
      undeclared keys. A single invalid nested answer refuses the whole question. */
  function ValidateQuestion(q: Question, isUuid: string -> bool): (r: Verdict)
    ensures r.Pass? <==> ValidQuestion(q, isUuid)
    ensures (r.Fail? && UuidString(q.id, isUuid) && NonEmptyString(q.author) && NonEmptyString(q.summary)
             && q.extra == []) ==> |r.error.path| == 3 && r.error.path[0] == Key("answers")
  {
    var answers :=
      match q.answers
      case None => Pass
      case Some(items) =>
        var v := ValidateAnswers(items, 0, isUuid);
        if v.Fail? then Fail(SchemaError([Key("answers")] + v.error.path, v.error.reason)) else Pass;
    AndThen(CheckUuid("id", q.id, isUuid),
    AndThen(CheckString("author", q.author),
    AndThen(CheckString("summary", q.summary),
    AndThen(answers,
            CheckNoExtraKeys(q.extra)))))
  }
}
