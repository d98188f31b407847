/** The records the Q&A service stores and checks, as JavaScript sees them once a
    JSON document or a request body has been parsed. */
module Records {

  datatype Option<+T> = None | Some(value: T)

  /** The value under one key of a parsed JSON object. */
  datatype Field =
    | Absent                   // the key is missing: reading it yields `undefined`
    | Str(text: string)        // a JSON string
    | Scalar(literal: string)  // a number, a boolean or null, written as its JSON text
    | Composite(json: string)  // an object or an array, written as its JSON text

  /** JavaScript's `===` on two field values. `undefined === undefined` holds; objects and
      arrays are compared by reference, and a value loaded from the document is never the
      same object as a value passed in, so two composites are never strictly equal. */
  predicate StrictEquals(x: Field, y: Field) {
    match (x, y)
    case (Absent, Absent) => true
    case (Str(s), Str(t)) => s == t
    case (Scalar(l), Scalar(m)) => l == m
    case _ => false
  }

  /** An answer record: the three declared keys, then every other key with its value.
      `extra` lists the other keys in `Object.keys` order (integer-like keys ascending,
      then the rest in insertion order) and never holds `id`, `author` or `summary`. */
  datatype Answer = Answer(id: Field, author: Field, summary: Field, extra: seq<(string, Field)>)
  {
    /** `a.id === answerId` for an answer id taken from a request path (always a string). */
    predicate HasId(answerId: string) { id == Str(answerId) }
  }

  /** A question record. `answers` is None when the key is absent: JSON.stringify drops an
      `undefined` value, so such a question is stored without the key. `extra` is as for
      an answer, and never holds `id`, `author`, `summary` or `answers`. */
  datatype Question = Question(
    id: Field, author: Field, summary: Field,
    answers: Option<seq<Answer>>,
    extra: seq<(string, Field)>)
  {
    /** `q.id === questionId` for a question id taken from a request path. */
    predicate HasId(questionId: string) { id == Str(questionId) }
  }

  /** Array.prototype.find: the position of the first element that satisfies `p`, or None
      when no element does (where `find` returns `undefined`). */
  function Find<T>(s: seq<T>, p: T -> bool): (r: Option<nat>)
    ensures r.Some? ==> r.value < |s| && p(s[r.value])
    ensures r.Some? ==> forall j :: 0 <= j < r.value ==> !p(s[j])
    ensures r.None? <==> forall j :: 0 <= j < |s| ==> !p(s[j])
  {
    if |s| == 0 then None
    else if p(s[0]) then Some(0)
    else
      match Find(s[1..], p)
      case None => None
      case Some(k) => Some(k + 1)
  }
}
