# Q&A service: question repository, record schemas and handlers

A Dafny model of a small Q&A REST service. Clients create questions, attach answers, and
read both back by id. The whole database is one JSON document holding an array of
questions, and each question may carry an `answers` array.

The model has four modules, one per part of the program:

- `Records` (`records.dfy`) holds the records as JavaScript sees them after parsing.
  - A field value is `Absent` (reads as `undefined`), a string, a scalar (number, boolean or null), or a composite (object or array).
  - `StrictEquals` is `===` on these values. `undefined === undefined` holds. Two objects or arrays are never `===`, because a value loaded from the document is never the same object as a value passed in.
  - A question's `answers` is `Option<seq<Answer>>`. A question stored without the key behaves differently later.
  - `Find` is `Array.prototype.find`, returning the position it found.
- `Schemas` (`schemas.dfy`) models the two Joi object schemas.
  - Each schema is an ordered check that stops at the first failure, as Joi does by default.
  - Each check is proved to accept exactly the records of a declarative shape predicate (`ValidAnswer`, `ValidQuestion`).
  - The UUID test behind `string().uuid()` is a parameter `isUuid`, left uninterpreted.
- `Repository` (`repository.dfy`) models the store.
  - The document is `Empty` (zero-length content) or `Questions(qs)`.
  - Each of the six repository closures is a function on the document. A call returns an `Outcome`: `Null`, `Undefined`, a `Value`, or `Throws` for a TypeError.
  - The four lookups return only that `Outcome`. The two adds, `AddQuestionTo` and `AddAnswerTo`, return a `Step`: the new document plus the `Outcome`.
  - The class `QuestionRepository` holds the document in its field `doc`. It has one method per closure, each proved equal to its function. `AddQuestion` and `AddAnswer` build the updated question sequence as a new value and assign it to `doc`.
  - Lemmas cover the uniqueness rules the store keeps, what a read returns after a write, and what a write leaves unchanged.
  - The store never checks ids. `DistinctIds` (distinct question ids, and distinct answer ids within each question) is kept only when the caller supplies an unused id: one no stored question has, or for an answer, one no answer of its question has. A reused id is stored anyway, and the lookup by that id keeps returning the older record.
- `Handlers` (`handlers.dfy`) models the six route handlers as methods over the store.
  - The four reading handlers (`GetQuestions`, `GetQuestionById`, `GetAnswersByQuestionId`, `GetAnswerByAnswerId`) take the store and the ids from the request path. They validate nothing and map the store's result to a status code and body.
  - The two adding handlers (`AddQuestion`, `AddAnswer`) also take the fresh id for the new record and the request body. They validate the record before storing it, then map the store's result to a status code and body.
  - A handler whose store call throws sends no response (`Unanswered`).

Behaviour kept as the code has it:

- `getAnswer` and `addAnswer` read `question.answers` before testing `question`. A missing question therefore throws instead of returning null. The `!question` test in `addAnswer` can never decide anything. A question stored without `answers` throws in the same way.
- The repository validates nothing. Two repository tests expect malformed records to be refused with null, but the code stores them. `MalformedQuestionIsStored` and `MalformedAnswerIsStored` show the code's behaviour on the records those tests add and on documents shaped like theirs (`repositories/question.test.js:135-147`, `repositories/question.test.js:293-319`).
- Only the handlers validate, so only records that pass validation reach the store through them.
  - `AllValid` is preserved by both adding handlers.
  - The question shape does not require distinct answer summaries, and `addQuestion` does not check them. So the rule "no two answers of one question share a summary" holds only when each created question's own answers already satisfy it. `ValidationAdmitsDuplicateAnswers` and `AddQuestionAdmitsDuplicateAnswers` show a request that breaks the rule.
- A duplicate summary on `addQuestion` still gets status 201, with body `null`.

## Model

| member | source | states |
|---|---|---|
| `Records.Find` | repositories/question.js:18 | `find`: the position found satisfies the test and no earlier element does; None exactly when no element does |
| `Schemas.CheckString` | schemas/answerSchema.js:5-6 | `string().required()` passes exactly a present, non-empty string; a missing key fails as required, `''` as empty, any other type as not a string, each under the key |
| `Schemas.CheckUuid` | schemas/answerSchema.js:4 | `string().uuid().required()` passes exactly a non-empty string accepted by the UUID test; a failure on a non-empty string is the UUID rule |
| `Schemas.ValidateAnswer` | schemas/answerSchema.js:3-7 | passes exactly the answers with a UUID id, non-empty author and summary and no other key; reports `id` first, then `author` |
| `Schemas.ValidateAnswers` | schemas/questionSchema.js:8 | `array().items(answerSchema)` passes exactly when every item is a valid answer; a failure names the first invalid item |
| `Schemas.ValidateQuestion` | schemas/questionSchema.js:4-9 | passes exactly the valid questions: UUID id, non-empty author and summary, answers absent or all valid, no other key; one invalid nested answer refuses the question |
| `Repository.IndexOfQuestion` | repositories/question.js:18 | the scan by question id finds the first question with that id, or none exactly when no question has it |
| `Repository.IndexOfAnswer` | repositories/question.js:54 | the scan by answer id finds the first answer with that id, or none exactly when no answer has it |
| `Repository.HasSummary` | repositories/question.js:28 | the summary scan finds something exactly when a stored question's summary is `===` to the new one |
| `Repository.HasAnswerSummary` | repositories/question.js:66 | the answer-summary scan finds something exactly when one of the question's answers has a `===` summary |
| `Repository.QuestionsIn` | repositories/question.js:4-11 | null exactly on empty content; otherwise the stored array unchanged and in order, so a stored `[]` gives a zero-length value |
| `Repository.QuestionWithId` | repositories/question.js:13-21 | null on empty content; the first question with the id; `undefined` exactly when none has it |
| `Repository.AddQuestionTo` | repositories/question.js:23-35 | a `===` summary collision returns null and leaves the document unchanged; otherwise the new document is the old array (or `[]`) with the question appended, and the question is returned |
| `Repository.AnswersOf` | repositories/question.js:37-45 | null on empty content or when no question has the id; otherwise exactly that question's answers, or `undefined` when it has none stored |
| `Repository.AnswerWithId` | repositories/question.js:47-57 | null on empty content; throws when the question is missing or has no answers array; the first answer with the id, or null |
| `Repository.AppendAnswer` | repositories/question.js:71 | `question.answers.push(answer)`: only that question changes, its answers gain the answer at the end |
| `Repository.AddAnswerTo` | repositories/question.js:59-75 | null without writing on empty content; throws without writing when the question is missing or has no answers array; null without writing on a `===` answer summary; otherwise the answer is appended to the first matching question only and returned |
| `Repository.AddQuestionKeepsConsistent` | repositories/question.js:28-31 | adding a question keeps question summaries pairwise distinct and keeps answer summaries distinct within each question, given the new question's own answers are distinct |
| `Repository.AddQuestionIgnoresAnswers` | repositories/question.js:28-29 | whether a question is stored depends on its summary only; its answers are stored as given |
| `Repository.AddedQuestionIsFound` | repositories/question.js:28-31 | after a successful add, the lookup by the new id returns the question when no earlier question had the id, and the listing is the old one plus it at the end |
| `Repository.AddQuestionKeepsLookups` | repositories/question.js:29 | an append leaves every lookup that already succeeded unchanged |
| `Repository.AddQuestionTwiceIsRefused` | repositories/question.js:28-34 | for a summary that is not an object or array, adding the same question again returns null and writes nothing |
| `Repository.AddAnswerKeepsConsistent` | repositories/question.js:64-72 | adding an answer keeps question summaries distinct and keeps answer summaries distinct within every question |
| `Repository.AddedAnswerIsFound` | repositories/question.js:71-74 | after a successful add, the question's answers are the old ones plus the new one at the end, and the lookup by its id returns it when no earlier answer had that id |
| `Repository.AddAnswerKeepsOtherQuestions` | repositories/question.js:64-72 | every lookup of a question with a different id gives the same question and answers as before |
| `Repository.AddAnswerTwiceIsRefused` | repositories/question.js:66-69 | for a summary that is not an object or array, repeating an add that did not throw returns null and writes nothing |
| `Repository.AddQuestionAdmitsDuplicateAnswers` | repositories/question.js:28-29 | a question whose own two answers share a summary is stored, leaving the store without distinct answer summaries |
| `Repository.AddQuestionKeepsIdsDistinct` | repositories/question.js:28-31 | adding a question whose id no stored question has, and whose own answer ids are distinct, keeps all ids distinct |
| `Repository.AddAnswerKeepsIdsDistinct` | repositories/question.js:64-72 | adding an answer whose id no answer of its question has keeps all ids distinct |
| `Repository.ReusedQuestionIdIsHidden` | repositories/question.js:18-31 | a question reusing a stored id is still stored and returned, ids are then no longer distinct, and the lookup by that id still returns the older question |
| `Repository.ReusedAnswerIdIsHidden` | repositories/question.js:54-72 | an answer reusing an id of that question's answers, with a summary new to the question, is still stored and returned; ids are then no longer distinct, and the lookup by that id still returns the older answer |
| `Repository.MalformedQuestionIsStored` | repositories/question.js:28-31 | `{hello, notAnAnswer}` added to `[]` is stored and returned, contrary to the test at repositories/question.test.js:135-147 |
| `Repository.MalformedAnswerIsStored` | repositories/question.js:66-74 | `{hello, notAnAnswer}` added to a question with no answers is stored, contrary to the test at repositories/question.test.js:293-319 |
| `Repository.QuestionRepository.constructor` | repositories/question.js:3 | the repository starts from the given document |
| `Repository.QuestionRepository.GetQuestions` | repositories/question.js:4-11 | returns `QuestionsIn` of the document and writes nothing |
| `Repository.QuestionRepository.GetQuestionById` | repositories/question.js:13-21 | returns `QuestionWithId` of the document and writes nothing |
| `Repository.QuestionRepository.AddQuestion` | repositories/question.js:23-35 | the new document and the result are those of `AddQuestionTo` on the old document: an append on success, no change on null |
| `Repository.QuestionRepository.GetAnswers` | repositories/question.js:37-45 | returns `AnswersOf` of the document and writes nothing |
| `Repository.QuestionRepository.GetAnswer` | repositories/question.js:47-57 | returns `AnswerWithId` of the document, throws included, and writes nothing |
| `Repository.QuestionRepository.AddAnswer` | repositories/question.js:59-75 | the new document and the result are those of `AddAnswerTo` on the old document; nothing is written unless the answer is returned |
| `Handlers.AddQuestionKeepsValid` | index.js:51-54 | storing only validated questions keeps every stored question (and answer) valid |
| `Handlers.AddAnswerKeepsValid` | index.js:79-82 | appending only validated answers keeps every stored record valid |
| `Handlers.ValidationAdmitsDuplicateAnswers` | schemas/questionSchema.js:8 | a question whose two valid answers share a summary passes validation |
| `Handlers.GetQuestions` | index.js:33-36 | 404 exactly when the document is empty; otherwise 200 with the stored array, `[]` included |
| `Handlers.GetQuestionById` | index.js:38-41 | 200 with the first question having the id; 404 on empty content or when no question has it |
| `Handlers.AddQuestion` | index.js:43-56 | an invalid record gets 400 and the store is untouched; a valid one goes to the store and gets 201 with the question or with null on a duplicate; stored records stay valid; a fresh id is then found by lookup and keeps ids distinct |
| `Handlers.GetAnswersByQuestionId` | index.js:58-61 | 200 with the answers (an empty array included); 404 on empty content, a missing question, or a question stored without answers |
| `Handlers.GetAnswerByAnswerId` | index.js:63-69 | 200 with the first answer having the id; 404 on empty content or no such answer; no response exactly when the store throws, as for a missing question |
| `Handlers.AddAnswer` | index.js:71-84 | an invalid record gets 400 and the store is untouched; otherwise 201 with the answer, 400 with an empty body on null, no response on a throw; stored records stay valid and summaries distinct; an answer id unused within its question keeps ids distinct |

## Left out

- File I/O and JSON are not modelled. `readFile`, `writeFile`, `JSON.parse` and `JSON.stringify` are replaced by the abstract document `Doc`. A missing file makes `readFile` throw; that case, malformed JSON and write failures are not modelled.
- Only arrays of objects are modelled. A document that is not an array, array elements that are not objects, and an `answers` value that is present but not an array (null, a string, an object) cannot be written down. So for `ValidateQuestion` the "must be an array" rule is carried by the type, not checked.
- `Schemas.CheckUuid`: Joi's UUID pattern is not modelled. It is the parameter `isUuid`, and every result holds for any such test.
- Joi's error messages and its error object beyond the first failing path and reason are not modelled. The handlers use only whether validation failed.
- Concurrency is not modelled. The gap between the read and the write in `addQuestion` and `addAnswer`, where concurrent requests can lose an update, is out of scope. Each operation is treated as atomic.
- Id generation (`faker.datatype.uuid()`) is not modelled. The handlers take the id as a parameter.
- Express wiring, `body-parser`, `app.listen`, the `welcome` route and the repository middleware are not modelled. `middleware/repositories` is not part of this model.
- What happens to the process after an unhandled promise rejection is not modelled. A handler whose store call throws is modelled only as sending no response.
- Strict equality of numbers is modelled on their canonical JSON text. Objects and arrays are never strictly equal to one another.
- A handler whose store call throws is modelled as `Unanswered`. This assumes Express 4, where a rejected promise from an async handler reaches no error handler and nothing is sent. Express 5 would answer 500 instead. The source does not state the Express version.
- Update in place and aliasing are not modelled. The repository parses a fresh array from the file on each call, so no two calls share an array and no aliasing can be observed. The model builds the updated sequence as a new value.
