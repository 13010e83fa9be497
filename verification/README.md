# Trace study tools: quiz and flashcard state machines

This project models the two pieces of logic the Trace study-aid application
decides for itself: the adaptive quiz view and the flashcard deck view. Each is
a React component whose state is a handful of `useState` hooks changed by event
handlers. Here each view is an immutable `State` record. Each handler is a pure
function from one state to the next.

- `types.dfy`: the `Flashcard` and `QuizQuestion` records and an `Option` type for "nothing selected".
- `generation.dfy`: the generation service as the views see it. Every call yields
  an `Outcome`: the decoded list, possibly empty, or `Failed`. `Receive` models how
  the service turns the provider's reply into that outcome. An empty response text
  becomes the empty list, while a provider or decoding error is rethrown.
- `quiz.dfy` (module `Quiz`): `handleStart`, `handleOptionClick`, `handleSubmitAnswer`,
  `handleNext` and "Take Another Quiz". The render guards are written as `Enabled`.
  `Run` replays any sequence of actions the page allows. The invariant `Inv` holds
  after every such sequence: the position is in range, the score is at most the
  number of questions answered, and a finished quiz sits on its last question, answered.
- `flashcards.dfy` (module `Flashcards`): `handleGenerate`, `handleNext`, `handlePrev`,
  the card flip and "New Deck". `Enabled`, `Run` and `Inv` work the same way. The
  invariant guarantees that the card the page reads is in range whenever the card
  screen is shown.

Every awaited generation call is collapsed into a single transition, and the
service's answer is a parameter of the handler. So `loading` is false after every
transition. After a failed generation both views show the form they started
from again:
- The flashcard view returns exactly to its pre-request state. The form is only
  shown with an empty deck (components/Flashcards.tsx:51), so clearing the deck
  (components/Flashcards.tsx:17) changes nothing there.
- The quiz shows the start form again, but its hidden score, position and
  completion flag stay reset (components/Quiz.tsx:21-23).

## Model

| member | source | states |
|---|---|---|
| Generation.Receive | services/geminiService.ts:144-151 | a falsy response text yields the empty list, not an error; the call fails exactly on a provider error or an undecodable non-empty text; a non-empty result is the decoded list itself |
| Generation.ReceiveKeepsDecodedList | services/geminiService.ts:96-99 | a non-empty text that decodes reaches the caller unchanged, in the provider's order |
| Quiz.Start | components/Quiz.tsx:17-33 | an empty topic changes nothing; otherwise score, position and completion are reset, the selection and answered flag carry over, questions become the generated list or stay as they were on failure, and loading ends false |
| Quiz.ClickOption | components/Quiz.tsx:35-38 | a click after answering is a no-op; before answering it selects the clicked index and changes nothing else |
| Quiz.Submit | components/Quiz.tsx:40-47 | with no selection it is a no-op; otherwise the question becomes answered, the score rises by exactly one iff the selection equals the correct index and is otherwise unchanged, and nothing else changes |
| Quiz.Next | components/Quiz.tsx:49-56 | before the last question the position moves on by one with selection cleared, answered flag false and score kept; on the last question only the completion flag is set |
| Quiz.TakeAnother | components/Quiz.tsx:142 | the question list is emptied, nothing else changes, and the start form is shown again |
| Quiz.InitialInv | components/Quiz.tsx:9-15 | the first-render state satisfies the quiz invariant |
| Quiz.StepPreservesInv | components/Quiz.tsx:17-56 | every transition the page allows keeps the position in range and the score at most the count of answered questions |
| Quiz.RunPreservesInv | components/Quiz.tsx:59-222 | the invariant holds after any sequence of allowed user actions |
| Quiz.QuestionReadInRange | components/Quiz.tsx:152 | whenever the question view is on screen, after any user history, the read of the current question is in range |
| Quiz.FinalScoreWithinTotal | components/Quiz.tsx:132 | the summary's "score out of total" always has 0 <= score <= total |
| Quiz.PlayingKeepsQuiz | components/Quiz.tsx:35-56 | within one quiz (clicks, submissions, next) the question list never changes, the position never moves back, and the score never falls and rises by at most one per submission |
| Quiz.CurrentQuestion | components/Quiz.tsx:152-163 | under the invariant the question shown is one of the quiz's questions |
| Quiz.AnswerScoresIffCorrect | components/Quiz.tsx:35-47 | picking option i then submitting answers the question with selection i and adds one to the score iff i is the correct index |
| Quiz.NextLabelMatchesNext | components/Quiz.tsx:219 | the button reads "Next Question" iff pressing it shows another question, and "Finish Quiz" iff it shows the summary |
| Quiz.NextQuizOpensAnswered | components/Quiz.tsx:21-23 | after any completed quiz the page offers "Take Another Quiz" and then the start form, and starting another quiz from there opens its first question already answered, with Submit and every option button unavailable |
| Quiz.FirstQuizCanBeFinished | components/Quiz.tsx:206-221 | a one-question quiz can be started, answered and finished, so the premise above is reachable |
| Quiz.StartFresh | components/Quiz.tsx:17-33 | corrected start: like the source's, but the selection is cleared and the answered flag is false |
| Quiz.StartFreshForgetsPreviousQuiz | components/Quiz.tsx:21-23 | with the corrected start, a quiz begun from the start form equals the one begun from the first-render state |
| Quiz.StartFreshOpensUnanswered | components/Quiz.tsx:21-23 | with the corrected start, a non-empty quiz opens on an unanswered first question whose options can all be clicked, and the invariant holds |
| Flashcards.Generate | components/Flashcards.tsx:13-28 | an empty topic changes nothing; a generated deck replaces the old one, opened face up on card 0; on failure the deck is empty and position and face are unchanged; loading ends false |
| Flashcards.Next | components/Flashcards.tsx:30-35 | before the last card it moves forward by one and unflips; on or past the last card nothing changes |
| Flashcards.Prev | components/Flashcards.tsx:37-42 | after the first card it moves back by one and unflips; on the first card nothing changes |
| Flashcards.Flip | components/Flashcards.tsx:97 | the face toggles and nothing else changes |
| Flashcards.NewDeck | components/Flashcards.tsx:88 | the deck is emptied, the position and everything else are untouched, and the creation form returns |
| Flashcards.InitialInv | components/Flashcards.tsx:8-11 | the first-render state satisfies the deck invariant |
| Flashcards.StepPreservesInv | components/Flashcards.tsx:13-42 | every transition the page allows keeps the position inside a non-empty deck |
| Flashcards.RunPreservesInv | components/Flashcards.tsx:51-142 | the deck invariant holds after any sequence of allowed user actions |
| Flashcards.CardReadInRange | components/Flashcards.tsx:103-110 | whenever the card screen is shown, after any user history, the front and back reads are in range |
| Flashcards.BrowsingKeepsDeck | components/Flashcards.tsx:30-97 | next, previous and flip never change the deck or the loading flag, and move the position by at most one per action |
| Flashcards.ShownCard | components/Flashcards.tsx:103-110 | under the invariant the card shown is one of the deck's cards |
| Flashcards.DisabledButtonsAreNoOps | components/Flashcards.tsx:115-140 | on the card screen the next button is disabled iff handleNext would do nothing, and the previous button iff handlePrev would |
| Flashcards.PrevUndoesNext | components/Flashcards.tsx:30-42 | going forward and then back returns to the same card, face up |
| Flashcards.NextUndoesPrev | components/Flashcards.tsx:30-42 | going back and then forward returns to the same card, face up |
| Flashcards.FlipTwiceIsIdentity | components/Flashcards.tsx:97 | flipping twice restores the state |
| Flashcards.FailedGenerateRestores | components/Flashcards.tsx:13-28 | a failed generation started from the creation form leaves the whole state exactly as it was before the request |
| Flashcards.EmptyDeckShowsCreateForm | components/Flashcards.tsx:16-27 | an empty generated deck and a failed call both return to the creation form |

## Left out

- Prompt construction, the response schemas and the provider call in services/geminiService.ts: a remote, non-deterministic service. The model sees it only through `Outcome`, and `Receive` models how its reply becomes an outcome. `JSON.parse` is given as the reply's `decoded` part.
- Generation.Receive: the source's `JSON.parse(response.text) as QuizQuestion[]` (services/geminiService.ts:145, likewise :97) is a type cast that checks nothing at runtime. A non-empty text that parses to a non-array (`{}`, `null`) or to records missing `options`, `front` or `back` is returned as a success, and the view then throws while rendering. The model does not represent such replies: `decoded` is either a well-typed list or a decoding failure, so the provider's response schema is trusted. The in-range lemmas (Quiz.QuestionReadInRange, Flashcards.CardReadInRange) rely on that trust.
- The study planner (components/Planner.tsx), the dashboard (components/Dashboard.tsx), the layout and view switching (components/Layout.tsx, App.tsx): form pass-through, mock data and rendering, with no logic of their own.
- The `loading` spinner while a call is in flight, and async interleaving: each handler's await is collapsed into one transition, so only "loading is false afterwards" is modelled.
- Flashcards.Next: the 150 ms `setTimeout` before the index changes (components/Flashcards.tsx:33, 40) is modelled as an immediate update. The race it opens is not modelled: two clicks on "next" before the timeout fires both pass the guard and can move the index past the last card. That is timing behaviour outside this sequential model.
- Flashcards.Prev: same treatment of the delayed update, for the same reason.
- The `alert()` on failure, the topic and difficulty inputs, and the question count passed to the service: side effects and form fields that only reach the model through the handler's arguments.
- The CSS classes chosen per option (components/Quiz.tsx:168-180) and the flip animation: presentation only.
- The progress bar width `(score / questions.length) * 100` (components/Quiz.tsx:137): floating point. Its operands are covered by Quiz.FinalScoreWithinTotal.
- The "Still learning" and "Got it" buttons (components/Flashcards.tsx:127-132): they have no handlers.

## Findings

| source | as written | input that shows it | evidently intended | confidence | as-written member | corrected member |
|---|---|---|---|---|---|---|
| components/Quiz.tsx:17-33 | `handleStart` resets score, position and completion but not `isAnswered` or `selectedOption`; a quiz can only be finished from an answered question | finish any quiz, press "Take Another Quiz", start a new one: question 1 is shown already answered, with the old selection and no Submit button, so it can never score | a new quiz starts with nothing selected and nothing answered | high; not executed | Quiz.NextQuizOpensAnswered | Quiz.StartFresh |

The transition relation `Quiz.Step` uses the start handler as written, so the
invariant lemmas describe the application's real behaviour. The corrected
`Quiz.StartFresh` is proved to keep the same invariant
(`Quiz.StartFreshOpensUnanswered`) and to forget earlier quizzes
(`Quiz.StartFreshForgetsPreviousQuiz`).
