/** The value types the two study tools work on: the records the generation
    service hands back, and the optional value used for "nothing selected". */
module Types {

  /** A value that may be absent; stands for TypeScript's `T | null`. */
  datatype Option<+T> = None | Some(value: T)

  /** One card of a generated deck (types.ts:21-26). */
  datatype Flashcard = Flashcard(id: string, front: string, back: string, category: string)

  /** One multiple-choice question of a generated quiz (types.ts:28-34).
      Neither the number of options nor the range of the answer index is
      checked by the application, so neither is constrained here. */
  datatype QuizQuestion = QuizQuestion(
    id: string,
    question: string,
    options: seq<string>,
    correctAnswerIndex: int,
    explanation: string)
}
