/** Identifiers and embedded comments, shared by every model and route. */
module Common {

  datatype Option<T> = None | Some(value: T)

  /** Document ids (MongoDB ObjectIds) are drawn from one space of naturals. */
  type UserId = nat
  type QuestionId = nat
  type AnswerId = nat

  /** A comment embedded in a question or an answer; its creation timestamp is not modelled. */
  datatype Comment = Comment(content: string, author: UserId)
}
