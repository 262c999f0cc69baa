/** The shape of an HTTP reply and the messages the routes send. */
module Replies {
  import opened EmailFormat

  /** Every `message` and validator message the routes send; `Text` gives the exact wording. */
  datatype Message =
    // request validators
    | NameRequired | EnterValidEmail | PasswordTooShort | PasswordRequired
    | TitleRequired | ContentRequired | TagsNotArray | TitleEmpty | ContentEmpty
    | CommentRequired | InvalidVoteType | QuestionIdRequired
    // account routes
    | UserExists | EmailRejected(value: string) | Registered | UserNotFound | NoOtp
    // both the verify-email validator and the code comparison
    | InvalidOtp
    | OtpExpired | InvalidCredentials | VerifyFirst | AlreadyVerified | SendFailed | OtpSent
    // content routes
    | QuestionNotFound | AnswerNotFound | NotAuthorizedEditQuestion | NotAuthorizedDeleteQuestion
    | QuestionDeleted | NotAuthorizedEditAnswer | NotAuthorizedDeleteAnswer | AnswerDeleted
    | OnlyQuestionAuthor

  function Text(m: Message): string
  {
    match m
    case NameRequired => "Name is required"
    case EnterValidEmail => "Please enter a valid email"
    case PasswordTooShort => "Password must be at least 6 characters long"
    case PasswordRequired => "Password is required"
    case TitleRequired => "Title is required"
    case ContentRequired => "Content is required"
    case TagsNotArray => "Tags must be an array"
    case TitleEmpty => "Title cannot be empty"
    case ContentEmpty => "Content cannot be empty"
    case CommentRequired => "Comment content is required"
    case InvalidVoteType => "Invalid vote type"
    case QuestionIdRequired => "Question ID is required"
    case UserExists => "User already exists"
    case EmailRejected(value) => Rejection(value)
    case Registered => "Registration successful. Please verify your email."
    case UserNotFound => "User not found"
    case NoOtp => "No OTP found. Please request a new one."
    case InvalidOtp => "Invalid OTP"
    case OtpExpired => "OTP has expired"
    case InvalidCredentials => "Invalid credentials"
    case VerifyFirst => "Please verify your email first"
    case AlreadyVerified => "Email is already verified"
    case SendFailed => "Error sending verification email"
    case OtpSent => "New OTP sent successfully"
    case QuestionNotFound => "Question not found"
    case AnswerNotFound => "Answer not found"
    case NotAuthorizedEditQuestion => "Not authorized to edit this question"
    case NotAuthorizedDeleteQuestion => "Not authorized to delete this question"
    case QuestionDeleted => "Question deleted successfully"
    case NotAuthorizedEditAnswer => "Not authorized to edit this answer"
    case NotAuthorizedDeleteAnswer => "Not authorized to delete this answer"
    case AnswerDeleted => "Answer deleted successfully"
    case OnlyQuestionAuthor => "Only the question author can accept an answer"
  }

  /** What a route handler sends back.
      - Ok: a 200 or 201 with a JSON body;
      - Done: a 200 whose body is only `{ message }`;
      - Invalid: the 400 `{ errors }` produced by the request validators, one message per failed check, in order;
      - Fail: any other status with `{ message }`. */
  datatype Reply<T> =
    | Ok(status: nat, body: T)
    | Done(message: Message)
    | Invalid(errors: seq<Message>)
    | Fail(status: nat, message: Message)

  /** One request validator: contributes its message when its check fails. */
  function Check(ok: bool, m: Message): (errors: seq<Message>)
    ensures errors == [] <==> ok
  {
    if ok then [] else [m]
  }

  /** The vote routes' validator: `voteType` must be one of "upvote" and "downvote". */
  function VoteTypeErrors(voteType: string): (errors: seq<Message>)
    ensures errors == [] <==> voteType == "upvote" || voteType == "downvote"
  {
    Check(voteType == "upvote" || voteType == "downvote", InvalidVoteType)
  }
}
