/** The error codes the services throw, one datatype per Java error-code enum, and the
    runtime exceptions of the JDK and of Spring that the modelled code can let escape. */
module Errors {

  /** CommentErrorCode */
  datatype CommentErrorCode = CommentNotFound | ParentNotFound | ParentMismatch | ForbiddenNotAuthor | CommentMemberNotFound

  /** OotdErrorCode */
  datatype OotdErrorCode = OotdNotFound | IoFail | OotdMemberNotFound

  /** HashtagErrorCode */
  datatype HashtagErrorCode = TooManyHashtags | HashtagNotFound | BlankExist | ReturnFail

  /** MemberErrorCode */
  datatype MemberErrorCode =
    | MemberNotFound
    | EmailAlreadyExists
    | NicknameAlreadyExists
    | EmailNotVerified
    | InvalidPassword
    | SameAccountScope
    | SamePassword
    | InvalidImageFile
    | ImageFileTooLarge
    | InvalidImageFormat
    | SameNickname
    | EmailVerificationCodeInvalid
    | EmailVerificationCodeExpired
    | EmailVerificationFailed
    | EmailSendFailed

  /** AuthErrorCode (the members the modelled code throws) */
  datatype AuthErrorCode = InvalidCredentials | AuthMemberNotFound | AuthEmailNotVerified | InvalidToken | RefreshTokenMismatch

  /** FailureCode (the one member the modelled code throws) */
  datatype FailureCode = JwtInvalidToken

  /** Exceptions that do not come from an error-code enum. */
  datatype RuntimeError =
    | DuplicateLink          // unique-constraint violation on comment_closure(ancestor_id, descendant_id)
    | IllegalArgument        // PageRequest.of with a page size below one
    | DateTimeOutOfRange     // LocalDateTime.of with a field out of range
    | NumberFormat           // Long.valueOf on a digit string above Long.MAX_VALUE
    | NullReference           // a method called on a null reference
    | IncorrectResultSize    // an Optional-returning query that matched several rows

  /** Any exception a modelled call can end with. */
  datatype Failure =
    | CommentErr(comment: CommentErrorCode)
    | OotdErr(ootd: OotdErrorCode)
    | HashtagErr(hashtag: HashtagErrorCode)
    | MemberErr(member: MemberErrorCode)
    | AuthErr(auth: AuthErrorCode)
    | GeneralErr(general: FailureCode)
    | RuntimeErr(runtime: RuntimeError)
}
