/** Outcomes of the service calls: either a value, or the exception the
    Java code throws, reduced to the information a caller can observe. */
module Errors {

  /** The business error codes raised through BusinessException. */
  datatype ErrorCode =
    | BoardNotFound
    | ColumnNotFound
    | WorkspaceNotFound
    | DeletedWorkspace
    | AlreadyActivatedWorkspace
    | UserNotFound
    | UserDoesNotBelongToWorkspace
    | InvalidInviteCode

  /** A BusinessException carrying its code, the IllegalArgumentException
      the legacy column service throws, or the
      IncorrectResultSizeDataAccessException a single-result repository
      query throws when more than one row matches. */
  datatype Failure = Business(code: ErrorCode) | IllegalArgument | IncorrectResultSize

  datatype Result<+T> = Ok(value: T) | Err(failure: Failure)

  datatype Option<+T> = None | Some(value: T)
}
