/** Results of operations that can fail, and the ways in which they do. */
module Outcomes {
  datatype Option<+T> = None | Some(value: T)

  datatype Fault =
    | Overflow
    | InvalidRange
    | NoAnchor
    | RawEarlierThanAnchor
    | AnchorExpired
    | TokenMismatch
    | AssuranceConflict
    | BoundTooWide
    | InsufficientVotes
    | EmptyCoverage
    | RawChanged
    | WrongLeapHistory
    | InvalidSecondOfDay
    | NanosOutOfRange
    | NoLeapRecorded
    | AmbiguousSecond
    | DuplicateTransition
    | UnsortedTransitions
    | InvalidDelta
    | InvalidMagic
    | LengthMismatch
    | ReservedNonzero
    | NonChronological
    | ServerTimeReversal
    | TurnaroundExceeded
    | RootDistanceExceeded
    | MalformedExtension
    | InvalidHeader
    | InvalidCookie
    | PacketTooLarge
    | NegativeCount
    | InvalidAead
    | MissingAuthenticator
    | AuthenticatorNotLast
    | MissingUniqueId
    | UniqueIdMismatch
    | AuthenticatorTooShort
    | AuthenticationFailed
    | TrailingBytes
    | RecordTooShort
    | RecordCapExceeded
    | TruncatedRecord
    | InvalidRecord
    | IncompleteResponse
    | UnsupportedAlgorithm
    | ServerReportedError
    | ServerReportedWarning
    | UnknownCriticalRecord
    | InvalidServerName

  datatype Result<+T> = Success(value: T) | Failure(error: Fault) {
    predicate IsFailure() {
      Failure?
    }

    function PropagateFailure<U>(): Result<U>
      requires Failure?
    {
      Failure(error)
    }

    function Extract(): T
      requires Success?
    {
      value
    }
  }
}
