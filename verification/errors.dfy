/** Error values shared by the app, postgres and server packages, and the
    Option/Result wrappers used for Go's multi-value returns. */
module Errors {

  datatype Option<+T> = None | Some(value: T)

  /** A Go `(T, error)` pair where exactly one side is meaningful. */
  datatype Result<+T> = Ok(value: T) | Err(error: Error)

  /** The six sentinel errors of the app package. */
  datatype ErrorKind =
    | DuplicateEmail
    | NotFound
    | UnAuthorized
    | Internal
    | ImageAlreadySaved
    | ImageNotSaved

  /** An error as the Go code sees it: one of the app sentinels, or an error
      produced by the database driver, known to the code only by its text. */
  datatype Error = App(kind: ErrorKind) | Driver(message: string)

  /** The text `errors.New` gave each sentinel. */
  function KindText(k: ErrorKind): string
  {
    match k
    case DuplicateEmail => "duplicate email"
    case NotFound => "record not found"
    case UnAuthorized => "unauthorized"
    case Internal => "internal error"
    case ImageAlreadySaved => "image already in collection"
    case ImageNotSaved => "image not in collection"
  }

  /** `err.Error()`. */
  function Text(e: Error): string
  {
    match e
    case App(k) => KindText(k)
    case Driver(m) => m
  }

  /** Driver texts the code compares against or that the store produces. */
  const UsersEmailKey := "pq: duplicate key value violates unique constraint \"users_email_key\""
  const CollectionNameUserKey := "pq: duplicate key value violates unique constraint \"collection_name_user_key\""
  const NoRowsMessage := "sql: no rows in result set"
  const FailedTransactionMessage := "pq: Could not complete operation in a failed transaction"
  const AbortedTransactionMessage := "pq: current transaction is aborted, commands ignored until end of transaction block"

  /** The switch after a failed INSERT: the one constraint-violation text
      becomes the duplicate sentinel, every other error is passed on as is. */
  function ClassifyInsertError(e: Error, violation: string): (r: Error)
    ensures Text(e) == violation ==> r == App(DuplicateEmail)
    ensures Text(e) != violation ==> r == e
    ensures r == App(DuplicateEmail) <==> (Text(e) == violation || e == App(DuplicateEmail))
  {
    if Text(e) == violation then App(DuplicateEmail) else e
  }
}
