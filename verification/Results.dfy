/** Status codes and the success-or-error results that the operations return. */
module Results {
  datatype Option<+T> = None | Some(value: T)

  datatype Status =
    | InvalidArgument
    | NotFound
    | AlreadyExists
    | FailedPrecondition
    | Aborted
    | ResourceExhausted
    | Internal

  datatype Result<+T> = Ok(value: T) | Err(status: Status)
}
