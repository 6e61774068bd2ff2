/** Names that every part of the kernel uses. */
module Common {
  /** STATUS_OK and STATUS_ERROR. */
  datatype Status = Ok | Error

  datatype Option<T> = None | Some(value: T)

  const MAX_TASKS: nat := 256
}
