/** Optional values and the failures the reconciliation service reports. */
module Common {

  /** A Java reference that may be null. */
  datatype Option<+T> = None | Some(value: T)

  /** The exceptions the service raises, one constructor per kind.
      NullValue stands for an unchecked null dereference in the service itself,
      which the application reports as an internal error. */
  datatype Error =
    | EmptyValue      // EmptyValueException
    | NotFound        // MovieNotFoundException
    | AlreadyExists   // MovieAlreadyExistsException
    | NoChanges       // NoChangesException
    | ProviderError   // an exception thrown by the HTTP client and not caught
    | NullValue       // a NullPointerException

  datatype Result<+T> = Ok(value: T) | Err(error: Error)
}
