/** Outcomes shared by every module: an optional value, and a value or the
    exception the Python code would raise instead. */
module Wrappers {

  datatype Option<T> = None | Some(value: T)

  /** The exceptions the modelled code raises: the built-in ones it runs into
      and the package's own error classes. */
  datatype Exception =
    | ValueError
    | IndexError
    | KeyError
    | TypeError
    | AttributeError
    | TooManyContactsError
    | OutOfRangeError
    | OurNodeCannotBeAContactError
    | AllKBucketsAreEmptyError
    | BucketDoesNotContainContactToEvictError
    | ValueCannotBeNoneError
    | SendingQueryToSelfError
    | BucketFullException  // the bare Exception("Bucket full.") of DHT.py

  datatype Result<T> = Ok(value: T) | Err(error: Exception)
}
