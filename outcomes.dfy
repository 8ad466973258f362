/** Option and Result wrappers, and the failures the document helper can raise. */
module Outcomes {

  /** A value that may be absent; stands for a nullable reference. */
  datatype Option<+T> = None | Some(value: T)

  /** The exceptions the helper raises, one constructor per distinct cause. */
  datatype Error =
    /** No argument of the handler carries an HTTP trigger marker. */
    | MissingHttpTrigger
    /** The handler carries no function-name marker. */
    | MissingFunctionName
    /** The handler carries no operation marker, so reading its id dereferences null. */
    | MissingOperationMarker
    /** `First()` was asked for the first element of an empty method list. */
    | EmptyMethodList
    /** The first declared HTTP method names no operation type. */
    | UnknownVerb(declared: string)
    /** `ToDictionary` met the same key twice. */
    | DuplicateKey

  /** The outcome of an operation that either returns a value or throws. */
  datatype Result<+T> = Ok(value: T) | Err(error: Error)
}
