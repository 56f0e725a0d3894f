/** Success/failure values standing in for the C++ exceptions of the feed core. */
module Failures {

  datatype Option<+T> = None | Some(value: T)

  /** Why an extraction, a fetch or a construction failed. The message text of the
      exceptions rss.cpp throws is not modelled, only which kind of failure occurred. */
  datatype Error =
    | MissingElement(element: string)      // REQUIRENODE found no child of that name
    | MissingAttribute(attribute: string)  // REQUIREATTRIB found no attribute of that name
    | EmptyNode                            // an item was built from a null node
    | EmptyDocument                        // a channel was built from a null document
    | FetchFailed                          // HTTP GET failed or the body was not XML
    | DecodeFailed                         // the image could not be fetched or decoded
    | Diverged                             // cleanHTML loops forever: no exception, nothing catches it

  datatype Result<+T> = Ok(value: T) | Err(error: Error) {
    predicate IsFailure() { Err? }

    function PropagateFailure<U>(): Result<U>
      requires Err?
    {
      Err(error)
    }

    function Extract(): T
      requires Ok?
    {
      value
    }
  }
}
