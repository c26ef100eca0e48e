/** Option and Result, the two failure-compatible wrappers the model uses. */
module Wrappers {

  datatype Option<+T> = None | Some(value: T)

  datatype Result<+T, +E> = Success(value: T) | Failure(error: E) {

    predicate IsFailure() {
      Failure?
    }

    function PropagateFailure<U>(): Result<U, E>
      requires Failure?
    {
      Failure(error)
    }

    function Extract(): T
      requires Success?
    {
      value
    }
  }
}

/** The Python exceptions the modelled code raises or catches. */
module PyExceptions {

  import Wrappers

  datatype Exception =
    | KeyError(first: string, second: string)  // KeyError(content, key) or KeyError(name, version)
    | AttributeError                           // an attribute looked up on None
    | IndexError                               // list index out of range
    | URLError(url: string)                    // urlopen could not open the URL
    | DecodeError(url: string)                 // decompressing or UTF-8 decoding a response failed
    | TypeError                                // None passed where a string is joined

  /** What `except KeyError:` catches, whatever the arguments. */
  predicate IsKeyError<T>(r: Wrappers.Result<T, Exception>) {
    r.Failure? && r.error.KeyError?
  }
}
