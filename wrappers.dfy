/** Failure-compatible result types shared by the scraper and the wrapper,
    and the kinds of exception the modelled Python code can raise. */
module Wrappers {

  datatype Option<+T> = None | Some(value: T)

  /** The Python exceptions the core raises, by kind. */
  datatype Error =
    | KeyError(key: string)        // a dict lookup of a missing key
    | IndexError                   // a list index past the end
    | ValueError(text: string)     // int() of a string that is not an integer
    | MissingElement(tag: string)  // BeautifulSoup's find() returned None and the code used the result

  datatype Result<+T> = Ok(value: T) | Err(error: Error) {
    predicate IsFailure() { Err? }

    function PropagateFailure<U>(): Result<U>
      requires Err?
    {
      Err(error)
    }

    function Extract(): T
      requires Ok?
    {
      value
    }
  }

  /** The outcome of an operation that only changes state. */
  datatype Outcome = Pass | Fail(error: Error) {
    predicate IsFailure() { Fail? }

    function PropagateFailure(): Outcome
      requires Fail?
    {
      this
    }
  }
}
