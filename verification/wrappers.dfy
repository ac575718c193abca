/** Failure-carrying results shared by every module of the model.

 The modelled program is written in a language with exceptions; here each
 exception that an operation can raise becomes an `Err` carrying a `Fault`
 that names the exception class.
 */
module Wrappers {

  datatype Option<+T> = None | Some(value: T)

  /** The exceptions the modelled operations raise. */
  datatype Fault =
    | RuntimeError        // the renderer met a node kind it does not know
    | AssertionError      // an `assert` statement of the source failed
    | IndexError          // a list was indexed past its end
    | KeyError            // a mapping lookup found no such key
    | EditReadOnlyBuffer  // the toolkit refused to write a read-only buffer

  datatype Result<+T> = Ok(value: T) | Err(fault: Fault) {

    predicate IsFailure() {
      Err?
    }

    function PropagateFailure<U>(): Result<U>
      requires Err?
    {
      Err(fault)
    }

    function Extract(): T
      requires Ok?
    {
      value
    }
  }
}
