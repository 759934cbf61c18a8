/**
 * Outcome types shared by every part of the model.
 *
 * The library signals failures by raising exceptions from its own error
 * taxonomy (or, for crashes inside numpy, Python's built-in ones). The model
 * keeps only the kind of the failure, as a tag; messages, logging and
 * warnings are not modelled.
 */
module Outcomes {

  /** The kind of failure an operation ends with. */
  datatype Fault =
    | InputError               // a parameter outside its domain
    | DataError                // data that cannot be combined (conflicting dictionary keys)
    | ShapeMismatch(index: nat) // a combinator's DataError, naming the first offending mask
    | IndexError               // an index or slice of a numpy array that does not exist
    | AttributeError           // a call to a function that does not exist
    | TypeError                // an arithmetic operator applied to operands it does not accept

  datatype Option<+T> = None | Some(value: T)

  datatype Result<+T> = Ok(value: T) | Err(fault: Fault) {
    predicate IsFailure() { Err? }

    function PropagateFailure<U>(): Result<U>
      requires Err?
    {
      Err(fault)
    }

    function Extract(): T
      requires Ok?
    {
      value
    }
  }
}
