/** Option and Result values for lookups that can miss and transitions that can fail. */
module Wrappers {

  /** A value that may be absent (Python's `None`). */
  datatype Option<+T> = None | Some(value: T)

  /** Why a transition or handler raised instead of producing a new state. */
  datatype Error =
    | CardNotFound        // a card order looked up in a hand is not there
    | PossiblyUseful      // a discarded card was believed useful
    | UnexpectedDiscard   // the discarded card is missing from the pending-discard list
    | EmptyClue           // `max()` of an empty touched-order list
    | IndexOutOfRange     // a list index past the end of a hand, or a missing table key
    | NotAClue            // a clue check on an action that carries no clue
    | MissingMethod       // a method called on a state object whose class does not define it

  /** The outcome of an operation that may raise; usable with `:-`. */
  datatype Result<+T> = Ok(value: T) | Err(error: Error) {

    predicate IsFailure() {
      Err?
    }

    function PropagateFailure<U>(): Result<U>
      requires Err?
    {
      Err(error)
    }

    function Extract(): T
      requires Ok?
    {
      value
    }
  }
}
