/**
 What a step of the program can come to.
 */
module Outcomes {

  datatype Option<+T> = None | Some(value: T)

  /**
   A call returns, or runs forever, or reads or writes memory that is not its own, or hands the standard
   library something for which the library promises no result. What the last three leave behind is not
   described any further.
   */
  datatype Outcome<+T> = Returned(value: T) | Hangs | Corrupts | Undefined {

    predicate IsFailure() {
      !Returned?
    }

    function PropagateFailure<U>(): Outcome<U>
      requires IsFailure()
    {
      match this
      case Hangs => Hangs
      case Corrupts => Corrupts
      case Undefined => Undefined
    }

    function Extract(): T
      requires !IsFailure()
    {
      value
    }

    /** How it ends, without what it returns. */
    function Ending(): Outcome<()> {
      if Returned? then Returned(()) else PropagateFailure()
    }
  }
}
