/** Outcome types shared by the whole model. The source signals failures with
    Python exceptions; here each exception becomes an `Error` value. */
module Common {

  datatype Option<+T> = None | Some(value: T)

  /** The exceptions raised by the modelled code. */
  datatype Error =
    | ExpiryNotAscending        // RuntimeError: option prices not in ascending expiry order
    | ExpiryNotFound            // RuntimeError: expiry does not match any quote expiry
    | NotFiltered               // RuntimeError: bounds requested before `filter` ran
    | QuoteAlreadyFeasible      // RuntimeError: adjust is only meant for infeasible quotes
    | LookupFailed              // ValueError from the `find_lt` / `find_gt` / `find_le` lookups
    | UnhandledInterpolationType // RuntimeError: only linear interpolation is built
    | MissingAttribute          // AttributeError: a method the object does not define
    | LowerBoundMoneynessTooHigh // calendar filter: implied lower bound exceeds the upper bound
    | PreviousPremiumTooHigh    // calendar filter: an earlier premium exceeds the scaled upper bound
    | IndexOutOfRange           // IndexError: a list position past the end
    | UnhandledFilterType       // RuntimeError: no filter is built for the requested type
    | DivisionByZero            // ZeroDivisionError
    | UnexpectedKeyword         // TypeError: a keyword argument the callee does not take

  datatype Result<+T> = Ok(value: T) | Err(error: Error) {
    predicate IsFailure() { Err? }

    function PropagateFailure<U>(): Result<U>
      requires Err?
    {
      Err(error)
    }

    function Extract(): T
      requires Ok?
    {
      value
    }
  }

  function Max(a: real, b: real): (r: real)
    ensures r >= a && r >= b
    ensures r == a || r == b
  {
    if b > a then b else a
  }

  function Abs(x: real): (r: real)
    ensures r >= 0.0
    ensures r == x || r == -x
  {
    if x < 0.0 then -x else x
  }
}
