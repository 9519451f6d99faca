/**
 * The error kinds of result.hpp: two category structs and the six empty
 * structs derived from them, plus any other struct a caller chooses to store
 * in an Error (the set of kinds is open).
 */
module Kinds {

  import opened Options

  datatype Kind =
    | LogicError
    | InvalidArgument
    | Length
    | OutOfRange
    | DivideByZero
    | RuntimeError
    | Range
    | Overflow
    | Other(id: nat)

  /** The struct a kind derives from, if any; the hierarchy is one level deep. */
  function Base(k: Kind): (b: Option<Kind>)
    ensures b.Some? ==> b.value != k
    ensures b.Some? ==> b.value == LogicError || b.value == RuntimeError
    ensures k == LogicError || k == RuntimeError ==> b.None?
    ensures b == Some(LogicError) <==> k in {InvalidArgument, Length, OutOfRange, DivideByZero}
    ensures b == Some(RuntimeError) <==> k in {Range, Overflow}
  {
    match k
    case InvalidArgument | Length | OutOfRange | DivideByZero => Some(LogicError)
    case Range | Overflow => Some(RuntimeError)
    case _ => None
  }
}
