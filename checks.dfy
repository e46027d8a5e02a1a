/**
 * The error conditions the initializer code can raise, and the small
 * failure-carrying datatypes the rest of the model returns instead of raising.
 */
module Checks {

  /** The exceptions raised on the modelled paths. */
  datatype Error =
    /** Python's ZeroDivisionError, from `size % 0` in the divisibility test of block_orthogonal. */
    | ZeroDivision
    /** ConfigurationError: a tensor dimension is not divisible by its split size; carries both lists. */
    | IndivisibleSizes(sizes: seq<nat>, splitSizes: seq<int>)
    /** ConfigurationError: a name (or `type` value) that is not a registered initializer. */
    | UnknownInitializer(name: string)
    /** ConfigurationError: a configuration object without the required key. */
    | MissingKey(key: string)

  /** A computation that returns a value or raises. */
  datatype Result<+T> = Ok(value: T) | Err(error: Error)

  /** A computation that returns nothing useful or raises. */
  datatype Outcome = Pass | Fail(error: Error)

  datatype Option<+T> = None | Some(value: T)
}
