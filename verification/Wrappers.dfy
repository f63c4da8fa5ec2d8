/** Option and Result, standing for the source's nullable columns and (value, error) returns; and what
    becomes of a statement that writes: it is executed, it fails, or it is executed although the program is
    told that it failed. */
module Wrappers {
  datatype Option<+T> = None | Some(value: T) {
    function UnwrapOr(default: T): T { if Some? then value else default }
  }

  datatype Result<+T> = Failure | Success(value: T)

  datatype Outcome = Applied | NotApplied | Unreported
}
