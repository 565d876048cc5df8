/** Small shared vocabulary: nullable values, the Java exceptions the services
    raise, and results that carry either a value or one of those exceptions. */
module Basics {

  /** A Java reference that may be null. */
  datatype Option<+T> = None | Some(value: T) {
    function GetOr(default: T): T {
      match this
      case Some(v) => v
      case None => default
    }
  }

  /** The exception classes the modelled code throws or lets escape. */
  datatype JavaException =
    | IllegalArgumentException
    | IllegalStateException
    | IndexOutOfBoundsException
    | RuntimeException

  /** The value a call returns, or the exception it throws. */
  datatype Result<+T> = Ok(value: T) | Err(error: JavaException)

  /** The outcome of a call declared `void`. */
  datatype Outcome = Done | Fail(error: JavaException)

  function Min(a: int, b: int): (m: int)
    ensures m <= a && m <= b
    ensures m == a || m == b
  {
    if a <= b then a else b
  }
}
