/** Option and Result: the nullable references and the exceptions of the services. */
module Wrappers {

  /** `null` / a value, as the services' nullable returns and nullable inputs. */
  datatype Option<+T> = None | Some(value: T) {
    function GetOr(default: T): T {
      match this
      case Some(v) => v
      case None => default
    }
  }

  /** A normal return, or the InvalidOperationException a service throws. */
  datatype Result<+R, +E> = Success(value: R) | Failure(error: E)
}
