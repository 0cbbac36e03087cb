/** Option and Result, and the exceptions the router raises, as values. */
module Wrappers {

  datatype Option<+T> = None | Some(value: T) {
    function GetOr(default: T): T {
      match this
      case Some(v) => v
      case None => default
    }
  }

  datatype Result<+R, +E> = Ok(value: R) | Err(error: E)

  /** Which rule a conflict message names, and where the conflicting rule lives. */
  datatype ConflictMessage =
    | InTable(ruleName: string, tableName: string, conflictName: string)
    | InRouteSet(ruleName: string, conflictName: string)

  /** The .NET exceptions the router throws; the parameter names are the source's
      ("" when the exception carries none). */
  datatype Error =
    | ArgumentNull(param: string)
    | Argument(param: string)
    | ArgumentOutOfRange(param: string)
    | Format
    | KeyNotFound
    | NullReference
    | InvalidCast
    | InvalidOperation(message: ConflictMessage)
}
