/** The optional-value wrapper used wherever index.ts returns
    `null`/`undefined` or a regular-expression match may be missing. */
module Wrappers {

  datatype Option<+T> = None | Some(value: T) {

    /** The `??` operator of index.ts: this value, or `default` when absent. */
    function GetOr(default: T): T
    {
      match this
      case Some(v) => v
      case None => default
    }

    /** The `??` operator between two optional values: the first present one. */
    function OrElse(other: Option<T>): Option<T>
    {
      match this
      case Some(_) => this
      case None => other
    }
  }
}
