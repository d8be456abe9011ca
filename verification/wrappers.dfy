/** Nullable values: a table cell that pandas may hold as NaN, NaT or NA. */
module Wrappers {

  datatype Option<+T> = None | Some(value: T) {

    /** The value, or `default` when the cell is null. */
    function GetOr(default: T): T {
      match this
      case Some(v) => v
      case None => default
    }
  }
}
