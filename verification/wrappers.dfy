/** Failure-carrying values shared by every module of the model, plus the
    Python exceptions the modelled code can raise. */
module Wrappers {

  /** A value that may be absent: a pandas cell that may be NaN, a lookup that may miss. */
  datatype Option<+T> = None | Some(value: T) {

    /** The encapsulated value, or `default` when absent (pandas `fillna(default)`). */
    function GetOr(default: T): T {
      match this
      case Some(v) => v
      case None => default
    }

    /** This value, or `other` when this one is absent (pandas `Series.fillna(other)`). */
    function OrElse(other: Option<T>): Option<T> {
      match this
      case Some(_) => this
      case None => other
    }
  }

  /** The outcome of a call that may raise. */
  datatype Result<+R, +E> = Success(value: R) | Failure(error: E)

  /** The exceptions the modelled Python raises on the paths this model covers. */
  datatype Error =
    | KeyError(key: string)   // a missing DataFrame column
    | IndexError              // `.values[0]` on an empty selection
    | ValueError              // `list.index` of an absent element
}
