/** Helper datatype shared by the other modules. */
module Wrappers {

  /** An optional value: `None` stands for an absent record, an exhausted
      supply of random draws, and similar "nothing here" outcomes. */
  datatype Option<+T> = None | Some(value: T) {

    /** The wrapped value, or `default` when there is none. */
    function GetOr(default: T): (r: T)
      ensures Some? ==> r == value
      ensures None? ==> r == default
    {
      match this
      case Some(v) => v
      case None => default
    }
  }
}
