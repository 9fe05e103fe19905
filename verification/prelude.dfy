/** Shared by the other modules. */
module Prelude {

  datatype Option<T> = None | Some(value: T) {

    /** This value, or the other one when there is none. */
    function Or(other: Option<T>): Option<T> {
      if Some? then this else other
    }
  }
}
