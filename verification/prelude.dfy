/** Small shared vocabulary: an optional value, as Rust's `Option`. */
module Prelude {

  datatype Option<+T> = None | Some(value: T) {

    /** The wrapped value, or `default` when there is none (Rust's `unwrap_or`). */
    function GetOr(default: T): T {
      match this
      case Some(v) => v
      case None => default
    }
  }

  function Min(a: nat, b: nat): nat {
    if a <= b then a else b
  }
}
