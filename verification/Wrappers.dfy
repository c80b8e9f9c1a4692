// A value a JavaScript expression may leave `undefined` or `null`.
module Wrappers {

  datatype Option<+T> = None | Some(value: T) {

    // `x || fallback` on a manifest field read as a list: the field when
    // it is present, `fallback` when it is missing.
    function GetOr(fallback: T): T {
      if Some? then value else fallback
    }
  }
}
