/** The optional value used for JavaScript's `null`/`undefined` results
    (a failed `match`, a missing key, an absent index). */
module Wrappers {
  datatype Option<+T> = None | Some(value: T)
}
