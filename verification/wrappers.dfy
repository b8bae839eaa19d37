/** The optional value used wherever the source returns or stores `null`
    (a `Nullable<int>` search result, an empty polygon slot). */
module Wrappers {

  datatype Option<+T> = None | Some(value: T)
}
