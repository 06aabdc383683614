/** The optional value used wherever the component reads something that may be absent:
    a `parseInt` that may give NaN, a stored value that may be missing or corrupt,
    a calendar cell that may be blank. */
module Wrappers {

  datatype Option<+T> = None | Some(value: T)
}
