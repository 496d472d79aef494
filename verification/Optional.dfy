/** A value that may be missing: a NULL pointer, a failed lookup, a refused call. */
module Optional {

  datatype Option<+T> = None | Some(value: T)
}
