/** A value that may be missing: JavaScript's `undefined`, `NaN` or a thrown error. */
module Optional {

  datatype Option<+T> = None | Some(value: T)
}
