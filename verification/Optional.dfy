/** A value that may be absent: JavaScript's `null`/`undefined`, and the `NaN` of a failed parse. */
module Optional {

  datatype Option<+T> = None | Some(value: T)

}
