/** A value that may be absent: JavaScript's null (or NaN, for a number that failed to parse). */
module Options {

  datatype Option<+T> = None | Some(value: T)

}
