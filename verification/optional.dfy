/** A value that may be absent: what a parser returns when its input does not match. */
module Optional {

  datatype Option<+T> = None | Some(value: T)
}
