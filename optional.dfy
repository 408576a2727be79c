/** An optional value: the source's `x | null` and `x | undefined`. */
module Optional {

  datatype Option<+T> = None | Some(value: T)
}
