/** Small shared vocabulary: an optional value and the byte type file contents are made of. */
module Base {
  datatype Option<T> = None | Some(value: T)

  /** One byte of a file or of the remote resource. */
  newtype byte = x: int | 0 <= x < 256
}
