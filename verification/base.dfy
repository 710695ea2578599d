/** Basic value types shared by every part of the virtual file system model. */
module Base {

  /** One byte of a Go string or byte slice. */
  newtype byte = x: int | 0 <= x < 256

  /** A Go string or `[]byte`: paths, names, symlink targets and file contents. */
  type Bytes = seq<byte>

  /** A value that may be absent: a nil Go pointer or error, or a lookup that finds nothing. */
  datatype Option<+T> = None | Some(value: T)
}
