/** Types shared by every part of the model. */
module Base {

  /** A value that may be missing: the source's NULL pointers and zero results. */
  datatype Option<+T> = None | Some(value: T)

  /** One byte of memory or of a disk image. */
  type byte = b: int | 0 <= b < 256

  type Bytes = seq<byte>
}
