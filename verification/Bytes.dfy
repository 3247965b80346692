/** Bytes as they are read and written. */
module Bytes {
  type byte = b: int | 0 <= b < 256
  type bytes = seq<byte>
}
