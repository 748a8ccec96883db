/** Bytes of a stream or a file. */
module Bytes {
  type byte = x: int | 0 <= x < 256
}
