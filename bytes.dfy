/** Octets, shared by the UTF-8 and Base64 layers. */
module Bytes {
  /** A Python `bytes` element. */
  type byte = b: int | 0 <= b < 256
}
