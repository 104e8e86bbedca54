module Octets {
  /** An octet. */
  type byte = b: int | 0 <= b < 256
}
