/** Bytes. */
module Octets {
  type Byte = c: nat | c < 256
}
