/** Go's bytes. */
module Bytes {
  type Byte = x: nat | x < 256
}
