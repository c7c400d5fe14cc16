// Unsigned 8-bit values.
module Octets {
  type octet = x: int | 0 <= x < 256
}
