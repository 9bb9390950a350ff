/**
 Eight-bit bytes as numbers, for the code that computes with them.
 */
module Octets {
  type Octet = b: nat | b < 256
}
