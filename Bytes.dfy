/** Octets. Java's `byte` is signed; here a byte is its unsigned value 0..255,
    which is what the hex codec and the digest see. */
module Bytes {

  type byte = b: int | 0 <= b < 0x100
}
