/** Octets, as Java's `byte` values read unsigned (0..255). */
module Bytes {

  newtype byte = b: int | 0 <= b < 0x100
}
