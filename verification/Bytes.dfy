/** Octets and strings of octets. */
module Bytes {
  type byte = b: int | 0 <= b < 256

  /** A std::string or a char buffer: bytes, with no encoding implied. */
  type bytes = seq<byte>
}
