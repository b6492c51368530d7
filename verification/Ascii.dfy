/** Bytes named by the characters they are written with. */
module Ascii {
  import opened Bytes

  function Ch(c: char): byte
    requires c < 128 as char
  {
    c as int
  }

  predicate IsAscii(t: string) {
    forall k :: 0 <= k < |t| ==> t[k] < 128 as char
  }

  function Text(t: string): (b: bytes)
    requires IsAscii(t)
    ensures |b| == |t|
  {
    seq(|t|, k requires 0 <= k < |t| => Ch(t[k]))
  }

  /** The byte is one of the characters listed. */
  predicate OneOf(b: byte, chars: string) {
    b as char in chars
  }
}
