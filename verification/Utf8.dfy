/** encode_utf8 of json11.cpp, with a decoder written from section 3 of RFC 3629 as its partner. */
module Utf8 {
  import opened Bytes
  import opened Bits

  /** encode_utf8, which appends nothing for the "no code point" value -1. */
  function Encode(pt: int): (out: bytes)
    requires pt < 0x11_0000
    ensures |out| ==
      if pt < 0 then 0 else if pt < 0x80 then 1 else if pt < 0x800 then 2 else if pt < 0x1_0000 then 3 else 4
  {
    if pt < 0 then []
    else if pt < 0x80 then [pt]
    else
      SixBits(pt); SixBits(Shr(pt, 6)); SixBits(Shr(pt, 12)); LeadBits(pt);
      if pt < 0x800 then
        [Or(Shr(pt, 6), 0xC0), Or(And(pt, 0x3F), 0x80)]
      else if pt < 0x1_0000 then
        [Or(Shr(pt, 12), 0xE0), Or(And(Shr(pt, 6), 0x3F), 0x80), Or(And(pt, 0x3F), 0x80)]
      else
        [Or(Shr(pt, 18), 0xF0), Or(And(Shr(pt, 12), 0x3F), 0x80),
         Or(And(Shr(pt, 6), 0x3F), 0x80), Or(And(pt, 0x3F), 0x80)]
  }

  /** A continuation byte carries the low six bits. */
  lemma SixBits(x: nat)
    ensures Or(And(x, 0x3F), 0x80) == 0x80 + x % 0x40
  {
    hide Or, And;
    Pow2Table();
    AndIsLow(x, 6);
    ShrTable(x);
    ShlIsProduct(2, 6);
    OrIsAdd(2, x % 0x40, 6);
  }

  /** A lead byte is the length marker plus the bits above the continuation bytes. */
  lemma LeadBits(pt: nat)
    requires pt < 0x11_0000
    ensures Shr(pt, 6) == pt / 0x40 && Shr(pt, 12) == pt / 0x1000 && Shr(pt, 18) == pt / 0x4_0000
    ensures pt < 0x800 ==> Or(Shr(pt, 6), 0xC0) == 0xC0 + pt / 0x40
    ensures pt < 0x1_0000 ==> Or(Shr(pt, 12), 0xE0) == 0xE0 + pt / 0x1000
    ensures Or(Shr(pt, 18), 0xF0) == 0xF0 + pt / 0x4_0000
  {
    hide Or;
    Pow2Table();
    ShrTable(pt);
    ShlIsProduct(6, 5);
    ShlIsProduct(14, 4);
    ShlIsProduct(30, 3);
    if pt < 0x800 {
      OrIsAdd(6, pt / 0x40, 5);
    }
    if pt < 0x1_0000 {
      OrIsAdd(14, pt / 0x1000, 4);
    }
    OrIsAdd(30, pt / 0x4_0000, 3);
  }

  /** A Unicode scalar value: a code point that is not a surrogate. */
  predicate IsScalar(pt: int) {
    0 <= pt < 0xD800 || 0xE000 <= pt < 0x11_0000
  }

  datatype Decoded = Scalar(pt: int, size: nat) | Malformed

  predicate IsTail(b: byte) {
    0x80 <= b < 0xC0
  }

  /**
   The first character of a UTF-8 text by the grammar of RFC 3629: shortest form only, no
   surrogates, nothing above 10FFFF.
   */
  function Decode(s: bytes): Decoded {
    if s == [] then Malformed
    else if s[0] < 0x80 then Scalar(s[0], 1)
    else if 0xC2 <= s[0] < 0xE0 && |s| >= 2 && IsTail(s[1]) then
      Scalar((s[0] - 0xC0) as int * 0x40 + (s[1] - 0x80), 2)
    else if 0xE0 <= s[0] < 0xF0 && |s| >= 3 && IsTail(s[1]) && IsTail(s[2])
            && (s[0] == 0xE0 ==> s[1] >= 0xA0) && (s[0] == 0xED ==> s[1] < 0xA0) then
      Scalar((s[0] - 0xE0) as int * 0x1000 + (s[1] - 0x80) as int * 0x40 + (s[2] - 0x80), 3)
    else if 0xF0 <= s[0] < 0xF5 && |s| >= 4 && IsTail(s[1]) && IsTail(s[2]) && IsTail(s[3])
            && (s[0] == 0xF0 ==> s[1] >= 0x90) && (s[0] == 0xF4 ==> s[1] < 0x90) then
      Scalar((s[0] - 0xF0) as int * 0x4_0000 + (s[1] - 0x80) as int * 0x1000 +
       (s[2] - 0x80) as int * 0x40 + (s[3] - 0x80), 4)
    else Malformed
  }

  /** The encoded bytes in plain arithmetic. */
  lemma EncodeArithmetic(pt: nat)
    requires pt < 0x11_0000
    ensures Encode(pt) ==
            if pt < 0x80 then [pt]
            else if pt < 0x800 then [0xC0 + pt / 0x40, 0x80 + pt % 0x40]
            else if pt < 0x1_0000 then [0xE0 + pt / 0x1000, 0x80 + pt / 0x40 % 0x40, 0x80 + pt % 0x40]
            else [0xF0 + pt / 0x4_0000, 0x80 + pt / 0x1000 % 0x40, 0x80 + pt / 0x40 % 0x40, 0x80 + pt % 0x40]
  {
    hide Or, And;
    SixBits(pt);
    SixBits(Shr(pt, 6));
    SixBits(Shr(pt, 12));
    LeadBits(pt);
  }

  /** The decoder inverts encode_utf8 on every scalar value, whatever follows, and on nothing else. */
  lemma DecodeEncode(pt: nat, rest: bytes)
    requires pt < 0x11_0000
    ensures IsScalar(pt) ==> Decode(Encode(pt) + rest) == Scalar(pt, |Encode(pt)|)
    ensures !IsScalar(pt) ==> Decode(Encode(pt) + rest) == Malformed
  {
    EncodeArithmetic(pt);
    SixtyFours(pt);
    if pt < 0x80 {
      assert ([pt] + rest)[0] == pt;
    } else if pt < 0x800 {
      DecodeTwo(pt / 0x40, pt % 0x40, rest);
    } else if pt < 0x1_0000 {
      DecodeThree(pt / 0x1000, pt / 0x40 % 0x40, pt % 0x40, rest);
    } else {
      DecodeFour(pt / 0x4_0000, pt / 0x1000 % 0x40, pt / 0x40 % 0x40, pt % 0x40, rest);
    }
  }

  /** A code point in base 64. */
  lemma SixtyFours(pt: nat)
    ensures pt == pt / 0x40 * 0x40 + pt % 0x40
    ensures pt / 0x40 == pt / 0x1000 * 0x40 + pt / 0x40 % 0x40
    ensures pt / 0x1000 == pt / 0x4_0000 * 0x40 + pt / 0x1000 % 0x40
  {
    assert pt / 0x1000 == pt / 0x40 / 0x40;
    assert pt / 0x4_0000 == pt / 0x1000 / 0x40;
  }

  lemma DecodeTwo(a: nat, b: nat, rest: bytes)
    requires 2 <= a < 0x20 && b < 0x40
    ensures Decode([0xC0 + a, 0x80 + b] + rest) == Scalar(a * 0x40 + b, 2)
  {
    var s: bytes := [0xC0 + a, 0x80 + b] + rest;
    assert s[0] == 0xC0 + a && s[1] == 0x80 + b;
  }

  lemma DecodeThree(a: nat, b: nat, c: nat, rest: bytes)
    requires a < 0x10 && b < 0x40 && c < 0x40 && a * 0x40 + b >= 0x20
    ensures Decode([0xE0 + a, 0x80 + b, 0x80 + c] + rest)
         == if a == 0xD && b >= 0x20 then Malformed else Scalar(a * 0x1000 + b * 0x40 + c, 3)
  {
    var s: bytes := [0xE0 + a, 0x80 + b, 0x80 + c] + rest;
    assert s[0] == 0xE0 + a && s[1] == 0x80 + b && s[2] == 0x80 + c;
  }

  lemma DecodeFour(a: nat, b: nat, c: nat, d: nat, rest: bytes)
    requires a < 5 && b < 0x40 && c < 0x40 && d < 0x40 && 0x10 <= a * 0x40 + b < 0x110
    ensures Decode([0xF0 + a, 0x80 + b, 0x80 + c, 0x80 + d] + rest)
         == Scalar(a * 0x4_0000 + b * 0x1000 + c * 0x40 + d, 4)
  {
    var s: bytes := [0xF0 + a, 0x80 + b, 0x80 + c, 0x80 + d] + rest;
    assert s[0] == 0xF0 + a && s[1] == 0x80 + b && s[2] == 0x80 + c && s[3] == 0x80 + d;
  }

  predicate IsHigh(u: int) {
    0xD800 <= u <= 0xDBFF
  }

  predicate IsLow(u: int) {
    0xDC00 <= u <= 0xDFFF
  }

  /** The code point a surrogate pair stands for, in the source's own shift-and-or form. */
  function Pair(high: int, low: int): int
    requires IsHigh(high) && IsLow(low)
  {
    Or(Shl(high - 0xD800, 10), low - 0xDC00) + 0x1_0000
  }

  /** Every pair lands above the BMP, and section 2.2 of RFC 2781 splits it into the same two units. */
  lemma PairIsAstral(high: int, low: int)
    requires IsHigh(high) && IsLow(low)
    ensures 0x1_0000 <= Pair(high, low) <= 0x10_FFFF
    ensures (Pair(high, low) - 0x1_0000) / 0x400 + 0xD800 == high
    ensures (Pair(high, low) - 0x1_0000) % 0x400 + 0xDC00 == low
  {
    hide Or;
    Pow2Table();
    ShlIsProduct(high - 0xD800, 10);
    OrIsAdd(high - 0xD800, low - 0xDC00, 10);
  }
}
