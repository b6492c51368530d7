/** base64.cpp against section 4 of RFC 4648. */
module Base64 {
  import opened Options
  import opened Bytes
  import opened Bits
  import opened Ascii

  const PAD: byte := 0x3D // =

  /** encoding_table: A-Z, a-z, 0-9, + and /. */
  function EncodingTable(v: nat): byte
    requires v < 64
  {
    if v < 26 then 0x41 + v
    else if v < 52 then 0x61 + (v - 26)
    else if v < 62 then 0x30 + (v - 52)
    else if v == 62 then 0x2B
    else 0x2F
  }

  predicate InAlphabet(ch: byte) {
    0x41 <= ch <= 0x5A || 0x61 <= ch <= 0x7A || 0x30 <= ch <= 0x39 || ch == 0x2B || ch == 0x2F
  }

  /** The position of a character in the alphabet. */
  function Sextet(ch: byte): (v: nat)
    requires InAlphabet(ch)
    ensures v < 64
  {
    if 0x41 <= ch <= 0x5A then ch - 0x41
    else if 0x61 <= ch <= 0x7A then ch - 0x61 + 26
    else if 0x30 <= ch <= 0x39 then ch - 0x30 + 52
    else if ch == 0x2B then 62
    else 63
  }

  lemma TablesInvert(v: nat, ch: byte)
    ensures v < 64 ==> InAlphabet(EncodingTable(v)) && Sextet(EncodingTable(v)) == v
    ensures InAlphabet(ch) ==> EncodingTable(Sextet(ch)) == ch && ch != PAD
  {
  }

  /** Table 1 of section 4 in characters, and the padding character. */
  lemma AlphabetSpelled(v: nat, ch: byte)
    ensures v < 26 ==> EncodingTable(v) == Ch('A') + v
    ensures 26 <= v < 52 ==> EncodingTable(v) == Ch('a') + (v - 26)
    ensures 52 <= v < 62 ==> EncodingTable(v) == Ch('0') + (v - 52)
    ensures EncodingTable(62) == Ch('+') && EncodingTable(63) == Ch('/') && PAD == Ch('=')
    ensures InAlphabet(ch) <==>
            || 'A' <= ch as char <= 'Z' || 'a' <= ch as char <= 'z' || '0' <= ch as char <= '9'
            || ch as char == '+' || ch as char == '/'
  {
  }

  // ---- the encoding of section 4 ----

  /** Three octets as four characters. */
  function Quad(a: byte, b: byte, c: byte): (q: bytes)
    ensures |q| == 4
  {
    [EncodingTable(a / 4), EncodingTable(a % 4 * 16 + b / 16),
     EncodingTable(b % 16 * 4 + c / 64), EncodingTable(c % 64)]
  }

  /** The encoded text of a byte string: full groups first, then a padded one. */
  function Encoded(data: bytes): (t: bytes)
    ensures |t| == (|data| + 2) / 3 * 4
  {
    if data == [] then []
    else if |data| == 1 then Quad(data[0], 0, 0)[..2] + [PAD, PAD]
    else if |data| == 2 then Quad(data[0], data[1], 0)[..3] + [PAD]
    else Quad(data[0], data[1], data[2]) + Encoded(data[3..])
  }

  /** Every group encoded, the last one completed with zero octets: what the source's main loop writes. */
  function Unpadded(data: bytes): (t: bytes)
    ensures |t| == (|data| + 2) / 3 * 4
  {
    if data == [] then []
    else if |data| == 1 then Quad(data[0], 0, 0)
    else if |data| == 2 then Quad(data[0], data[1], 0)
    else Quad(data[0], data[1], data[2]) + Unpadded(data[3..])
  }

  /** mod_table */
  function Padding(n: nat): (k: nat)
    ensures k <= 2
  {
    if n % 3 == 0 then 0 else if n % 3 == 1 then 2 else 1
  }

  function Pads(k: nat): (t: bytes)
    ensures |t| == k
  {
    seq(k, _ => PAD)
  }

  /** Overwriting the tail with padding turns the one into the other. */
  lemma {:induction false} PaddedText(data: bytes)
    ensures Padding(|data|) <= |Unpadded(data)|
    ensures Encoded(data) == Unpadded(data)[..|Unpadded(data)| - Padding(|data|)] + Pads(Padding(|data|))
  {
    hide Quad;
    if |data| >= 3 {
      PaddedText(data[3..]);
      assert |data[3..]| % 3 == |data| % 3;
    } else if |data| == 1 {
      assert Pads(2) == [PAD, PAD];
    } else if |data| == 2 {
      assert Pads(1) == [PAD];
    }
  }

  function Octet(data: bytes, i: nat): byte {
    if i < |data| then data[i] else 0
  }

  lemma Shifted(a: bytes, b: bytes, k: nat, n: nat)
    requires k + n <= |b|
    ensures (a + b)[|a| + k..|a| + k + n] == b[k..k + n]
  {
  }

  lemma {:induction false} UnpaddedAt(data: bytes, g: nat)
    requires 3 * g < |data|
    ensures 4 * g + 4 <= |Unpadded(data)|
    ensures Unpadded(data)[4 * g..4 * g + 4] == Quad(data[3 * g], Octet(data, 3 * g + 1), Octet(data, 3 * g + 2))
  {
    hide Quad;
    if g > 0 {
      UnpaddedAt(data[3..], g - 1);
      Shifted(Quad(data[0], data[1], data[2]), Unpadded(data[3..]), 4 * g - 4, 4);
    }
  }

  // ---- the source's shifts ----

  /** The four table indices cut from a 24-bit word are those of section 4. */
  lemma WordToQuad(a: byte, b: byte, c: byte)
    ensures var triple := Shl(a, 0x10) + Shl(b, 0x08) + c;
            && And(Shr(triple, 18), 0x3F) == a / 4 && And(Shr(triple, 12), 0x3F) == a % 4 * 16 + b / 16
            && And(Shr(triple, 6), 0x3F) == b % 16 * 4 + c / 64 && And(Shr(triple, 0), 0x3F) == c % 64
  {
    hide Shl, Shr, And, Low;
    Pow2Table();
    ShlIsProduct(a, 0x10);
    ShlIsProduct(b, 0x08);
    var triple: nat := a as nat * 0x1_0000 + b as nat * 0x100 + c as nat;
    var s, t, u, v := a / 4, a % 4 * 16 + b / 16, b % 16 * 4 + c / 64, c % 64;
    assert triple == s as nat * 0x4_0000 + t as nat * 0x1000 + u as nat * 0x40 + v;
    CutSextets(s, t, u, v);
    ShrTable(triple);
    SixLow(Shr(triple, 18));
    SixLow(Shr(triple, 12));
    SixLow(Shr(triple, 6));
    SixLow(triple);
  }

  /** Base-64 digits of a 24-bit word. */
  lemma CutSextets(s: nat, t: nat, u: nat, v: nat)
    requires s < 64 && t < 64 && u < 64 && v < 64
    ensures var w := s * 0x4_0000 + t * 0x1000 + u * 0x40 + v;
            w / 0x4_0000 % 64 == s && w / 0x1000 % 64 == t && w / 0x40 % 64 == u && w % 64 == v
  {
    var w := s * 0x4_0000 + t * 0x1000 + u * 0x40 + v;
    assert w / 0x40 == s * 0x1000 + t * 0x40 + u;
    assert w / 0x1000 == s * 0x40 + t;
    assert w / 0x4_0000 == s;
  }

  /** Base-256 digits of a 24-bit word. */
  lemma CutOctets(a: nat, b: nat, c: nat)
    requires a < 256 && b < 256 && c < 256
    ensures var w := a * 0x1_0000 + b * 0x100 + c;
            w / 0x1_0000 % 256 == a && w / 0x100 % 256 == b && w % 256 == c
  {
    var w := a * 0x1_0000 + b * 0x100 + c;
    assert w / 0x100 == a * 0x100 + b;
    assert w / 0x1_0000 == a;
  }

  lemma SixLow(x: nat)
    ensures And(x, 0x3F) == x % 64
  {
    hide And, Low;
    Pow2Table();
    AndIsLow(x, 6);
    ShrTable(x);
  }

  /** The three octets cut from four sextets. */
  function Octets(s: nat, t: nat, u: nat, v: nat): (o: bytes)
    requires s < 64 && t < 64 && u < 64 && v < 64
    ensures |o| == 3
  {
    [s * 4 + t / 16, t % 16 * 16 + u / 4, u % 4 * 64 + v]
  }

  lemma WordToOctets(s: nat, t: nat, u: nat, v: nat)
    requires s < 64 && t < 64 && u < 64 && v < 64
    ensures var triple := Shl(s, 18) + Shl(t, 12) + Shl(u, 6) + Shl(v, 0);
            [And(Shr(triple, 16), 0xFF), And(Shr(triple, 8), 0xFF), And(Shr(triple, 0), 0xFF)] == Octets(s, t, u, v)
  {
    hide Shl, Shr, And, Low;
    Pow2Table();
    ShlIsProduct(s, 18);
    ShlIsProduct(t, 12);
    ShlIsProduct(u, 6);
    ShlIsProduct(v, 0);
    var triple: nat := s * 0x4_0000 + t * 0x1000 + u * 0x40 + v;
    var a, b, c := s * 4 + t / 16, t % 16 * 16 + u / 4, u % 4 * 64 + v;
    assert triple == a * 0x1_0000 + b * 0x100 + c;
    CutOctets(a, b, c);
    ShrTable(triple);
    EightLow(Shr(triple, 16));
    EightLow(Shr(triple, 8));
    EightLow(triple);
  }

  lemma EightLow(x: nat)
    ensures And(x, 0xFF) == x % 256
  {
    hide And, Low;
    Pow2Table();
    AndIsLow(x, 8);
    ShrTable(x);
  }

  // ---- the decoder's reference ----

  /** A character's six bits; padding counts as zero. */
  function Bits6(ch: byte): (v: nat)
    requires InAlphabet(ch) || ch == PAD
    ensures v < 64
  {
    if ch == PAD then 0 else Sextet(ch)
  }

  predicate Decodable(text: bytes) {
    forall k :: 0 <= k < |text| ==> InAlphabet(text[k]) || text[k] == PAD
  }

  /** The three octets of the group of four characters at i. */
  function GroupOctets(text: bytes, i: nat): (o: bytes)
    requires i + 4 <= |text| && Decodable(text)
    ensures |o| == 3
  {
    Octets(Bits6(text[i]), Bits6(text[i + 1]), Bits6(text[i + 2]), Bits6(text[i + 3]))
  }

  /** All the octets of a text, those that padding stands for included. */
  function AllOctets(text: bytes): (o: bytes)
    requires Decodable(text)
    ensures |o| == |text| / 4 * 3
  {
    if |text| < 4 then []
    else
      assert |text[4..]| / 4 == |text| / 4 - 1;
      GroupOctets(text, 0) + AllOctets(text[4..])
  }

  /** output_length */
  function OutLength(text: bytes): (n: nat)
    requires text != [] && |text| % 4 == 0
    ensures n <= |text| / 4 * 3
  {
    |text| / 4 * 3 - (if text[|text| - 1] == PAD then 1 else 0) - (if text[|text| - 2] == PAD then 1 else 0)
  }

  /** What a text decodes to. */
  function Data(text: bytes): bytes
    requires text != [] && |text| % 4 == 0 && Decodable(text)
  {
    AllOctets(text)[..OutLength(text)]
  }

  lemma {:induction false} OctetsAt(text: bytes, g: nat)
    requires Decodable(text) && 4 * g + 4 <= |text|
    ensures 3 * g + 3 <= |AllOctets(text)| && AllOctets(text)[3 * g..3 * g + 3] == GroupOctets(text, 4 * g)
  {
    hide GroupOctets;
    if g > 0 {
      OctetsAt(text[4..], g - 1);
      LaterGroup(text, 4 * (g - 1));
      Shifted(GroupOctets(text, 0), AllOctets(text[4..]), 3 * (g - 1), 3);
    }
  }

  lemma LaterGroup(text: bytes, i: nat)
    requires Decodable(text) && i + 8 <= |text|
    ensures GroupOctets(text[4..], i) == GroupOctets(text, i + 4)
  {
  }

  // ---- the methods ----

  /** base64_encode; the buffer ends in a NUL. */
  method Encode(data: array<byte>) returns (encoded: array<byte>, outputLength: nat)
    ensures fresh(encoded) && encoded.Length == outputLength + 1 && outputLength == 4 * ((data.Length + 2) / 3)
    ensures encoded[..outputLength] == Encoded(data[..]) && encoded[outputLength] == 0
  {
    hide Quad, Unpadded, Encoded, Shl, Shr, And;
    outputLength := 4 * ((data.Length + 2) / 3);
    encoded := new byte[outputLength + 1];
    var i, j := 0, 0;
    ghost var raw, g, groups := Unpadded(data[..]), 0, (data.Length + 2) / 3;
    while i < data.Length
      invariant g <= groups && j == 4 * g && i == if 3 * g < data.Length then 3 * g else data.Length
      invariant forall k :: 0 <= k < j ==> encoded[k] == raw[k]
    {
      UnpaddedAt(data[..], g);
      var a, b, c := data[i], 0, 0;
      i := i + 1;
      if i < data.Length {
        b := data[i];
        i := i + 1;
      }
      if i < data.Length {
        c := data[i];
        i := i + 1;
      }
      j := WriteQuad(encoded, j, a, b, c);
      assert forall k :: 4 * g <= k < j ==> raw[k] == raw[4 * g..4 * g + 4][k - 4 * g];
      g := g + 1;
    }
    PaddedText(data[..]);
    WritePadding(encoded, outputLength, Padding(data.Length));
    encoded[outputLength] := 0;
  }

  method WritePadding(encoded: array<byte>, length: nat, pads: nat)
    requires pads <= length <= encoded.Length
    modifies encoded
    ensures encoded[..length] == old(encoded[..length - pads]) + Pads(pads)
  {
    var i := 0;
    while i < pads
      invariant 0 <= i <= pads
      invariant forall k :: 0 <= k < length - i ==> encoded[k] == old(encoded[k])
      invariant forall k :: length - i <= k < length ==> encoded[k] == PAD
    {
      encoded[length - 1 - i] := PAD;
      i := i + 1;
    }
  }

  /** The four writes of one round of the encoding loop. */
  method WriteQuad(encoded: array<byte>, j0: nat, a: byte, b: byte, c: byte) returns (j: nat)
    requires j0 + 4 <= encoded.Length
    modifies encoded
    ensures j == j0 + 4
    ensures forall k :: 0 <= k < encoded.Length ==>
              encoded[k] == if j0 <= k < j then Quad(a, b, c)[k - j0] else old(encoded[k])
  {
    hide Shl, Shr, And;
    var triple := Shl(a, 0x10) + Shl(b, 0x08) + c;
    WordToQuad(a, b, c);
    j := j0;
    encoded[j] := EncodingTable(And(Shr(triple, 3 * 6), 0x3F));
    j := j + 1;
    encoded[j] := EncodingTable(And(Shr(triple, 2 * 6), 0x3F));
    j := j + 1;
    encoded[j] := EncodingTable(And(Shr(triple, 1 * 6), 0x3F));
    j := j + 1;
    encoded[j] := EncodingTable(And(Shr(triple, 0 * 6), 0x3F));
    j := j + 1;
  }

  /** build_decoding_table; entries outside the alphabet are left as allocated. */
  method BuildDecodingTable() returns (table: array<byte>)
    ensures fresh(table) && table.Length == 256
    ensures forall ch: byte :: InAlphabet(ch) ==> table[ch] == Sextet(ch)
  {
    table := new byte[256];
    var i := 0;
    while i < 64
      invariant 0 <= i <= 64
      invariant forall ch: byte :: InAlphabet(ch) && Sextet(ch) < i ==> table[ch] == Sextet(ch)
    {
      table[EncodingTable(i)] := i;
      TablesInvert(i, 0);
      forall ch: byte | InAlphabet(ch) && Sextet(ch) < i + 1 ensures table[ch] == Sextet(ch) {
        TablesInvert(i, ch);
      }
      i := i + 1;
    }
  }

  /** base64_decode: None for NULL. The last two characters are looked at, so the text must not be empty. */
  method Decode(text: bytes) returns (decoded: Option<array<byte>>)
    requires text != [] && Decodable(text)
    ensures decoded.None? <==> |text| % 4 != 0
    ensures decoded.Some? ==> decoded.value[..] == Data(text)
  {
    hide GroupOctets, AllOctets;
    var table := BuildDecodingTable();
    if |text| % 4 != 0 {
      return None;
    }
    var outputLength := |text| / 4 * 3;
    if text[|text| - 1] == PAD {
      outputLength := outputLength - 1;
    }
    if text[|text| - 2] == PAD {
      outputLength := outputLength - 1;
    }
    var out := new byte[outputLength];
    ghost var all, g := AllOctets(text), 0;
    var i, j := 0, 0;
    while i < |text|
      invariant i == 4 * g <= |text| && j == if 3 * g < out.Length then 3 * g else out.Length
      invariant forall ch: byte :: InAlphabet(ch) ==> table[ch] == Sextet(ch)
      invariant forall k :: 0 <= k < j ==> out[k] == all[k]
    {
      OctetsAt(text, g);
      var o;
      o, i := ReadGroup(table, text, i);
      assert all[3 * g..3 * g + 3] == o;
      assert all[3 * g] == o[0] && all[3 * g + 1] == o[1] && all[3 * g + 2] == o[2];
      j := WriteOctets(out, j, o);
      g := g + 1;
    }
    assert j == out.Length;
    assert out[..] == all[..outputLength];
    return Some(out);
  }

  /** The three guarded writes of one round of the decoding loop. */
  method WriteOctets(out: array<byte>, j0: nat, o: bytes) returns (j: nat)
    requires |o| == 3 && j0 <= out.Length
    modifies out
    ensures j == if j0 + 3 <= out.Length then j0 + 3 else out.Length
    ensures forall k :: 0 <= k < out.Length ==> out[k] == if j0 <= k < j then o[k - j0] else old(out[k])
  {
    j := j0;
    if j < out.Length {
      out[j] := o[0];
      j := j + 1;
    }
    if j < out.Length {
      out[j] := o[1];
      j := j + 1;
    }
    if j < out.Length {
      out[j] := o[2];
      j := j + 1;
    }
  }

  /** The reads and shifts of one round of the decoding loop. */
  method ReadGroup(table: array<byte>, text: bytes, i0: nat) returns (o: bytes, i: nat)
    requires table.Length == 256 && forall ch: byte :: InAlphabet(ch) ==> table[ch] == Sextet(ch)
    requires i0 + 4 <= |text| && Decodable(text)
    ensures i == i0 + 4
    ensures o == GroupOctets(text, i0)
  {
    hide Octets, Bits6, Shl, Shr, And;
    var s, t, u, v;
    i := i0;
    s, i := ReadSextet(table, text, i);
    t, i := ReadSextet(table, text, i);
    u, i := ReadSextet(table, text, i);
    v, i := ReadSextet(table, text, i);
    var triple := Shl(s, 3 * 6) + Shl(t, 2 * 6) + Shl(u, 1 * 6) + Shl(v, 0 * 6);
    WordToOctets(s, t, u, v);
    o := [And(Shr(triple, 2 * 8), 0xFF), And(Shr(triple, 1 * 8), 0xFF), And(Shr(triple, 0 * 8), 0xFF)];
  }

  method ReadSextet(table: array<byte>, text: bytes, i0: nat) returns (v: nat, i: nat)
    requires table.Length == 256 && forall ch: byte :: InAlphabet(ch) ==> table[ch] == Sextet(ch)
    requires i0 < |text| && Decodable(text)
    ensures v == Bits6(text[i0]) && i == i0 + 1
  {
    i := i0 + 1;
    if text[i0] == PAD {
      v := 0;
    } else {
      v := table[text[i0]];
    }
  }

  // ---- round trips ----

  lemma QuadOctets(a: byte, b: byte, c: byte)
    ensures Decodable(Quad(a, b, c)) && PAD !in Quad(a, b, c)
    ensures var q := Quad(a, b, c); Octets(Bits6(q[0]), Bits6(q[1]), Bits6(q[2]), Bits6(q[3])) == [a, b, c]
  {
    hide EncodingTable, Sextet, InAlphabet, Octets;
    TableRow(a / 4);
    TableRow(a % 4 * 16 + b / 16);
    TableRow(b % 16 * 4 + c / 64);
    TableRow(c % 64);
    RegroupedBack(a, b, c);
  }

  lemma TableRow(v: nat)
    requires v < 64
    ensures InAlphabet(EncodingTable(v)) && EncodingTable(v) != PAD && Bits6(EncodingTable(v)) == v
  {
    TablesInvert(v, EncodingTable(v));
  }

  /** Three octets regrouped as sextets and back. */
  lemma RegroupedBack(a: byte, b: byte, c: byte)
    ensures Octets(a / 4, a % 4 * 16 + b / 16, b % 16 * 4 + c / 64, c % 64) == [a, b, c]
  {
  }

  /** Four sextets regrouped as octets and back. */
  lemma Regrouped(s: nat, t: nat, u: nat, v: nat)
    requires s < 64 && t < 64 && u < 64 && v < 64
    ensures var o := Octets(s, t, u, v);
            o[0] / 4 == s && o[0] % 4 * 16 + o[1] / 16 == t && o[1] % 16 * 4 + o[2] / 64 == u && o[2] % 64 == v
  {
  }

  lemma OctetsQuad(w: byte, x: byte, y: byte, z: byte)
    requires InAlphabet(w) && InAlphabet(x) && InAlphabet(y) && InAlphabet(z)
    ensures var o := Octets(Sextet(w), Sextet(x), Sextet(y), Sextet(z)); Quad(o[0], o[1], o[2]) == [w, x, y, z]
  {
    hide EncodingTable, Sextet, InAlphabet, Octets;
    TablesInvert(0, w);
    TablesInvert(0, x);
    TablesInvert(0, y);
    TablesInvert(0, z);
    Regrouped(Sextet(w), Sextet(x), Sextet(y), Sextet(z));
  }

  /** A text of more than one group, taken apart. */
  lemma DataOfGroups(q: bytes, rest: bytes)
    requires |q| == 4 && rest != [] && |rest| % 4 == 0 && Decodable(q) && Decodable(rest)
    ensures Decodable(q + rest) && |q + rest| % 4 == 0
    ensures Data(q + rest) == GroupOctets(q, 0) + Data(rest)
  {
    hide Octets, Bits6;
    var t := q + rest;
    assert t[4..] == rest && t[0] == q[0] && t[1] == q[1] && t[2] == q[2] && t[3] == q[3];
    assert t[|t| - 1] == rest[|rest| - 1] && t[|t| - 2] == rest[|rest| - 2];
  }

  lemma DataOfOne(q: bytes)
    requires |q| == 4 && Decodable(q)
    ensures Data(q) == GroupOctets(q, 0)[..OutLength(q)]
  {
    hide Octets, Bits6;
    assert q[4..] == [];
    assert AllOctets(q) == GroupOctets(q, 0) + [];
  }

  /** Decoding an encoding gives the bytes back. */
  lemma {:induction false} DecodeEncode(data: bytes)
    requires data != []
    ensures Encoded(data) != [] && Decodable(Encoded(data)) && Data(Encoded(data)) == data
  {
    hide Quad, Octets, Bits6, Data, OutLength;
    if |data| <= 3 {
      LastGroup(data);
    } else {
      DecodeEncode(data[3..]);
      QuadOctets(data[0], data[1], data[2]);
      DataOfGroups(Quad(data[0], data[1], data[2]), Encoded(data[3..]));
      assert data == [data[0], data[1], data[2]] + data[3..];
    }
  }

  lemma LastGroup(data: bytes)
    requires 1 <= |data| <= 3
    ensures |Encoded(data)| == 4 && Decodable(Encoded(data)) && Data(Encoded(data)) == data
  {
    hide Quad, Octets, Sextet;
    var t := Encoded(data);
    var q := Quad(data[0], Octet(data, 1), Octet(data, 2));
    QuadOctets(data[0], Octet(data, 1), Octet(data, 2));
    if |data| == 3 {
      assert data[3..] == [] && t == q;
    }
    if |data| < 3 {
      PaddingIsZero(data[0], Octet(data, 1));
    }
    assert t[0] == q[0] && t[1] == q[1];
    DataOfOne(t);
  }

  /** The characters that padding replaces stand for zero bits. */
  lemma PaddingIsZero(a: byte, b: byte)
    ensures Bits6(Quad(a, b, 0)[3]) == 0 && Bits6(Quad(a, 0, 0)[2]) == 0
  {
  }

  /** A text as section 4 writes it: padding at the end only, one or two characters of it. */
  predicate WellFormed(text: bytes) {
    && text != [] && |text| % 4 == 0
    && (forall k :: 0 <= k < |text| - 2 ==> InAlphabet(text[k]))
    && (InAlphabet(text[|text| - 2]) || text[|text| - 2] == PAD)
    && (InAlphabet(text[|text| - 1]) || text[|text| - 1] == PAD)
    && (text[|text| - 2] == PAD ==> text[|text| - 1] == PAD)
  }

  /** The bits of the last group that no octet uses are zero, as section 3.5 asks of encoders. */
  predicate UnusedBitsZero(text: bytes)
    requires WellFormed(text)
  {
    var n := |text|;
    if text[n - 2] == PAD then Sextet(text[n - 3]) % 16 == 0
    else if text[n - 1] == PAD then Sextet(text[n - 2]) % 4 == 0
    else true
  }

  /** Encoding a decoding gives the text back exactly when its unused bits are zero. */
  lemma {:induction false} EncodeDecode(text: bytes)
    requires WellFormed(text)
    ensures Decodable(text) && (Encoded(Data(text)) == text <==> UnusedBitsZero(text))
    decreases |text|
  {
    hide Quad, Octets, Data, OutLength, Encoded, Sextet, InAlphabet;
    if |text| == 4 {
      OneGroup(text);
    } else {
      var q, rest := text[..4], text[4..];
      FirstGroup(text);
      EncodeDecode(rest);
      DataOfGroups(q, rest);
      OctetsQuad(q[0], q[1], q[2], q[3]);
      TextOfGroups(Octets(Sextet(q[0]), Sextet(q[1]), Sextet(q[2]), Sextet(q[3])), Data(rest));
      assert q == [q[0], q[1], q[2], q[3]];
      Cancel(q, Encoded(Data(rest)), q, rest);
    }
  }

  lemma Cancel(a: bytes, b: bytes, c: bytes, d: bytes)
    requires |a| == |c|
    ensures a + b == c + d <==> a == c && b == d
  {
    if a + b == c + d {
      assert a == (a + b)[..|a|] && b == (a + b)[|a|..];
      assert c == (c + d)[..|c|] && d == (c + d)[|c|..];
    }
  }

  /** A full group stands before the last one. */
  lemma FirstGroup(text: bytes)
    requires WellFormed(text) && |text| > 4
    ensures var q, rest := text[..4], text[4..];
            && text == q + rest && Decodable(q) && WellFormed(rest) && (UnusedBitsZero(text) <==> UnusedBitsZero(rest))
            && (forall k :: 0 <= k < 4 ==> InAlphabet(q[k]) && Bits6(q[k]) == Sextet(q[k]))
  {
    hide Sextet, InAlphabet;
    var q, rest, n := text[..4], text[4..], |text[4..]|;
    assert forall k :: 0 <= k < n ==> rest[k] == text[k + 4];
    assert rest[n - 1] == text[n + 3] && rest[n - 2] == text[n + 2] && rest[n - 3] == text[n + 1];
    TablesInvert(0, q[0]);
    TablesInvert(0, q[1]);
    TablesInvert(0, q[2]);
    TablesInvert(0, q[3]);
  }

  lemma TextOfGroups(o: bytes, rest: bytes)
    requires |o| == 3
    ensures Encoded(o + rest) == Quad(o[0], o[1], o[2]) + Encoded(rest)
  {
    hide Quad;
    assert (o + rest)[3..] == rest;
  }

  lemma OnePadded(w: byte, x: byte)
    requires InAlphabet(w) && InAlphabet(x)
    ensures var o := Octets(Sextet(w), Sextet(x), 0, 0);
            Quad(o[0], 0, 0)[..2] == [w, x] <==> Sextet(x) % 16 == 0
  {
    hide EncodingTable, Sextet, InAlphabet;
    var o := Octets(Sextet(w), Sextet(x), 0, 0);
    TablesInvert(0, w);
    TablesInvert(0, x);
    TablesInvert(o[0] % 4 * 16, 0);
    assert o[0] / 4 == Sextet(w) && o[0] % 4 * 16 == Sextet(x) / 16 * 16;
    assert Quad(o[0], 0, 0)[..2] == [w, EncodingTable(o[0] % 4 * 16)];
    assert Quad(o[0], 0, 0)[..2] == [w, x] ==> EncodingTable(o[0] % 4 * 16) == x;
  }

  lemma TwoPadded(w: byte, x: byte, y: byte)
    requires InAlphabet(w) && InAlphabet(x) && InAlphabet(y)
    ensures var o := Octets(Sextet(w), Sextet(x), Sextet(y), 0);
            Quad(o[0], o[1], 0)[..3] == [w, x, y] <==> Sextet(y) % 4 == 0
  {
    hide EncodingTable, Sextet, InAlphabet;
    var o := Octets(Sextet(w), Sextet(x), Sextet(y), 0);
    TablesInvert(0, w);
    TablesInvert(0, x);
    TablesInvert(0, y);
    TablesInvert(o[1] % 16 * 4, 0);
    Regrouped(Sextet(w), Sextet(x), Sextet(y), 0);
    assert o[1] % 16 * 4 == Sextet(y) / 4 * 4;
    assert Quad(o[0], o[1], 0)[..3] == [w, x, EncodingTable(o[1] % 16 * 4)];
    assert Quad(o[0], o[1], 0)[..3] == [w, x, y] ==> EncodingTable(o[1] % 16 * 4) == y;
  }

  lemma OneGroup(text: bytes)
    requires WellFormed(text) && |text| == 4
    ensures Decodable(text) && (Encoded(Data(text)) == text <==> UnusedBitsZero(text))
  {
    hide EncodingTable, Sextet, InAlphabet, Octets, Quad, Data;
    DataOfOne(text);
    TablesInvert(0, text[0]);
    TablesInvert(0, text[1]);
    TablesInvert(0, text[2]);
    TablesInvert(0, text[3]);
    var o := Octets(Bits6(text[0]), Bits6(text[1]), Bits6(text[2]), Bits6(text[3]));
    if text[2] == PAD {
      OnePadded(text[0], text[1]);
      assert Data(text) == [o[0]] && text == [text[0], text[1]] + [PAD, PAD];
      Cancel(Quad(o[0], 0, 0)[..2], [PAD, PAD], [text[0], text[1]], [PAD, PAD]);
    } else if text[3] == PAD {
      TwoPadded(text[0], text[1], text[2]);
      assert Data(text) == [o[0], o[1]] && text == [text[0], text[1], text[2]] + [PAD];
      Cancel(Quad(o[0], o[1], 0)[..3], [PAD], [text[0], text[1], text[2]], [PAD]);
    } else {
      OctetsQuad(text[0], text[1], text[2], text[3]);
      assert Data(text) == o && o[3..] == [] && Encoded(o) == Quad(o[0], o[1], o[2]) + Encoded([]);
      assert text == [text[0], text[1], text[2], text[3]];
    }
  }

  /** Groups of one, two and three octets: which bits of which octet each character stands for. */
  lemma GroupsSpelled(a: byte, b: byte, c: byte)
    ensures Encoded([a]) == [EncodingTable(a / 4), EncodingTable(a % 4 * 16), Ch('='), Ch('=')]
    ensures Encoded([a, b])
            == [EncodingTable(a / 4), EncodingTable(a % 4 * 16 + b / 16), EncodingTable(b % 16 * 4), Ch('=')]
    ensures Encoded([a, b, c])
            == [EncodingTable(a / 4), EncodingTable(a % 4 * 16 + b / 16),
                EncodingTable(b % 16 * 4 + c / 64), EncodingTable(c % 64)]
  {
    hide EncodingTable;
    assert [a, b, c][3..] == [];
  }
}
