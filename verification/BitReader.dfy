/** CBitReader: most-significant-bit-first reads from a byte buffer, and Exp-Golomb codes. */
module BitReading {
  import opened Bytes
  import opened Bits

  type bit = b: int | 0 <= b < 2

  /** The n low bits of v, most significant first: how a fixed-width field is written. */
  function FixedBits(v: nat, n: nat): (bs: seq<bit>)
    ensures |bs| == n
  {
    if n == 0 then [] else FixedBits(v / 2, n - 1) + [v % 2]
  }

  /** The number a run of bits stands for, most significant first. */
  function Value(bs: seq<bit>): nat {
    if bs == [] then 0 else 2 * Value(bs[..|bs| - 1]) + bs[|bs| - 1]
  }

  /** The bits of a buffer in reading order. */
  function Stream(buf: bytes): (bs: seq<bit>)
    ensures |bs| == 8 * |buf|
  {
    seq(8 * |buf|, p requires 0 <= p < 8 * |buf| => FixedBits(buf[p / 8], 8)[p % 8])
  }

  lemma {:induction false} FixedValue(v: nat, n: nat)
    ensures Value(FixedBits(v, n)) == Low(v, n)
  {
    if n > 0 {
      FixedValue(v / 2, n - 1);
      assert FixedBits(v, n)[..n - 1] == FixedBits(v / 2, n - 1);
    }
  }

  lemma {:induction false} FixedAt(v: nat, n: nat, j: nat)
    requires j < n
    ensures FixedBits(v, n)[j] == Low(Shr(v, n - 1 - j), 1)
  {
    if j < n - 1 {
      FixedAt(v / 2, n - 1, j);
    }
  }

  lemma {:induction false} LowOfSmall(v: nat, n: nat)
    requires v < Pow2(n)
    ensures Low(v, n) == v
  {
    if n > 0 {
      LowOfSmall(v / 2, n - 1);
    }
  }

  lemma {:induction false} ValueAppend(a: seq<bit>, b: seq<bit>)
    ensures Value(a + b) == Shl(Value(a), |b|) + Value(b)
  {
    if b == [] {
      assert a + b == a;
    } else {
      var n := |b| - 1;
      assert (a + b)[..|a| + n] == a + b[..n];
      ValueAppend(a, b[..n]);
    }
  }

  lemma {:induction false} ValueBound(bs: seq<bit>)
    ensures Value(bs) < Pow2(|bs|)
  {
    if bs != [] {
      ValueBound(bs[..|bs| - 1]);
    }
  }

  /** ReadBits(n + m) splits as ReadBits(n) * 2^m + ReadBits(m). */
  lemma ReadBitsSplit(bs: seq<bit>, p: nat, n: nat, m: nat)
    requires p + n + m <= |bs|
    ensures Value(bs[p..p + n + m]) == Value(bs[p..p + n]) * Pow2(m) + Value(bs[p + n..p + n + m])
  {
    assert bs[p..p + n + m] == bs[p..p + n] + bs[p + n..p + n + m];
    ValueAppend(bs[p..p + n], bs[p + n..p + n + m]);
    ShlIsProduct(Value(bs[p..p + n]), m);
  }

  // ---- Exp-Golomb codes, section 9.1 of ITU-T H.264 ----

  /** Zero bits before the first one bit, or before the end. */
  function LeadingZeros(bs: seq<bit>, p: nat): (k: nat)
    requires p <= |bs|
    ensures p + k <= |bs|
    decreases |bs| - p
  {
    if p == |bs| || bs[p] == 1 then 0 else 1 + LeadingZeros(bs, p + 1)
  }

  /** A whole code stands at p, and its value fits a 32-bit int. */
  predicate HasCode(bs: seq<bit>, p: nat) {
    p <= |bs| && var k := LeadingZeros(bs, p); k <= 30 && p + 2 * k + 1 <= |bs|
  }

  function CodeEnd(bs: seq<bit>, p: nat): (q: nat)
    requires HasCode(bs, p)
    ensures p < q <= |bs|
  {
    p + 2 * LeadingZeros(bs, p) + 1
  }

  function CodeNum(bs: seq<bit>, p: nat): nat
    requires HasCode(bs, p)
  {
    var k := LeadingZeros(bs, p);
    Pow2(k) - 1 + Value(bs[p + k + 1..p + 2 * k + 1])
  }

  /** Table 9-3: code numbers 0, 1, 2, 3, 4 ... stand for 0, 1, -1, 2, -2 ... */
  function Signed(code: nat): int {
    if code % 2 == 1 then (code + 1) / 2 else -(code / 2)
  }

  function CodeOfSigned(v: int): nat {
    if v > 0 then 2 * v - 1 else -2 * v
  }

  lemma SignedRoundTrip(v: int, code: nat)
    ensures Signed(CodeOfSigned(v)) == v && CodeOfSigned(Signed(code)) == code
  {
  }

  const WORD := 0x1_0000_0000

  class BitReader {
    const buf: bytes
    var curBit: int

    ghost predicate Valid()
      reads this
    {
      0 <= curBit && |buf| < 0x1000_0000
    }

    /** SetBitReader on a buffer whose bit count fits an int. */
    constructor (data: bytes)
      requires |data| < 0x1000_0000
      ensures Valid() && buf == data && curBit == 0
    {
      buf, curBit := data, 0;
    }

    /**
     The guard lets a cursor exactly at the end through to a read outside the buffer, so callers must keep
     clear of it.
     */
    method ReadBit() returns (r: nat)
      requires Valid() && curBit != 8 * |buf|
      modifies this
      ensures Valid()
      ensures old(curBit) < |Stream(buf)| ==> r == Stream(buf)[old(curBit)] && curBit == old(curBit) + 1
      ensures old(curBit) > |Stream(buf)| ==> r == WORD - 1 && curBit == old(curBit)
    {
      hide FixedBits;
      ByteIndex(curBit);
      ByteIndex(|buf|);
      if curBit > Shl(|buf|, 3) {
        return WORD - 1;
      }
      var index := Shr(curBit, 3);
      var offset := curBit % 8 + 1;
      curBit := curBit + 1;
      r := And(Shr(buf[index], 8 - offset), 0x01);
      AndIsLow(Shr(buf[index], 8 - offset), 1);
      FixedAt(buf[index], 8, offset - 1);
    }

    method ReadBits(n: nat) returns (r: nat)
      requires Valid() && n <= 32 && curBit + n <= 8 * |buf|
      modifies this
      ensures Valid() && curBit == old(curBit) + n
      ensures r == Value(Stream(buf)[old(curBit)..curBit]) && r < Pow2(n) <= WORD
    {
      hide Stream, Or;
      r := 0;
      ghost var p := curBit;
      var i := 0;
      ShlIsProduct(0, n);
      while i < n
        invariant 0 <= i <= n && curBit == p + i && Valid()
        invariant r == Shl(Value(Stream(buf)[p..p + i]), n - i)
      {
        var b := ReadBit();
        BitJoins(Stream(buf), p, i, n);
        r := Or(r, Shl(b, n - i - 1));
        i := i + 1;
      }
      ValueBound(Stream(buf)[p..p + n]);
      Pow2Table();
      Pow2Grows(n, 32);
    }

    /** The little-endian branch, which assembles the bytes most significant first from the byte the cursor is in. */
    method Read32Bits() returns (r: nat)
      requires Valid() && curBit / 8 + 4 <= |buf|
      modifies this
      ensures Valid() && curBit == old(curBit) + 32
      ensures r == Value(Stream(buf)[old(curBit) / 8 * 8..old(curBit) / 8 * 8 + 32])
    {
      hide Stream, Or, Shl, Value;
      var index := Shr(curBit, 3);
      ByteIndex(curBit);
      r := Or(Or(Shl(buf[index], 24), Or(Shl(buf[index + 1], 16), Shl(buf[index + 2], 8))), buf[index + 3]);
      FourBytes(buf, index);
      curBit := curBit + 32;
    }

    method ReadExponentialGolombCode() returns (r: nat)
      requires Valid() && HasCode(Stream(buf), curBit)
      modifies this
      ensures Valid() && curBit == CodeEnd(Stream(buf), old(curBit)) && r == CodeNum(Stream(buf), old(curBit))
      ensures r < WORD / 2
    {
      hide Stream, Value;
      ghost var bs, p := Stream(buf), curBit;
      var i := 0;
      var b := ReadBit();
      while b == 0 && i < 32
        invariant Valid() && 0 <= i <= 30 && curBit == p + i + 1 <= |bs| && b == bs[p + i]
        invariant LeadingZeros(bs, p) == i + LeadingZeros(bs, p + i)
        decreases 32 - i
      {
        i := i + 1;
        b := ReadBit();
      }
      assert LeadingZeros(bs, p) == i;
      r := ReadBits(i);
      GolombFits(i, r);
      r := r + Shl(1, i) - 1;
    }

    /** The result is an int passed back as unsigned. */
    method ReadSE() returns (r: nat)
      requires Valid() && HasCode(Stream(buf), curBit)
      modifies this
      ensures Valid() && curBit == CodeEnd(Stream(buf), old(curBit))
      ensures r == Signed(CodeNum(Stream(buf), old(curBit))) % WORD
    {
      hide Stream, CodeNum, HasCode, CodeEnd;
      var n := ReadExponentialGolombCode();
      var v: int := n;
      AndIsLow(n, 1);
      if And(n, 0x01) != 0 {
        v := (v + 1) / 2;
      } else {
        v := -(v / 2);
      }
      r := v % WORD;
    }

    /** A caller that reads a list of fields of these shapes, taking ReadSE's word as the int it is. */
    method ReadFields(shapes: seq<Field>) returns (fs: seq<Field>)
      requires Valid() && HasFields(Stream(buf), curBit, shapes)
      modifies this
      ensures Valid() && (fs, curBit) == ReadAll(Stream(buf), old(curBit), shapes)
    {
      hide Stream, CodeNum, HasCode, CodeEnd, Value, Signed;
      ghost var bs, all := Stream(buf), ReadAll(Stream(buf), curBit, shapes);
      fs := [];
      assert shapes[0..] == shapes && fs + all.0 == all.0;
      for i := 0 to |shapes|
        invariant Valid() && HasFields(bs, curBit, shapes[i..])
        invariant var rest := ReadAll(bs, curBit, shapes[i..]);
                  all == (fs + rest.0, rest.1)
      {
        assert shapes[i..][0] == shapes[i] && shapes[i..][1..] == shapes[i + 1..];
        ghost var p, before, rest := curBit, fs, ReadAll(bs, ReadField(bs, curBit, shapes[i]).1, shapes[i + 1..]);
        match shapes[i] {
          case UE(_) =>
            var v := ReadExponentialGolombCode();
            fs := fs + [UE(v)];
          case SE(_) =>
            CodeFits(bs, curBit);
            SignedFits(CodeNum(bs, curBit));
            var r := ReadSE();
            fs := fs + [SE(AsInt(r))];
          case Fixed(_, width) =>
            var u := ReadBits(width);
            fs := fs + [Fixed(u, width)];
        }
        assert fs == before + [ReadField(bs, p, shapes[i]).0];
        assert before + ([ReadField(bs, p, shapes[i]).0] + rest.0) == fs + rest.0;
      }
      assert shapes[|shapes|..] == [] && fs + [] == fs;
    }
  }

  lemma CodeFits(bs: seq<bit>, p: nat)
    requires HasCode(bs, p)
    ensures CodeNum(bs, p) < WORD / 2
  {
    var k := LeadingZeros(bs, p);
    ValueBound(bs[p + k + 1..p + 2 * k + 1]);
    GolombFits(k, Value(bs[p + k + 1..p + 2 * k + 1]));
  }

  lemma ByteIndex(p: nat)
    ensures Shr(p, 3) == p / 8 && Shl(p, 3) == 8 * p
  {
    Pow2Table();
    ShrLow(p, 3);
    ShlIsProduct(Shr(p, 3), 3);
    ShlIsProduct(p, 3);
  }

  /** One round of ReadBits: the next bit lands just below the bits already in place. */
  lemma BitJoins(bs: seq<bit>, p: nat, i: nat, n: nat)
    requires i < n && p + n <= |bs|
    ensures Or(Shl(Value(bs[p..p + i]), n - i), Shl(bs[p + i], n - i - 1)) == Shl(Value(bs[p..p + i + 1]), n - i - 1)
  {
    hide Or, Shl;
    var v, b, k := Value(bs[p..p + i]), bs[p + i], n - i - 1;
    assert bs[p..p + i + 1][..i] == bs[p..p + i];
    ShlIsProduct(b, k);
    ShlAdd(v, 0, k);
    ShlAdd(2 * v, b, k);
    OrIsAdd(v, Shl(b, k), k + 1);
  }

  lemma GolombFits(k: nat, v: nat)
    requires k <= 30 && v < Pow2(k)
    ensures Shl(1, k) == Pow2(k) && v + Shl(1, k) - 1 < WORD / 2
  {
    Pow2Table();
    ShlIsProduct(1, k);
    Pow2Grows(k + 1, 31);
  }

  lemma ByteBits(buf: bytes, k: nat)
    requires k < |buf|
    ensures Stream(buf)[8 * k..8 * k + 8] == FixedBits(buf[k], 8) && Value(Stream(buf)[8 * k..8 * k + 8]) == buf[k]
  {
    hide FixedBits, Value;
    Pow2Table();
    FixedValue(buf[k], 8);
    LowOfSmall(buf[k], 8);
    forall j | 0 <= j < 8 ensures Stream(buf)[8 * k + j] == FixedBits(buf[k], 8)[j] {
      assert (8 * k + j) / 8 == k && (8 * k + j) % 8 == j;
    }
  }

  lemma FourBytes(buf: bytes, k: nat)
    requires k + 4 <= |buf|
    ensures Or(Or(Shl(buf[k], 24), Or(Shl(buf[k + 1], 16), Shl(buf[k + 2], 8))), buf[k + 3])
            == Value(Stream(buf)[8 * k..8 * k + 32])
  {
    hide Or, Shl, Stream, Value;
    var bs := Stream(buf);
    Pow2Table();
    ByteBits(buf, k);
    ByteBits(buf, k + 1);
    ByteBits(buf, k + 2);
    ByteBits(buf, k + 3);
    ReadBitsSplit(bs, 8 * k, 8, 24);
    ReadBitsSplit(bs, 8 * k + 8, 8, 16);
    ReadBitsSplit(bs, 8 * k + 16, 8, 8);
    Assembled(buf[k], buf[k + 1], buf[k + 2], buf[k + 3]);
  }

  /** Or-ing four shifted bytes together is place value in base 256. */
  lemma Assembled(a: nat, b: nat, c: nat, d: nat)
    requires a < 256 && b < 256 && c < 256 && d < 256
    ensures Or(Or(Shl(a, 24), Or(Shl(b, 16), Shl(c, 8))), d) == a * 0x100_0000 + b * 0x1_0000 + c * 0x100 + d
  {
    hide Or, Shl;
    Pow2Table();
    ShlIsProduct(a, 24);
    ShlIsProduct(b, 16);
    ShlIsProduct(c, 8);
    ShlIsProduct(a * 0x1_0000 + b * 0x100 + c, 8);
    OrIsAdd(b, c * 0x100, 16);
    OrIsAdd(a, b * 0x1_0000 + c * 0x100, 24);
    OrIsAdd(a * 0x1_0000 + b * 0x100 + c, d, 8);
  }

  /** On byte-aligned positions Read32Bits reads what ReadBits(32) reads. */
  lemma AlignedReadsAgree(p: nat)
    ensures p % 8 == 0 <==>
            forall buf: bytes :: p + 32 <= 8 * |buf| ==>
              Value(Stream(buf)[p / 8 * 8..p / 8 * 8 + 32]) == Value(Stream(buf)[p..p + 32])
  {
    hide Stream, Value;
    if p % 8 == 0 {
      assert p / 8 * 8 == p;
    } else {
      var buf: bytes := seq(p / 8, _ => 0) + [0x80, 0, 0, 0, 0];
      UnalignedDiffer(buf, p);
    }
  }

  lemma UnalignedDiffer(buf: bytes, p: nat)
    requires p % 8 != 0 && buf == seq(p / 8, _ => 0) + [0x80, 0, 0, 0, 0]
    ensures p + 32 <= 8 * |buf| && Value(Stream(buf)[p / 8 * 8..p / 8 * 8 + 32]) != Value(Stream(buf)[p..p + 32])
  {
    hide Or, Shl, Stream, Value;
    var q := p / 8;
    FourBytes(buf, q);
    var z := Stream(buf)[p..p + 32];
    assert forall j | 0 <= j < 32 :: z[j] == 0 by {
      forall j | 0 <= j < 32 ensures z[j] == 0 {
        BitOfMarker(buf, p, j);
      }
    }
    ZerosValue(z);
    Assembled(0x80, 0, 0, 0);
  }

  lemma BitOfMarker(buf: bytes, p: nat, j: nat)
    requires p % 8 != 0 && buf == seq(p / 8, _ => 0) + [0x80, 0, 0, 0, 0] && j < 32
    ensures p + j < 8 * |buf| && Stream(buf)[p + j] == 0
  {
    hide FixedBits;
    var k := (p + j) / 8;
    MarkerBits((p + j) % 8);
  }

  lemma MarkerBits(j: nat)
    requires j < 8
    ensures FixedBits(0, 8)[j] == 0 && (j > 0 ==> FixedBits(0x80, 8)[j] == 0)
  {
    assert FixedBits(0, 8) == [0, 0, 0, 0, 0, 0, 0, 0];
    assert FixedBits(0x80, 8) == [1, 0, 0, 0, 0, 0, 0, 0];
  }

  lemma {:induction false} ZerosValue(z: seq<bit>)
    requires forall j :: 0 <= j < |z| ==> z[j] == 0
    ensures Value(z) == 0
  {
    if z != [] {
      ZerosValue(z[..|z| - 1]);
    }
  }

  // ---- the writer ----

  /** How many zeros lead the code for v. */
  function Width(v: nat): (k: nat)
    ensures Pow2(k) <= v + 1 < Pow2(k + 1)
  {
    if v == 0 then 0 else 1 + Width((v - 1) / 2)
  }

  function Zeros(k: nat): (z: seq<bit>)
    ensures |z| == k
  {
    seq(k, _ => 0)
  }

  /** ue(v) */
  function CodeBits(v: nat): seq<bit> {
    Zeros(Width(v)) + [1] + FixedBits(v + 1 - Pow2(Width(v)), Width(v))
  }

  /** The first rows of table 9-2. */
  lemma CodeTable()
    ensures CodeBits(0) == [1] && CodeBits(1) == [0, 1, 0] && CodeBits(2) == [0, 1, 1]
  {
    assert Width(0) == 0 && Width(1) == 1 && Width(2) == 1;
    assert FixedBits(0, 1) == [0] && FixedBits(1, 1) == [1];
  }

  lemma CodeTableMore()
    ensures CodeBits(3) == [0, 0, 1, 0, 0] && CodeBits(4) == [0, 0, 1, 0, 1]
  {
    assert Width(3) == 2 && Width(4) == 2;
    assert FixedBits(0, 2) == [0, 0] && FixedBits(1, 2) == [0, 1];
  }

  /** The first rows of table 9-3. */
  lemma SignedTable()
    ensures Signed(0) == 0 && Signed(1) == 1 && Signed(2) == -1 && Signed(3) == 2 && Signed(4) == -2
  {
  }

  datatype Field = UE(v: nat) | SE(s: int) | Fixed(u: nat, width: nat)

  /** Fields whose values a 32-bit reader can return. */
  predicate Writable(f: Field) {
    match f
    case UE(v) => v < WORD / 2 - 1
    case SE(s) => CodeOfSigned(s) < WORD / 2 - 1
    case Fixed(u, width) => width <= 32 && u < Pow2(width)
  }

  function FieldBits(f: Field): seq<bit> {
    match f
    case UE(v) => CodeBits(v)
    case SE(s) => CodeBits(CodeOfSigned(s))
    case Fixed(u, width) => FixedBits(u, width)
  }

  function StreamOf(fs: seq<Field>): seq<bit> {
    if fs == [] then [] else FieldBits(fs[0]) + StreamOf(fs[1..])
  }

  /** The bits t stand in bs at p. */
  predicate Stands(bs: seq<bit>, p: nat, t: seq<bit>) {
    p + |t| <= |bs| && bs[p..p + |t|] == t
  }

  lemma StandsSplit(bs: seq<bit>, p: nat, a: seq<bit>, b: seq<bit>)
    requires Stands(bs, p, a + b)
    ensures Stands(bs, p, a) && Stands(bs, p + |a|, b)
  {
    var t := bs[p..p + |a| + |b|];
    assert bs[p..p + |a|] == t[..|a|];
    assert bs[p + |a|..p + |a| + |b|] == t[|a|..];
    assert (a + b)[..|a|] == a && (a + b)[|a|..] == b;
  }

  lemma {:induction false} ZerosLead(bs: seq<bit>, p: nat, k: nat)
    requires Stands(bs, p, Zeros(k)) && p + k < |bs| && bs[p + k] == 1
    ensures LeadingZeros(bs, p) == k
    decreases k
  {
    if k > 0 {
      assert bs[p..p + k][0] == 0;
      assert bs[p + 1..p + k] == bs[p..p + k][1..];
      ZerosLead(bs, p + 1, k - 1);
    }
  }

  /** A written code is read back, with the cursor just behind it. */
  lemma CodeRoundTrip(bs: seq<bit>, p: nat, v: nat)
    requires v < WORD / 2 - 1 && Stands(bs, p, CodeBits(v))
    ensures HasCode(bs, p) && CodeNum(bs, p) == v && CodeEnd(bs, p) == p + |CodeBits(v)|
  {
    hide Value, FixedBits, Width;
    var k := Width(v);
    WidthBound(v);
    var tail := FixedBits(v + 1 - Pow2(k), k);
    StandsSplit(bs, p, Zeros(k) + [1], tail);
    StandsSplit(bs, p, Zeros(k), [1]);
    assert bs[p + k] == bs[p + k..p + k + 1][0];
    ZerosLead(bs, p, k);
    FixedValue(v + 1 - Pow2(k), k);
    LowOfSmall(v + 1 - Pow2(k), k);
  }

  lemma WidthBound(v: nat)
    requires v < WORD / 2 - 1
    ensures Width(v) <= 30
  {
    hide Width;
    if Width(v) > 30 {
      Pow2Table();
      Pow2Grows(31, Width(v));
    }
  }

  /** A field of this shape stands at p, and the reader's words can hold it. */
  predicate HasField(bs: seq<bit>, p: nat, shape: Field) {
    match shape
    case Fixed(_, width) => width <= 32 && p + width <= |bs|
    case _ => HasCode(bs, p)
  }

  /** What the reader returns for a field of this shape at p, and where it leaves the cursor. */
  function ReadField(bs: seq<bit>, p: nat, shape: Field): (r: (Field, nat))
    requires HasField(bs, p, shape)
  {
    match shape
    case UE(_) => (UE(CodeNum(bs, p)), CodeEnd(bs, p))
    case SE(_) => (SE(Signed(CodeNum(bs, p))), CodeEnd(bs, p))
    case Fixed(_, width) => (Fixed(Value(bs[p..p + width]), width), p + width)
  }

  predicate HasFields(bs: seq<bit>, p: nat, shapes: seq<Field>)
    decreases |shapes|
  {
    shapes == [] ||
    (HasField(bs, p, shapes[0]) && HasFields(bs, ReadField(bs, p, shapes[0]).1, shapes[1..]))
  }

  /** The fields read one after the other, and where the cursor ends. */
  function ReadAll(bs: seq<bit>, p: nat, shapes: seq<Field>): (r: (seq<Field>, nat))
    requires HasFields(bs, p, shapes)
    decreases |shapes|
  {
    if shapes == [] then ([], p)
    else
      var (f, q) := ReadField(bs, p, shapes[0]);
      var (fs, end) := ReadAll(bs, q, shapes[1..]);
      ([f] + fs, end)
  }

  /** A word taken back as an int of 32 bits. */
  function AsInt(r: nat): int
    requires r < WORD
  {
    if r < WORD / 2 then r else r - WORD
  }

  /** Two's complement: every int of 32 bits survives its trip through a word. */
  lemma WordIsInt(s: int)
    requires -0x8000_0000 <= s < 0x8000_0000
    ensures AsInt(s % 0x1_0000_0000) == s
  {
    if s < 0 {
      assert s % 0x1_0000_0000 == s + 0x1_0000_0000;
    }
  }

  lemma SignedFits(code: nat)
    requires code < WORD / 2
    ensures AsInt(Signed(code) % WORD) == Signed(code)
  {
  }

  lemma FieldRoundTrip(bs: seq<bit>, p: nat, f: Field)
    requires Writable(f) && Stands(bs, p, FieldBits(f))
    ensures HasField(bs, p, f) && ReadField(bs, p, f) == (f, p + |FieldBits(f)|)
  {
    hide CodeNum, HasCode, CodeEnd, CodeBits, Value, FixedBits;
    match f {
      case UE(v) => CodeRoundTrip(bs, p, v);
      case SE(s) =>
        CodeRoundTrip(bs, p, CodeOfSigned(s));
        SignedRoundTrip(s, 0);
      case Fixed(u, width) =>
        FixedValue(u, width);
        LowOfSmall(u, width);
    }
  }

  /** Any list of fields written one after the other is read back in order, with the cursor at the exact end. */
  lemma {:induction false} StreamRoundTrip(bs: seq<bit>, p: nat, fs: seq<Field>)
    requires Stands(bs, p, StreamOf(fs)) && forall f :: f in fs ==> Writable(f)
    ensures HasFields(bs, p, fs) && ReadAll(bs, p, fs) == (fs, p + |StreamOf(fs)|)
    decreases |fs|
  {
    hide FieldBits, ReadField, Writable, HasField, Stands;
    if fs != [] {
      assert fs[0] in fs;
      StandsSplit(bs, p, FieldBits(fs[0]), StreamOf(fs[1..]));
      FieldRoundTrip(bs, p, fs[0]);
      StreamRoundTrip(bs, p + |FieldBits(fs[0])|, fs[1..]);
      assert fs == [fs[0]] + fs[1..];
    }
  }
}
