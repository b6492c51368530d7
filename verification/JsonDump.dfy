/** Json::dump as a function of the value, and the tokens behind what it prints. */
module JsonDump {
  import opened Bytes
  import opened JsonValue
  import opened JsonCursor
  import opened Utf8
  import opened JsonStrings
  import opened JsonNumbers
  import opened JsonParse

  const SPACE: byte := 0x20

  /** Decimal digits without leading zeros, as %d prints them. */
  function DigitsOf(n: nat): (ds: bytes)
    ensures ds != []
  {
    if n < 10 then [ZERO + n] else DigitsOf(n / 10) + [ZERO + n % 10]
  }

  function IntText(i: int): bytes {
    if i < 0 then [MINUS] + DigitsOf(-i) else DigitsOf(i)
  }

  /** Integers up to 2^53 in magnitude, which a double holds exactly and %.17g prints as a sign and digits. */
  predicate IsExact(d: Double) {
    d.Finite? && d.v == d.v.Floor as real && -0x20_0000_0000_0000 <= d.v.Floor <= 0x20_0000_0000_0000
  }

  /** dump of a number: %d of an int, %.17g of a finite double, which shows the sign of a zero, null otherwise. */
  function DumpNum(n: Num): bytes
    requires n.Dbl? && n.d.Finite? ==> IsExact(n.d)
  {
    match n
    case Int(i) => IntText(i)
    case Dbl(Finite(v)) => IntText(v.Floor)
    case Dbl(NegZero) => [MINUS, ZERO]
    case Dbl(_) => NULL_TEXT
  }

  function HexChar(d: nat): byte
    requires d < 16
  {
    if d < 10 then ZERO + d else 0x61 + (d - 10)
  }

  /** U+2028 or U+2029 in UTF-8 at position i. The source's reads past the end meet the terminating NUL. */
  predicate IsLineSeparator(x: bytes, i: nat)
    requires i < |x|
  {
    x[i] == 0xE2 && At(x, i + 1) == 0x80 && (At(x, i + 2) == 0xA8 || At(x, i + 2) == 0xA9)
  }

  /** How the string dump writes what stands at position i. */
  function Escape(x: bytes, i: nat): bytes
    requires i < |x|
  {
    var ch := x[i];
    if ch == BACKSLASH then [BACKSLASH, BACKSLASH]
    else if ch == QUOTE then [BACKSLASH, QUOTE]
    else if ch == 0x08 then [BACKSLASH, 0x62]
    else if ch == 0x0C then [BACKSLASH, 0x66]
    else if ch == 0x0A then [BACKSLASH, 0x6E]
    else if ch == 0x0D then [BACKSLASH, 0x72]
    else if ch == 0x09 then [BACKSLASH, 0x74]
    else if ch <= 0x1F then [BACKSLASH, 0x75, ZERO, ZERO, HexChar(ch / 16), HexChar(ch % 16)]
    else if IsLineSeparator(x, i) then
      [BACKSLASH, 0x75, ZERO + 2, ZERO, ZERO + 2, if x[i + 2] == 0xA8 then ZERO + 8 else ZERO + 9]
    else [ch]
  }

  /** How many bytes of the string one round of the dump loop uses up. */
  function Used(x: bytes, i: nat): (k: nat)
    requires i < |x|
    ensures 1 <= k && i + k <= |x|
  {
    if IsLineSeparator(x, i) then 3 else 1
  }

  function EscapeFrom(x: bytes, i: nat): bytes
    requires i <= |x|
    decreases |x| - i
  {
    if i == |x| then [] else Escape(x, i) + EscapeFrom(x, i + Used(x, i))
  }

  /** dump of a string */
  function DumpString(x: bytes): bytes {
    [QUOTE] + (EscapeFrom(x, 0) + [QUOTE])
  }

  /** Values whose numbers dump prints as integers or as null. */
  predicate Printable(v: Json)
    decreases v, 1
  {
    match v
    case Number(n) => n.Dbl? && n.d.Finite? ==> IsExact(n.d)
    case Array(xs) => PrintableSeq(xs)
    case Object(fs) => PrintableFields(fs)
    case _ => true
  }

  predicate PrintableSeq(xs: seq<Json>)
    decreases xs, 0
  {
    xs == [] || (Printable(xs[0]) && PrintableSeq(xs[1..]))
  }

  predicate PrintableFields(fs: seq<Field>)
    decreases fs, 0
  {
    fs == [] || (Printable(fs[0].v) && PrintableFields(fs[1..]))
  }

  /** Json::dump */
  function Dump(v: Json): bytes
    requires Printable(v)
    decreases v, 1
  {
    match v
    case Null => NULL_TEXT
    case Number(n) => DumpNum(n)
    case Bool(b) => if b then TRUE_TEXT else FALSE_TEXT
    case String(x) => DumpString(x)
    case Array(xs) => [LBRACKET] + (DumpItems(xs, true) + [RBRACKET])
    case Object(fs) => [LBRACE] + (DumpFields(fs, true) + [RBRACE])
  }

  /** The array loop; first is the source's flag that suppresses the separator. */
  function DumpItems(xs: seq<Json>, first: bool): bytes
    requires PrintableSeq(xs)
    decreases xs, 0
  {
    if xs == [] then [] else (if first then [] else [COMMA, SPACE]) + Dump(xs[0]) + DumpItems(xs[1..], false)
  }

  function DumpFields(fs: seq<Field>, first: bool): bytes
    requires PrintableFields(fs)
    decreases fs, 0
  {
    if fs == [] then []
    else
      (if first then [] else [COMMA, SPACE]) + DumpString(fs[0].key) + [COLON, SPACE] +
      Dump(fs[0].v) + DumpFields(fs[1..], false)
  }

  // ---- the dump as a text of the grammar ----

  function IntTok(i: int): NumTok {
    NumTok(i < 0, DigitsOf(if i < 0 then -i else i), NoFrac, NoExp)
  }

  lemma {:induction false} DigitsOfValue(n: nat)
    ensures DigitsValue(DigitsOf(n)) == n && AllDigits(DigitsOf(n))
    ensures DigitsOf(n)[0] == ZERO ==> |DigitsOf(n)| == 1
  {
    if n >= 10 {
      DigitsOfValue(n / 10);
      var ds := DigitsOf(n / 10);
      assert DigitsOf(n)[..|ds|] == ds;
      DigitsAppend(ds, ZERO + n % 10);
      assert ds == [ZERO] ==> DigitsValue(ds) == 0;
    }
  }

  lemma {:induction false} DigitsAppend(ds: bytes, b: byte)
    requires AllDigits(ds) && IsDigit(b)
    ensures AllDigits(ds + [b])
  {
    if ds != [] {
      assert (ds + [b])[1..] == ds[1..] + [b];
      DigitsAppend(ds[1..], b);
    }
  }

  /** An integer printed is a number token that reads back as that integer. */
  lemma IntTextIsToken(i: int)
    ensures ValidNum(IntTok(i)) && NumText(IntTok(i)) == IntText(i)
    ensures TokenNumber(IntTok(i)) == if |IntText(i)| <= 9 then Number(Int(i))
       else Number(Dbl(Finite(i as real)))
  {
    hide DigitsOf, DigitsValue, AllDigits;
    DigitsOfValue(if i < 0 then -i else i);
    NoParts(IntTok(i));
  }

  lemma NoParts(n: NumTok)
    requires n.frac.NoFrac? && n.exp.NoExp?
    ensures NumText(n) == SignText(n.neg) + n.whole && Decimal(n) == WholeValue(n) as real
  {
    hide DigitsValue;
  }

  /** The token behind Escape. */
  function EscapeTok(x: bytes, i: nat): (t: Tok)
    requires i < |x|
    ensures ValidTok(t) && TokText(t) == Escape(x, i)
  {
    var ch := x[i];
    if ch == BACKSLASH || ch == QUOTE then Simple(ch)
    else if ch == 0x08 then Simple(0x62)
    else if ch == 0x0C then Simple(0x66)
    else if ch == 0x0A then Simple(0x6E)
    else if ch == 0x0D then Simple(0x72)
    else if ch == 0x09 then Simple(0x74)
    else if ch <= 0x1F then Hex([ZERO, ZERO, HexChar(ch / 16), HexChar(ch % 16)])
    else if IsLineSeparator(x, i) then
      Hex([ZERO + 2, ZERO, ZERO + 2, if x[i + 2] == 0xA8 then ZERO + 8 else ZERO + 9])
    else Plain(ch)
  }

  function EscapeToks(x: bytes, i: nat): (ts: seq<Tok>)
    requires i <= |x|
    ensures ValidToks(ts)
    decreases |x| - i
  {
    if i == |x| then [] else [EscapeTok(x, i)] + EscapeToks(x, i + Used(x, i))
  }

  /** What one escape is read back as: the bytes it was written for. */
  lemma EscapeReadsBack(x: bytes, i: nat, rest: seq<Item>)
    requires i < |x| && ValidItems(rest)
    ensures var it := Meaning(EscapeTok(x, i));
            ValidItems([it] + rest) && Render([it] + rest) == x[i..i + Used(x, i)] + Render(rest)
  {
    hide Encode, Render;
    var t := EscapeTok(x, i);
    if t.Hex? {
      var u := HexValue(t.h);
      assert !IsHigh(u);
      RenderUnit(u, rest);
      if IsLineSeparator(x, i) {
        SeparatorEncoded(u);
        assert x[i..i + 3] == [x[i], x[i + 1], x[i + 2]];
      } else {
        assert u == x[i];
        EncodeArithmetic(u);
      }
    } else {
      RenderByte(Meaning(t).b, rest);
    }
  }

  lemma RenderUnit(u: nat, rest: seq<Item>)
    requires u < 0x1_0000 && !IsHigh(u) && ValidItems(rest)
    ensures ValidItems([Unit(u)] + rest) && Render([Unit(u)] + rest) == Encode(u) + Render(rest)
  {
    assert ([Unit(u)] + rest)[1..] == rest;
  }

  lemma SeparatorEncoded(u: nat)
    requires u == 0x2028 || u == 0x2029
    ensures Encode(u) == [0xE2, 0x80, if u == 0x2028 then 0xA8 else 0xA9]
  {
    hide Encode;
    EncodeArithmetic(u);
  }

  /** For every byte string: the escaped text is a token list, and reading it gives the same bytes back. */
  lemma {:induction false} EscapeRoundTrip(x: bytes, i: nat)
    requires i <= |x|
    ensures ToksText(EscapeToks(x, i)) == EscapeFrom(x, i)
    ensures StringValue(EscapeToks(x, i)) == x[i..]
    decreases |x| - i
  {
    hide Escape, TokText, Render, Meaning, EscapeTok;
    if i < |x| {
      var k := Used(x, i);
      EscapeRoundTrip(x, i + k);
      var t, ts := EscapeTok(x, i), EscapeToks(x, i + k);
      assert ([t] + ts)[1..] == ts;
      EscapeReadsBack(x, i, Meanings(ts));
      SliceJoin(x, i, i + k, |x|);
    } else {
      assert Render([]) == [] by {
        RenderNone();
      }
    }
  }

  lemma RenderNone()
    ensures Render([]) == []
  {
  }
}
