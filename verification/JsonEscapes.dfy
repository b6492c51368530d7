/** Strings as a writer may spell them: raw bytes, one-letter escapes and hex escapes in either case. */
module JsonEscapes {
  import opened Bytes
  import opened Ascii
  import opened JsonCursor
  import opened Utf8
  import opened JsonStrings

  const LOWER := "0123456789abcdef"
  const UPPER := "0123456789ABCDEF"

  function HexChar(d: nat, upper: bool): byte
    requires d < 16
  {
    Ch(if upper then UPPER[d] else LOWER[d])
  }

  /** Four hex digits for a code unit, each in the case chosen for it. */
  function FourHex(u: nat, upper: seq<bool>): bytes
    requires u < 0x1_0000 && |upper| == 4
  {
    [HexChar(u / 0x1000, upper[0]), HexChar(u / 0x100 % 0x10, upper[1]),
     HexChar(u / 0x10 % 0x10, upper[2]), HexChar(u % 0x10, upper[3])]
  }

  lemma HexCharReads(d: nat, upper: bool)
    requires d < 16
    ensures IsHex(HexChar(d, upper)) && HexDigit(HexChar(d, upper)) == d
  {
  }

  /** A code unit in base 16. */
  lemma Sixteens(u: nat)
    requires u < 0x1_0000
    ensures u / 0x1000 < 0x10
    ensures u == u / 0x1000 * 0x1000 + u / 0x100 % 0x10 * 0x100 + u / 0x10 % 0x10 * 0x10 + u % 0x10
  {
    assert u / 0x100 == u / 0x10 / 0x10 && u / 0x1000 == u / 0x100 / 0x10;
    assert u / 0x10 == u / 0x100 * 0x10 + u / 0x10 % 0x10;
    assert u / 0x100 == u / 0x1000 * 0x10 + u / 0x100 % 0x10;
  }

  /** The digits so written read back as the unit. */
  lemma FourHexReads(u: nat, upper: seq<bool>)
    requires u < 0x1_0000 && |upper| == 4
    ensures IsHex4(FourHex(u, upper)) && HexValue(FourHex(u, upper)) == u
  {
    hide HexChar, IsHex, HexDigit;
    Sixteens(u);
    HexCharReads(u / 0x1000, upper[0]);
    HexCharReads(u / 0x100 % 0x10, upper[1]);
    HexCharReads(u / 0x10 % 0x10, upper[2]);
    HexCharReads(u % 0x10, upper[3]);
  }

  /** What a one-letter escape stands for. */
  predicate LetterFor(letter: char, b: byte) {
    || (letter == '"' && b == 0x22) || (letter == '\\' && b == 0x5C) || (letter == '/' && b == 0x2F)
    || (letter == 'b' && b == 0x08) || (letter == 'f' && b == 0x0C) || (letter == 'n' && b == 0x0A)
    || (letter == 'r' && b == 0x0D) || (letter == 't' && b == 0x09)
  }

  /** One character of a string as written, with what it means. */
  datatype Written = Raw(b: byte) | Letter(letter: char, b: byte) | Escaped(u: nat, upper: seq<bool>)

  predicate WellWritten(w: Written) {
    match w
    case Raw(b) => b >= 0x20 && b != Ch('"') && b != Ch('\\')
    case Letter(letter, b) => LetterFor(letter, b)
    case Escaped(u, upper) => u < 0x1_0000 && |upper| == 4
  }

  predicate AllWell(ws: seq<Written>) {
    ws == [] || (WellWritten(ws[0]) && AllWell(ws[1..]))
  }

  function Spelling(w: Written): bytes
    requires WellWritten(w)
  {
    match w
    case Raw(b) => [b]
    case Letter(letter, _) => Text("\\") + [Ch(letter)]
    case Escaped(u, upper) => Text("\\u") + FourHex(u, upper)
  }

  function Spellings(ws: seq<Written>): bytes
    requires AllWell(ws)
  {
    if ws == [] then [] else Spelling(ws[0]) + Spellings(ws[1..])
  }

  function ItemOf(w: Written): Item {
    match w
    case Raw(b) => Byte(b)
    case Letter(_, b) => Byte(b)
    case Escaped(u, _) => Unit(u)
  }

  function ItemsOf(ws: seq<Written>): (items: seq<Item>)
    requires AllWell(ws)
    ensures ValidItems(items)
  {
    if ws == [] then [] else [ItemOf(ws[0])] + ItemsOf(ws[1..])
  }

  function TokOf(w: Written): Tok
    requires WellWritten(w)
  {
    match w
    case Raw(b) => Plain(b)
    case Letter(letter, _) => Simple(Ch(letter))
    case Escaped(u, upper) => Hex(FourHex(u, upper))
  }

  lemma TokOfMeans(w: Written)
    requires WellWritten(w)
    ensures ValidTok(TokOf(w)) && TokText(TokOf(w)) == Spelling(w) && Meaning(TokOf(w)) == ItemOf(w)
  {
    hide FourHex, IsHex4, HexValue;
    if w.Escaped? {
      FourHexReads(w.u, w.upper);
    }
  }

  function ToksOf(ws: seq<Written>): seq<Tok>
    requires AllWell(ws)
  {
    if ws == [] then [] else [TokOf(ws[0])] + ToksOf(ws[1..])
  }

  lemma {:induction false} ToksOfMean(ws: seq<Written>)
    requires AllWell(ws)
    ensures ValidToks(ToksOf(ws)) && ToksText(ToksOf(ws)) == Spellings(ws) && Meanings(ToksOf(ws)) == ItemsOf(ws)
  {
    hide TokOf, ItemOf, Spelling, WellWritten, ValidTok, TokText, Meaning;
    if ws != [] {
      TokOfMeans(ws[0]);
      ToksOfMean(ws[1..]);
      assert ToksOf(ws)[1..] == ToksOf(ws[1..]);
    }
  }

  /** However a string is written, parse_string reads the bytes and code units that were meant, up to the quote. */
  lemma WrittenIsRead(s: bytes, c: Cursor, ws: seq<Written>)
    requires !c.failed && AllWell(ws) && Match(s, c.i, Spellings(ws) + Text("\""))
    ensures ParseString(s, c) == (Render(ItemsOf(ws)), c.(i := c.i + |Spellings(ws)| + 1))
  {
    hide ToksOf, ItemsOf, Spellings, AllWell, Match, Tokenise, ParseString, Render, Meanings, ToksText, ValidToks;
    ToksOfMean(ws);
    assert Text("\"") == [QUOTE];
    TokensRead(s, c.i, ToksOf(ws));
    StringParsed(s, c);
  }

  /** One escape alone is read as the UTF-8 of its unit, a surrogate's included. */
  lemma OneEscapeIsRead(s: bytes, c: Cursor, u: nat, upper: seq<bool>)
    requires !c.failed && u < 0x1_0000 && |upper| == 4
    requires Match(s, c.i, Text("\\u") + FourHex(u, upper) + Text("\""))
    ensures ParseString(s, c) == (Encode(u), c.(i := c.i + 7))
  {
    hide ParseString, Match, FourHex, Encode;
    var ws := [Escaped(u, upper)];
    FourHexReads(u, upper);
    assert ws[1..] == [] && Spellings(ws) == Spelling(ws[0]);
    WrittenIsRead(s, c, ws);
    OneUnit(u);
  }

  lemma OneUnit(u: nat)
    requires u < 0x1_0000
    ensures Render([Unit(u)]) == Encode(u)
  {
    hide Encode;
    assert [Unit(u)][1..] == [] && Encode(u) + [] == Encode(u);
  }

  /** Two escapes in a row: one code point exactly when the first is a high and the second a low surrogate. */
  lemma TwoEscapesAreRead(s: bytes, c: Cursor, u: nat, v: nat, upper: seq<bool>, lower: seq<bool>)
    requires !c.failed && u < 0x1_0000 && v < 0x1_0000 && |upper| == 4 && |lower| == 4
    requires Match(s, c.i, Text("\\u") + FourHex(u, upper) + (Text("\\u") + FourHex(v, lower)) + Text("\""))
    ensures ParseString(s, c)
            == (if 0xD800 <= u < 0xDC00 && 0xDC00 <= v < 0xE000 then
                  Encode(0x1_0000 + (u - 0xD800) * 0x400 + (v - 0xDC00))
                else Encode(u) + Encode(v),
                c.(i := c.i + 13))
  {
    hide ParseString, Match, FourHex, Encode, Spelling, Spellings, WellWritten, AllWell, ItemsOf, Render;
    var x, y := Escaped(u, upper), Escaped(v, lower);
    EscapeSpelled(u, upper);
    EscapeSpelled(v, lower);
    BothWritten(x, y);
    WrittenIsRead(s, c, [x, y]);
    TwoUnits(u, v, ItemsOf([x, y]));
  }

  lemma EscapeSpelled(u: nat, upper: seq<bool>)
    requires u < 0x1_0000 && |upper| == 4
    ensures WellWritten(Escaped(u, upper)) && |Spelling(Escaped(u, upper))| == 6
    ensures Spelling(Escaped(u, upper)) == Text("\\u") + FourHex(u, upper)
  {
  }

  lemma OneWritten(y: Written)
    requires WellWritten(y)
    ensures AllWell([y]) && Spellings([y]) == Spelling(y) && ItemsOf([y]) == [ItemOf(y)]
  {
    hide WellWritten, Spelling, ItemOf;
    assert [y][1..] == [];
    assert Spellings([]) == [] && ItemsOf([]) == [];
  }

  lemma BothWritten(x: Written, y: Written)
    requires WellWritten(x) && WellWritten(y)
    ensures AllWell([x, y]) && Spellings([x, y]) == Spelling(x) + Spelling(y)
    ensures ItemsOf([x, y]) == [ItemOf(x), ItemOf(y)]
  {
    hide WellWritten, Spelling, ItemOf;
    OneWritten(y);
    assert [x, y][1..] == [y];
  }

  lemma TwoUnits(u: nat, v: nat, items: seq<Item>)
    requires u < 0x1_0000 && v < 0x1_0000 && items == [Unit(u), Unit(v)] && ValidItems(items)
    ensures Render(items)
            == if 0xD800 <= u < 0xDC00 && 0xDC00 <= v < 0xE000 then
                 Encode(0x1_0000 + (u - 0xD800) * 0x400 + (v - 0xDC00))
               else Encode(u) + Encode(v)
  {
    hide Encode, Pair;
    assert items[1..] == [Unit(v)] && items[2..] == [];
    OneUnit(v);
    if IsHigh(u) && IsLow(v) {
      PairIsAstral(u, v);
      PairArithmetic(u, v, Pair(u, v));
      assert Encode(Pair(u, v)) + [] == Encode(Pair(u, v));
    }
  }

  lemma PairArithmetic(u: nat, v: nat, p: int)
    requires (p - 0x1_0000) / 0x400 + 0xD800 == u && (p - 0x1_0000) % 0x400 + 0xDC00 == v
    ensures p == 0x1_0000 + (u - 0xD800) * 0x400 + (v - 0xDC00)
  {
  }

  /** One letter escape alone: the slash, which nothing has to escape, included. */
  lemma OneLetterIsRead(s: bytes, c: Cursor, letter: char, b: byte)
    requires !c.failed && LetterFor(letter, b) && Match(s, c.i, Text("\\") + [Ch(letter)] + Text("\""))
    ensures ParseString(s, c) == ([b], c.(i := c.i + 3))
  {
    hide ParseString, Match;
    var ws := [Letter(letter, b)];
    assert ws[1..] == [] && Spellings(ws) == Spelling(ws[0]);
    WrittenIsRead(s, c, ws);
    assert Render([Byte(b)]) == [b];
  }
}
