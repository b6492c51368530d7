/**
 parse_string of json11.cpp. The source makes one pass and holds back the last \u escape in case
 the next one completes a surrogate pair; the reference makes two: split the text into tokens,
 then pair surrogates left to right and encode.
 */
module JsonStrings {
  import opened Bytes
  import opened JsonCursor
  import opened Utf8

  predicate IsHex(b: byte) {
    0x61 <= b <= 0x66 || 0x41 <= b <= 0x46 || IsDigit(b)
  }

  function HexDigit(b: byte): (d: nat)
    requires IsHex(b)
    ensures d < 16
  {
    if IsDigit(b) then b - ZERO else if b >= 0x61 then b - 0x61 + 10 else b - 0x41 + 10
  }

  predicate IsHex4(h: bytes) {
    |h| == 4 && IsHex(h[0]) && IsHex(h[1]) && IsHex(h[2]) && IsHex(h[3])
  }

  /** strtol in base 16 on four hex digits. */
  function HexValue(h: bytes): (u: nat)
    requires IsHex4(h)
    ensures u < 0x1_0000
  {
    HexDigit(h[0]) * 0x1000 + HexDigit(h[1]) * 0x100 + HexDigit(h[2]) * 0x10 + HexDigit(h[3])
  }

  predicate IsSimpleEscape(e: byte) {
    e == 0x62 || e == 0x66 || e == 0x6E || e == 0x72 || e == 0x74 || e == QUOTE || e == BACKSLASH || e == SLASH
  }

  /** The byte a one-letter escape stands for: b, f, n, r, t, or the character itself. */
  function EscapedByte(e: byte): byte
    requires IsSimpleEscape(e)
  {
    if e == 0x62 then 0x08
    else if e == 0x66 then 0x0C
    else if e == 0x6E then 0x0A
    else if e == 0x72 then 0x0D
    else if e == 0x74 then 0x09
    else e
  }

  /** parse_string from the middle of its loop: out is the text so far, last the held-back code unit or -1. */
  function Scan(s: bytes, c: Cursor, out: bytes, last: int): (r: (bytes, Cursor))
    requires c.i <= |s| && -1 <= last < 0x1_0000
    ensures Advances(s, c, r.1)
    ensures !r.1.failed ==> r.1.i > c.i && s[r.1.i - 1] == QUOTE
    decreases |s| - c.i
  {
    if c.i == |s| then ([], Fail(c, StringEnd))
    else
      var ch := s[c.i];
      var c1 := c.(i := c.i + 1);
      if ch == QUOTE then (out + Encode(last), c1)
      else if ch <= 0x1F then ([], Fail(c1, Unescaped(ch)))
      else if ch != BACKSLASH then Scan(s, c1, out + Encode(last) + [ch], -1)
      else if c1.i == |s| then ([], Fail(c1, StringEnd))
      else
        var e := s[c1.i];
        var c2 := c1.(i := c1.i + 1);
        if e == 0x75 then
          if c2.i + 4 > |s| || !IsHex4(s[c2.i..c2.i + 4]) then ([], Fail(c2, BadHexEscape))
          else
            var unit := HexValue(s[c2.i..c2.i + 4]);
            var c3 := c2.(i := c2.i + 4);
            if IsHigh(last) && IsLow(unit) then
              PairIsAstral(last, unit);
              Scan(s, c3, out + Encode(Pair(last, unit)), -1)
            else Scan(s, c3, out + Encode(last), unit)
        else if IsSimpleEscape(e) then Scan(s, c2, out + Encode(last) + [EscapedByte(e)], -1)
        else ([], Fail(c2, InvalidEscape(e)))
  }

  /** parse_string */
  function ParseString(s: bytes, c: Cursor): (r: (bytes, Cursor))
    requires c.i <= |s|
    ensures Advances(s, c, r.1)
    ensures !r.1.failed ==> r.1.i > c.i && s[r.1.i - 1] == QUOTE
  {
    Scan(s, c, [], -1)
  }

  /** A string token as written: a plain byte, a one-letter escape, or \u and four hex digits. */
  datatype Tok = Plain(b: byte) | Simple(e: byte) | Hex(h: bytes)

  predicate ValidTok(t: Tok) {
    match t
    case Plain(b) => b > 0x1F && b != QUOTE && b != BACKSLASH
    case Simple(e) => IsSimpleEscape(e)
    case Hex(h) => IsHex4(h)
  }

  predicate ValidToks(ts: seq<Tok>) {
    ts == [] || (ValidTok(ts[0]) && ValidToks(ts[1..]))
  }

  function TokText(t: Tok): (x: bytes)
    ensures x != []
  {
    match t
    case Plain(b) => [b]
    case Simple(e) => [BACKSLASH, e]
    case Hex(h) => [BACKSLASH, 0x75] + h
  }

  function ToksText(ts: seq<Tok>): bytes {
    if ts == [] then [] else TokText(ts[0]) + ToksText(ts[1..])
  }

  /** What a token contributes: a byte, or a UTF-16 code unit. */
  datatype Item = Byte(b: byte) | Unit(u: nat)

  function Meaning(t: Tok): Item
    requires ValidTok(t)
  {
    match t
    case Plain(b) => Byte(b)
    case Simple(e) => Byte(EscapedByte(e))
    case Hex(h) => Unit(HexValue(h))
  }

  function Meanings(ts: seq<Tok>): (items: seq<Item>)
    requires ValidToks(ts)
    ensures ValidItems(items)
  {
    if ts == [] then [] else [Meaning(ts[0])] + Meanings(ts[1..])
  }

  predicate ValidItems(items: seq<Item>) {
    items == [] || ((items[0].Unit? ==> items[0].u < 0x1_0000) && ValidItems(items[1..]))
  }

  /** The next two items are a high surrogate and the low one that completes it. */
  predicate StartsPair(items: seq<Item>) {
    |items| >= 2 && items[0].Unit? && items[1].Unit? && IsHigh(items[0].u) && IsLow(items[1].u)
  }

  /** Second pass: each high surrogate joins an immediately following low one; the rest are encoded alone. */
  function Render(items: seq<Item>): bytes
    requires ValidItems(items)
    decreases |items|
  {
    if items == [] then []
    else if StartsPair(items) then
      PairIsAstral(items[0].u, items[1].u);
      assert ValidItems(items[1..]);
      Encode(Pair(items[0].u, items[1].u)) + Render(items[2..])
    else if items[0].Unit? then Encode(items[0].u) + Render(items[1..])
    else [items[0].b] + Render(items[1..])
  }

  /** First pass: the tokens up to the closing quote and the position after it, or where and why it is malformed. */
  datatype Tokens = Closed(toks: seq<Tok>, end: nat) | Bad(at: nat, err: Error)

  function Tokenise(s: bytes, i: nat): (r: Tokens)
    requires i <= |s|
    ensures r.Closed? ==> ValidToks(r.toks) && i < r.end <= |s|
    ensures r.Bad? ==> i <= r.at <= |s|
    decreases |s| - i
  {
    if i == |s| then Bad(i, StringEnd)
    else if s[i] == QUOTE then Closed([], i + 1)
    else if s[i] <= 0x1F then Bad(i + 1, Unescaped(s[i]))
    else if s[i] != BACKSLASH then Then(Plain(s[i]), Tokenise(s, i + 1))
    else if i + 1 == |s| then Bad(i + 1, StringEnd)
    else if s[i + 1] == 0x75 then
      if i + 6 > |s| || !IsHex4(s[i + 2..i + 6]) then Bad(i + 2, BadHexEscape)
      else Then(Hex(s[i + 2..i + 6]), Tokenise(s, i + 6))
    else if IsSimpleEscape(s[i + 1]) then Then(Simple(s[i + 1]), Tokenise(s, i + 2))
    else Bad(i + 2, InvalidEscape(s[i + 1]))
  }

  function Then(t: Tok, r: Tokens): Tokens {
    if r.Bad? then r else r.(toks := [t] + r.toks)
  }

  /** The items still to come, with the held-back unit put back in front. */
  function HeldThen(last: int, items: seq<Item>): (all: seq<Item>)
    requires -1 <= last < 0x1_0000 && ValidItems(items)
    ensures ValidItems(all)
  {
    if last < 0 then items else [Unit(last)] + items
  }

  lemma RenderFlush(last: int, items: seq<Item>)
    requires -1 <= last < 0x1_0000 && ValidItems(items)
    requires items == [] || !items[0].Unit? || !IsHigh(last) || !IsLow(items[0].u)
    ensures Render(HeldThen(last, items)) == Encode(last) + Render(items)
  {
    if last >= 0 {
      var all := [Unit(last)] + items;
      assert all[1..] == items;
    }
  }

  lemma RenderPair(last: int, u: nat, items: seq<Item>)
    requires IsHigh(last) && IsLow(u) && ValidItems(items)
    ensures ValidItems([Unit(u)] + items)
    ensures Pair(last, u) < 0x11_0000
    ensures Render(HeldThen(last, [Unit(u)] + items)) == Encode(Pair(last, u)) + Render(items)
  {
    PairIsAstral(last, u);
    var rest := [Unit(u)] + items;
    assert rest[1..] == items;
    var all := [Unit(last)] + rest;
    assert all[1..] == rest && all[2..] == items;
  }

  lemma RenderByte(b: byte, items: seq<Item>)
    requires ValidItems(items)
    ensures ValidItems([Byte(b)] + items)
    ensures Render([Byte(b)] + items) == [b] + Render(items)
  {
    assert ([Byte(b)] + items)[1..] == items;
  }

  /** What Scan must compute, by the two-pass reading. */
  function TwoPass(s: bytes, c: Cursor, out: bytes, last: int): (bytes, Cursor)
    requires c.i <= |s| && -1 <= last < 0x1_0000
  {
    match Tokenise(s, c.i)
    case Bad(at, err) => ([], Fail(c.(i := at), err))
    case Closed(toks, end) => (out + Render(HeldThen(last, Meanings(toks))), c.(i := end))
  }

  lemma Regroup(a: bytes, b: bytes, c: bytes, d: bytes)
    ensures a + (b + (c + d)) == a + b + c + d
    ensures a + (b + d) == a + b + d
  {
  }

  /** One ordinary byte of output: the two-pass reading moves on with the held-back unit flushed. */
  lemma TwoPassByte(s: bytes, c: Cursor, out: bytes, last: int, t: Tok, j: nat)
    requires c.i <= |s| && -1 <= last < 0x1_0000 && j <= |s|
    requires ValidTok(t) && !t.Hex? && Tokenise(s, c.i) == Then(t, Tokenise(s, j))
    ensures TwoPass(s, c, out, last) == TwoPass(s, c.(i := j), out + Encode(last) + [Meaning(t).b], -1)
  {
    hide Tokenise, Encode, Render, EscapedByte;
    match Tokenise(s, j)
    case Bad(_, _) =>
    case Closed(toks, end) =>
      var items := Meanings(toks);
      assert ([t] + toks)[1..] == toks;
      RenderByte(Meaning(t).b, items);
      RenderFlush(last, [Meaning(t)] + items);
      Regroup(out, Encode(last), [Meaning(t).b], Render(items));
  }

  /** One code unit: it completes a pair with the held-back one, or is held back in its place. */
  lemma TwoPassUnit(s: bytes, c: Cursor, out: bytes, last: int, h: bytes, j: nat)
    requires c.i <= |s| && -1 <= last < 0x1_0000 && j <= |s|
    requires IsHex4(h) && Tokenise(s, c.i) == Then(Hex(h), Tokenise(s, j))
    ensures var u := HexValue(h);
            if IsHigh(last) && IsLow(u) then
              Pair(last, u) < 0x11_0000 &&
              TwoPass(s, c, out, last) == TwoPass(s, c.(i := j), out + Encode(Pair(last, u)), -1)
            else
              TwoPass(s, c, out, last) == TwoPass(s, c.(i := j), out + Encode(last), u)
  {
    hide Tokenise, Encode, Pair, HexValue, Render;
    var u := HexValue(h);
    if IsHigh(last) && IsLow(u) {
      PairIsAstral(last, u);
    }
    match Tokenise(s, j)
    case Bad(_, _) =>
    case Closed(toks, end) =>
      var items := Meanings(toks);
      assert ([Hex(h)] + toks)[1..] == toks;
      if IsHigh(last) && IsLow(u) {
        RenderPair(last, u, items);
        Regroup(out, Encode(Pair(last, u)), [], Render(items));
      } else {
        RenderFlush(last, [Unit(u)] + items);
        Regroup(out, Encode(last), [], Render([Unit(u)] + items));
      }
  }

  /** The single pass with one unit of lag computes the two-pass reading, and fails exactly where it fails. */
  lemma {:induction false} ScanRefinesTwoPasses(s: bytes, c: Cursor, out: bytes, last: int)
    requires c.i <= |s| && -1 <= last < 0x1_0000
    ensures Scan(s, c, out, last) == TwoPass(s, c, out, last)
    decreases |s| - c.i
  {
    var i := c.i;
    if i < |s| && s[i] != QUOTE && s[i] > 0x1F {
      if s[i] != BACKSLASH {
        TwoPassByte(s, c, out, last, Plain(s[i]), i + 1);
        ScanRefinesTwoPasses(s, c.(i := i + 1), out + Encode(last) + [s[i]], -1);
      } else if i + 1 < |s| && s[i + 1] == 0x75 && i + 6 <= |s| && IsHex4(s[i + 2..i + 6]) {
        var h := s[i + 2..i + 6];
        TwoPassUnit(s, c, out, last, h, i + 6);
        if IsHigh(last) && IsLow(HexValue(h)) {
          ScanRefinesTwoPasses(s, c.(i := i + 6), out + Encode(Pair(last, HexValue(h))), -1);
        } else {
          ScanRefinesTwoPasses(s, c.(i := i + 6), out + Encode(last), HexValue(h));
        }
      } else if i + 1 < |s| && IsSimpleEscape(s[i + 1]) {
        TwoPassByte(s, c, out, last, Simple(s[i + 1]), i + 2);
        ScanRefinesTwoPasses(s, c.(i := i + 2), out + Encode(last) + [EscapedByte(s[i + 1])], -1);
      }
    } else if i < |s| && s[i] == QUOTE {
      RenderFlush(last, []);
      assert Encode(last) + [] == Encode(last);
    }
  }

  /** The text a string token's value is read from. */
  function StringValue(toks: seq<Tok>): bytes
    requires ValidToks(toks)
  {
    Render(Meanings(toks))
  }

  /** Splitting a written token list gives back those tokens. */
  lemma {:induction false} TokensRead(s: bytes, i: nat, toks: seq<Tok>)
    requires ValidToks(toks) && Match(s, i, ToksText(toks) + [QUOTE])
    ensures Tokenise(s, i) == Closed(toks, i + |ToksText(toks)| + 1)
    decreases |toks|
  {
    hide Match;
    MatchAt(s, i, ToksText(toks) + [QUOTE], 0);
    if toks != [] {
      var t, rest := toks[0], ToksText(toks[1..]) + [QUOTE];
      assert ToksText(toks) + [QUOTE] == TokText(t) + rest;
      MatchSplit(s, i, TokText(t), rest);
      TokensRead(s, i + |TokText(t)|, toks[1..]);
      TokenRead(s, i, t);
      assert [t] + toks[1..] == toks;
    }
  }

  lemma TokenRead(s: bytes, i: nat, t: Tok)
    requires ValidTok(t) && Match(s, i, TokText(t)) && i + |TokText(t)| <= |s|
    ensures Tokenise(s, i) == Then(t, Tokenise(s, i + |TokText(t)|))
  {
    MatchAt(s, i, TokText(t), 0);
    if !t.Plain? {
      MatchAt(s, i, TokText(t), 1);
    }
    if t.Hex? {
      MatchSplit(s, i, [BACKSLASH, 0x75], t.h);
    }
  }

  /** The converse: the tokens found are what stands in the text, closing quote included. */
  lemma {:induction false} TokensWritten(s: bytes, i: nat)
    requires i <= |s| && Tokenise(s, i).Closed?
    ensures var r := Tokenise(s, i);
            Match(s, i, ToksText(r.toks) + [QUOTE]) && r.end == i + |ToksText(r.toks)| + 1
    decreases |s| - i
  {
    hide Tokenise, Match, TokText, ValidTok;
    QuoteClosesTokens(s, i);
    if s[i] == QUOTE {
      assert ToksText([]) + [QUOTE] == [QUOTE];
      MatchOne(s, i, QUOTE);
    } else {
      TokenWritten(s, i);
      var t := Tokenise(s, i).toks[0];
      var j := i + |TokText(t)|;
      TokensWritten(s, j);
      var toks := Tokenise(s, j).toks;
      assert ([t] + toks)[1..] == toks;
      MatchSplit(s, i, TokText(t), ToksText(toks) + [QUOTE]);
      Regroup(TokText(t), ToksText(toks), [], [QUOTE]);
    }
  }

  lemma QuoteClosesTokens(s: bytes, i: nat)
    requires i <= |s| && Tokenise(s, i).Closed?
    ensures i < |s| && (s[i] == QUOTE ==> Tokenise(s, i) == Closed([], i + 1))
  {
  }

  lemma TokenWritten(s: bytes, i: nat)
    requires i < |s| && s[i] != QUOTE && Tokenise(s, i).Closed?
    ensures Tokenise(s, i).toks != []
    ensures var t := Tokenise(s, i).toks[0];
            ValidTok(t) && Match(s, i, TokText(t)) && Tokenise(s, i) == Then(t, Tokenise(s, i + |TokText(t)|))
  {
    if s[i] != BACKSLASH {
      MatchOne(s, i, s[i]);
    } else {
      MatchTwo(s, i, BACKSLASH, s[i + 1]);
      if s[i + 1] == 0x75 {
        MatchSplit(s, i, [BACKSLASH, 0x75], s[i + 2..i + 6]);
      }
    }
  }

  /** parse_string accepts exactly the texts of token lists closed by a quote, and yields their two-pass value. */
  lemma StringParsed(s: bytes, c: Cursor)
    requires c.i <= |s| && !c.failed
    ensures var (v, d) := ParseString(s, c);
            var r := Tokenise(s, c.i);
            if r.Closed? then
              && Match(s, c.i, ToksText(r.toks) + [QUOTE])
              && v == StringValue(r.toks) && d == c.(i := c.i + |ToksText(r.toks)| + 1)
            else v == [] && d == Cursor(r.at, true, r.err)
  {
    ScanRefinesTwoPasses(s, c, [], -1);
    if Tokenise(s, c.i).Closed? {
      TokensWritten(s, c.i);
      var v := StringValue(Tokenise(s, c.i).toks);
      assert [] + v == v;
    }
  }
}
