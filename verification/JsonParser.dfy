/** struct JsonParser and the dump loops in their imperative form, each proved against its function. */
module JsonParser {
  import opened Bytes
  import opened JsonValue
  import opened JsonCursor
  import opened Utf8
  import opened JsonGaps
  import opened JsonStrings
  import opened JsonNumbers
  import P = JsonParse
  import D = JsonDump

  class Parser {
    const str: bytes
    const strategy: Mode
    var i: nat
    var failed: bool
    var err: Error

    /** The parser's fields as one value. */
    function View(): Cursor
      reads this
    {
      Cursor(i, failed, err)
    }

    /** The cursor never passes the terminating position. */
    predicate Valid()
      reads this
    {
      i <= |str|
    }

    constructor (input: bytes, err0: Error, mode: Mode)
      ensures Valid() && str == input && strategy == mode && View() == Cursor(0, false, err0)
    {
      str, strategy := input, mode;
      i, failed, err := 0, false, err0;
    }

    method FailWith(e: Error)
      modifies this
      ensures View() == Fail(old(View()), e)
    {
      if !failed {
        err := e;
      }
      failed := true;
    }

    method ConsumeWhitespace()
      requires Valid()
      modifies this`i
      ensures Valid() && View() == old(View()).(i := SkipWs(str, old(i)))
    {
      while IsWs(At(str, i))
        invariant Valid() && SkipWs(str, i) == SkipWs(str, old(i))
        decreases |str| - i
      {
        i := i + 1;
      }
    }

    method ConsumeComment() returns (found: bool)
      requires Valid()
      modifies this
      ensures Valid() && (found, View()) == Comment(str, old(View()))
    {
      found := false;
      if At(str, i) == SLASH {
        i := i + 1;
        if i == |str| {
          FailWith(CommentEnd);
          return;
        }
        if str[i] == SLASH {
          i := i + 1;
          found := ConsumeLine();
        } else if str[i] == STAR {
          i := i + 1;
          found := ConsumeBlock();
        } else {
          FailWith(CommentMalformed);
        }
      }
    }

    /** The rest of an inline comment. */
    method ConsumeLine() returns (found: bool)
      requires Valid()
      modifies this
      ensures Valid()
      ensures var n := FindNewline(str, old(i));
              && found == (n != |str|)
              && View() == if found then old(View()).(i := n) else Fail(old(View()).(i := n), CommentEnd)
    {
      hide Advances;
      found := false;
      if i == |str| {
        FailWith(CommentEnd);
        return;
      }
      while str[i] != NEWLINE
        invariant i < |str| && FindNewline(str, i) == FindNewline(str, old(i))
        invariant failed == old(failed) && err == old(err)
        decreases |str| - i
      {
        i := i + 1;
        if i == |str| {
          FailWith(CommentEnd);
          return;
        }
      }
      found := true;
    }

    /** The rest of a multi-line comment. */
    method ConsumeBlock() returns (found: bool)
      requires Valid() && 2 <= |str|
      modifies this
      ensures Valid()
      ensures var n := FindClose(str, old(i));
              && found == (n + 2 < |str|)
              && View() == if found then old(View()).(i := n + 2)
                           else Fail(old(View()).(i := if n + 2 == |str| then n + 2 else n), CommentEnd)
    {
      hide Advances;
      found := false;
      if i > |str| - 2 {
        FailWith(CommentEnd);
        return;
      }
      while !(str[i] == STAR && str[i + 1] == SLASH)
        invariant i <= |str| - 2 && FindClose(str, i) == FindClose(str, old(i))
        invariant failed == old(failed) && err == old(err)
        decreases |str| - i
      {
        i := i + 1;
        if i > |str| - 2 {
          FailWith(CommentEnd);
          return;
        }
      }
      i := i + 2;
      if i == |str| {
        FailWith(CommentEnd);
        return;
      }
      found := true;
    }

    method ConsumeGarbage()
      requires Valid()
      modifies this
      ensures Valid() && View() == Garbage(str, strategy, old(View()))
    {
      ConsumeWhitespace();
      if strategy.Comments? {
        ghost var start := View();
        var found := true;
        while found
          invariant Valid()
          invariant if found then CommentLoop(str, View()) == CommentLoop(str, start)
                    else View() == CommentLoop(str, start)
          decreases found, |str| - i
        {
          found := ConsumeComment();
          ConsumeWhitespace();
        }
      }
    }

    method GetNextToken() returns (ch: byte)
      requires Valid()
      modifies this
      ensures Valid() && (ch, View()) == NextToken(str, strategy, old(View()))
    {
      ConsumeGarbage();
      if i == |str| {
        FailWith(InputEnd);
        return 0;
      }
      ch := str[i];
      i := i + 1;
    }

    /** The four digits of a \u escape: complete a pair with the held-back unit, or hold the new one back instead. */
    method HoldUnit(out0: bytes, last0: int) returns (good: bool, out: bytes, last: int)
      requires Valid() && -1 <= last0 < 0x1_0000
      modifies this
      ensures Valid() && -1 <= last < 0x1_0000
      ensures good == (old(i) + 4 <= |str| && IsHex4(str[old(i)..old(i) + 4]))
      ensures View() == if good then old(View()).(i := old(i) + 4) else Fail(old(View()), BadHexEscape)
      ensures good ==>
                var unit := HexValue(str[old(i)..old(i) + 4]);
                if IsHigh(last0) && IsLow(unit) then
                  PairIsAstral(last0, unit); out == out0 + Encode(Pair(last0, unit)) && last == -1
                else out == out0 + Encode(last0) && last == unit
    {
      hide Encode, HexValue, Pair;
      good, out, last := false, out0, last0;
      if i + 4 > |str| || !IsHex4(str[i..i + 4]) {
        FailWith(BadHexEscape);
        return;
      }
      good := true;
      var unit := HexValue(str[i..i + 4]);
      if IsHigh(last) && IsLow(unit) {
        PairIsAstral(last, unit);
        out := out + Encode(Pair(last, unit));
        last := -1;
      } else {
        out := out + Encode(last);
        last := unit;
      }
      i := i + 4;
    }

    method ReadString() returns (out: bytes)
      requires Valid()
      modifies this
      ensures Valid() && (out, View()) == ParseString(str, old(View()))
    {
      hide Encode, HexValue, Pair, Advances;
      out := [];
      var last: int := -1;
      while true
        invariant Valid() && -1 <= last < 0x1_0000 && failed == old(failed) && err == old(err)
        invariant Scan(str, View(), out, last) == ParseString(str, old(View()))
        decreases |str| - i
      {
        if i == |str| {
          FailWith(StringEnd);
          return [];
        }
        var ch := str[i];
        i := i + 1;
        if ch == QUOTE {
          out := out + Encode(last);
          return;
        }
        if 0 <= ch <= 0x1F {
          FailWith(Unescaped(ch));
          return [];
        }
        if ch != BACKSLASH {
          out := out + Encode(last);
          last := -1;
          out := out + [ch];
          continue;
        }
        if i == |str| {
          FailWith(StringEnd);
          return [];
        }
        ch := str[i];
        i := i + 1;
        if ch == 0x75 {
          var good;
          good, out, last := HoldUnit(out, last);
          if !good {
            return [];
          }
          continue;
        }
        out := out + Encode(last);
        last := -1;
        if IsSimpleEscape(ch) {
          out := out + [EscapedByte(ch)];
        } else {
          FailWith(InvalidEscape(ch));
          return [];
        }
      }
    }

    method ConsumeDigits()
      requires Valid()
      modifies this`i
      ensures Valid() && i == SkipDigits(str, old(i))
    {
      while IsDigit(At(str, i))
        invariant Valid() && SkipDigits(str, i) == SkipDigits(str, old(i))
        decreases |str| - i
      {
        i := i + 1;
      }
    }

    method ReadNumber() returns (v: Json)
      requires Valid()
      modifies this
      ensures Valid() && (v, View()) == ParseNumber(str, old(View()))
    {
      hide ParseFraction;
      ghost var c := View();
      var start := i;
      if At(str, i) == MINUS {
        i := i + 1;
      }
      if At(str, i) == ZERO {
        i := i + 1;
        if IsDigit(At(str, i)) {
          FailWith(LeadingZero);
          return Null;
        }
      } else if IsDigit(At(str, i)) {
        i := i + 1;
        ConsumeDigits();
      } else {
        FailWith(InvalidNumber(At(str, i)));
        return Null;
      }
      v := ReadFraction(start, c);
    }

    /** parse_number from the end of the integer part on. */
    method ReadFraction(start: nat, ghost c: Cursor) returns (v: Json)
      requires Valid() && start == c.i < i && View() == c.(i := i)
      modifies this
      ensures Valid() && (v, View()) == ParseFraction(str, c, old(i))
    {
      hide ParseExponent, Atoi;
      if At(str, i) != DOT && !IsE(At(str, i)) && i - start <= DIGITS10 {
        return Number(Int(Atoi(str, start)));
      }
      if At(str, i) == DOT {
        i := i + 1;
        if !IsDigit(At(str, i)) {
          FailWith(NoFractionDigit);
          return Null;
        }
        ConsumeDigits();
      }
      v := ReadExponent(start, c);
    }

    /** parse_number from the end of the fraction on. */
    method ReadExponent(start: nat, ghost c: Cursor) returns (v: Json)
      requires Valid() && start == c.i < i && View() == c.(i := i)
      modifies this
      ensures Valid() && (v, View()) == ParseExponent(str, c, old(i))
    {
      hide Strtod;
      if IsE(At(str, i)) {
        i := i + 1;
        if At(str, i) == PLUS || At(str, i) == MINUS {
          i := i + 1;
        }
        if !IsDigit(At(str, i)) {
          FailWith(NoExponentDigit);
          return Null;
        }
        ConsumeDigits();
      }
      v := Number(Dbl(Strtod(str, start)));
    }

    method Expect(word: bytes, res: Json) returns (v: Json)
      requires Valid() && i != 0 && word != []
      modifies this
      ensures Valid() && (v, View()) == P.Expect(str, old(View()), word, res)
    {
      i := i - 1;
      if Match(str, i, word) {
        i := i + |word|;
        v := res;
      } else {
        FailWith(BadLiteral);
        v := Null;
      }
    }

    method ParseJson(depth: nat) returns (v: Json)
      requires Valid()
      modifies this
      ensures Valid() && (v, View()) == P.ParseJson(str, strategy, P.MAX_DEPTH, old(View()), depth)
      decreases P.Left(P.MAX_DEPTH, depth), 1
    {
      if depth > P.MAX_DEPTH {
        FailWith(TooDeep);
        return Null;
      }
      var ch := GetNextToken();
      if failed {
        return Null;
      }
      if ch == MINUS || IsDigit(ch) {
        i := i - 1;
        v := ReadNumber();
      } else if ch == P.TRUE_TEXT[0] {
        v := Expect(P.TRUE_TEXT, Bool(true));
      } else if ch == P.FALSE_TEXT[0] {
        v := Expect(P.FALSE_TEXT, Bool(false));
      } else if ch == P.NULL_TEXT[0] {
        v := Expect(P.NULL_TEXT, Null);
      } else if ch == QUOTE {
        var str := ReadString();
        v := String(str);
      } else if ch == LBRACE {
        v := ParseObject(depth);
      } else if ch == LBRACKET {
        v := ParseArray(depth);
      } else {
        FailWith(ExpectedValue(ch));
        v := Null;
      }
    }

    /** The object branch of parse_json. */
    method ParseObject(depth: nat) returns (v: Json)
      requires Valid() && 0 < i && !failed && depth <= P.MAX_DEPTH
      modifies this
      ensures Valid() && (v, View()) == P.ParseValue(str, strategy, P.MAX_DEPTH, LBRACE, old(View()), depth)
      decreases P.Left(P.MAX_DEPTH, depth), 0
    {
      hide P.ParseJson, NextToken, ParseString, P.Insert;
      var data: seq<Field> := [];
      var ch := GetNextToken();
      if ch == RBRACE {
        return Object(data);
      }
      ghost var whole := P.ParseMembers(str, strategy, P.MAX_DEPTH, ch, View(), depth, data);
      while true
        invariant Valid() && P.ParseMembers(str, strategy, P.MAX_DEPTH, ch, View(), depth, data) == whole
        decreases |str| - i
      {
        if ch != QUOTE {
          FailWith(ExpectedKey(ch));
          return Null;
        }
        var key := ReadString();
        if failed {
          return Null;
        }
        ch := GetNextToken();
        if ch != COLON {
          FailWith(ExpectedColon(ch));
          return Null;
        }
        var item := ParseJson(depth + 1);
        data := P.Insert(data, key, item);
        if failed {
          return Null;
        }
        ch := GetNextToken();
        if ch == RBRACE {
          break;
        }
        if ch != COMMA {
          FailWith(ExpectedObjectComma(ch));
          return Null;
        }
        ch := GetNextToken();
      }
      return Object(data);
    }

    /** The array branch of parse_json. */
    method ParseArray(depth: nat) returns (v: Json)
      requires Valid() && 0 < i && !failed && depth <= P.MAX_DEPTH
      modifies this
      ensures Valid() && (v, View()) == P.ParseValue(str, strategy, P.MAX_DEPTH, LBRACKET, old(View()), depth)
      decreases P.Left(P.MAX_DEPTH, depth), 0
    {
      hide P.ParseJson, NextToken;
      var data: seq<Json> := [];
      var ch := GetNextToken();
      if ch == RBRACKET {
        return Array(data);
      }
      ghost var whole := P.ParseElems(str, strategy, P.MAX_DEPTH, View(), depth, data);
      while true
        invariant Valid() && 0 < i && P.ParseElems(str, strategy, P.MAX_DEPTH, View(), depth, data) == whole
        decreases |str| - i
      {
        i := i - 1;
        var item := ParseJson(depth + 1);
        data := data + [item];
        if failed {
          return Null;
        }
        ch := GetNextToken();
        if ch == RBRACKET {
          break;
        }
        if ch != COMMA {
          FailWith(ExpectedListComma(ch));
          return Null;
        }
        ch := GetNextToken();
      }
      return Array(data);
    }
  }

  /** Json::parse; the final state shows what the caller's error string holds. */
  method Parse(input: bytes, err0: Error, strategy: Mode) returns (v: Json, end: Cursor)
    ensures (v, end) == P.Parse(input, strategy, err0)
  {
    var parser := new Parser(input, err0, strategy);
    v := parser.ParseJson(0);
    parser.ConsumeGarbage();
    if parser.i != |input| {
      parser.FailWith(Trailing(input[parser.i]));
      v := Null;
    }
    end := parser.View();
  }

  /** Json::parse_multi */
  method ParseMulti(input: bytes, err0: Error, strategy: Mode) returns (vs: seq<Json>, end: Cursor)
    ensures (vs, end) == P.ParseMulti(input, strategy, err0)
  {
    var parser := new Parser(input, err0, strategy);
    vs := [];
    while parser.i != |input| && !parser.failed
      invariant parser.str == input && parser.strategy == strategy && parser.Valid() && fresh(parser)
      invariant P.ParseMultiFrom(input, strategy, parser.View(), vs) == P.ParseMulti(input, strategy, err0)
      decreases !parser.failed, |input| - parser.i
    {
      var v := parser.ParseJson(0);
      vs := vs + [v];
      parser.ConsumeGarbage();
    }
    end := parser.View();
  }

  /** What one round of the string dump loop appends, and how far it moves. */
  method EscapeNext(value: bytes, i: nat) returns (piece: bytes, next: nat)
    requires i < |value|
    ensures piece == D.Escape(value, i) && next == i + D.Used(value, i)
  {
    var ch := value[i];
    next := i + 1;
    if ch == BACKSLASH {
      piece := [BACKSLASH, BACKSLASH];
    } else if ch == QUOTE {
      piece := [BACKSLASH, QUOTE];
    } else if ch == 0x08 {
      piece := [BACKSLASH, 0x62];
    } else if ch == 0x0C {
      piece := [BACKSLASH, 0x66];
    } else if ch == 0x0A {
      piece := [BACKSLASH, 0x6E];
    } else if ch == 0x0D {
      piece := [BACKSLASH, 0x72];
    } else if ch == 0x09 {
      piece := [BACKSLASH, 0x74];
    } else if ch <= 0x1F {
      piece := [BACKSLASH, 0x75, ZERO, ZERO, D.HexChar(ch / 16), D.HexChar(ch % 16)];
    } else if ch == 0xE2 && At(value, i + 1) == 0x80 && At(value, i + 2) == 0xA8 {
      piece := [BACKSLASH, 0x75, ZERO + 2, ZERO, ZERO + 2, ZERO + 8];
      next := i + 3;
    } else if ch == 0xE2 && At(value, i + 1) == 0x80 && At(value, i + 2) == 0xA9 {
      piece := [BACKSLASH, 0x75, ZERO + 2, ZERO, ZERO + 2, ZERO + 9];
      next := i + 3;
    } else {
      piece := [ch];
    }
  }

  /** dump of a string, appending to out. */
  method DumpString(value: bytes, out0: bytes) returns (out: bytes)
    ensures out == out0 + D.DumpString(value)
  {
    hide D.Escape, D.Used;
    out := out0 + [QUOTE];
    var i := 0;
    while i < |value|
      invariant i <= |value|
      invariant out + D.EscapeFrom(value, i) == out0 + [QUOTE] + D.EscapeFrom(value, 0)
      decreases |value| - i
    {
      var piece, next := EscapeNext(value, i);
      Joined(out, piece, D.EscapeFrom(value, next));
      out, i := out + piece, next;
    }
    Closed(out, out0, QUOTE, D.EscapeFrom(value, 0), QUOTE);
    out := out + [QUOTE];
  }

  lemma Joined(a: bytes, b: bytes, c: bytes)
    ensures a + b + c == a + (b + c)
  {
  }

  lemma Closed(out: bytes, out0: bytes, open: byte, body: bytes, close: byte)
    requires out + [] == out0 + [open] + body
    ensures out + [close] == out0 + ([open] + (body + [close]))
  {
    assert out + [] == out;
  }

  /** Json::dump, appending to out. */
  method Dump(v: Json, out0: bytes) returns (out: bytes)
    requires D.Printable(v)
    ensures out == out0 + D.Dump(v)
    decreases v, 1
  {
    match v {
      case Null => out := out0 + P.NULL_TEXT;
      case Number(n) => out := out0 + D.DumpNum(n);
      case Bool(b) => out := out0 + (if b then P.TRUE_TEXT else P.FALSE_TEXT);
      case String(x) => out := DumpString(x, out0);
      case Array(xs) => out := DumpArray(xs, out0);
      case Object(fs) => out := DumpObject(fs, out0);
    }
  }

  method DumpArray(values: seq<Json>, out0: bytes) returns (out: bytes)
    requires D.PrintableSeq(values)
    ensures out == out0 + ([LBRACKET] + (D.DumpItems(values, true) + [RBRACKET]))
    decreases values, 0
  {
    hide D.Dump, D.Printable;
    var first := true;
    out := out0 + [LBRACKET];
    for k := 0 to |values|
      invariant D.PrintableSeq(values[k..]) && first == (k == 0)
      invariant out + D.DumpItems(values[k..], first) == out0 + [LBRACKET] + D.DumpItems(values, true)
    {
      ghost var before, rest, sep := out, values[k + 1..], if first then [] else [COMMA, D.SPACE];
      assert values[k..][0] == values[k] && values[k..][1..] == rest;
      if !first {
        out := out + [COMMA, D.SPACE];
      }
      ItemAppended(before, sep, D.Dump(values[k]), D.DumpItems(rest, false));
      out := Dump(values[k], out);
      first := false;
    }
    assert values[|values|..] == [];
    Closed(out, out0, LBRACKET, D.DumpItems(values, true), RBRACKET);
    out := out + [RBRACKET];
  }

  lemma ItemAppended(out: bytes, sep: bytes, v: bytes, rest: bytes)
    ensures out + sep + v + rest == out + (sep + v + rest)
    ensures out + [] == out
  {
  }

  method DumpObject(values: seq<Field>, out0: bytes) returns (out: bytes)
    requires D.PrintableFields(values)
    ensures out == out0 + ([LBRACE] + (D.DumpFields(values, true) + [RBRACE]))
    decreases values, 0
  {
    hide D.Dump, D.DumpString, D.Printable;
    var first := true;
    out := out0 + [LBRACE];
    for k := 0 to |values|
      invariant D.PrintableFields(values[k..]) && first == (k == 0)
      invariant out + D.DumpFields(values[k..], first) == out0 + [LBRACE] + D.DumpFields(values, true)
    {
      ghost var before, rest, sep := out, values[k + 1..], if first then [] else [COMMA, D.SPACE];
      assert values[k..][0] == values[k] && values[k..][1..] == rest;
      if !first {
        out := out + [COMMA, D.SPACE];
      }
      FieldAppended(before, sep, D.DumpString(values[k].key), D.Dump(values[k].v), D.DumpFields(rest, false));
      out := DumpString(values[k].key, out);
      out := out + [COLON, D.SPACE];
      out := Dump(values[k].v, out);
      first := false;
    }
    assert values[|values|..] == [];
    Closed(out, out0, LBRACE, D.DumpFields(values, true), RBRACE);
    out := out + [RBRACE];
  }

  lemma FieldAppended(out: bytes, sep: bytes, key: bytes, v: bytes, rest: bytes)
    ensures out + sep + key + [COLON, D.SPACE] + v + rest == out + (sep + key + [COLON, D.SPACE] + v + rest)
    ensures out + [] == out
  {
  }
}
