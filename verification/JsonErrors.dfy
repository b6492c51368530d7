/** Which error is reported: the first one, found at the innermost place, for every way a text can go wrong. */
module JsonErrors {
  import opened Bytes
  import opened Ascii
  import opened JsonValue
  import opened JsonCursor
  import opened JsonGaps
  import opened JsonStrings
  import opened JsonNumbers
  import opened JsonParse
  import opened JsonGrammar
  import opened JsonAccept
  import opened JsonSpelling
  import opened JsonBroken

  // ---- numbers ----

  /** What may stand before the digits. */
  function Sign(neg: bool): bytes {
    if neg then Text("-") else []
  }

  lemma SignIsText(neg: bool)
    ensures Sign(neg) == SignText(neg)
  {
    assert Text("-") == [MINUS];
  }

  /** A zero does not start a longer number, and a sign alone is none; the end of the text reads as a NUL. */
  lemma WholePartRefused(s: bytes, c: Cursor, neg: bool)
    requires !c.failed && Match(s, c.i, Sign(neg))
    ensures var w := c.i + |Sign(neg)|;
            && (w + 1 < |s| && s[w] == Ch('0') && OneOf(s[w + 1], "0123456789") ==>
                  ParseNumber(s, c) == (Null, Cursor(w + 1, true, LeadingZero)))
            && (!OneOf(At(s, w), "0123456789") && (neg || At(s, w) != Ch('-')) ==>
                  ParseNumber(s, c) == (Null, Cursor(w, true, InvalidNumber(if w == |s| then 0 else s[w]))))
  {
    hide ParseFraction, OneOf, Match;
    SignIsText(neg);
    var w := c.i + |Sign(neg)|;
    ClassesSpelled(At(s, w));
    if w + 1 < |s| {
      ClassesSpelled(s[w + 1]);
    }
    if neg {
      MatchAt(s, c.i, Sign(neg), 0);
    }
  }

  /** After a whole number and a point there must be a digit. */
  lemma FractionRefused(s: bytes, c: Cursor, n: NumTok)
    requires !c.failed && ValidNum(n) && n.frac.NoFrac? && n.exp.NoExp? && Match(s, c.i, NumText(n) + Text("."))
    requires !OneOf(At(s, c.i + |NumText(n)| + 1), "0123456789")
    ensures ParseNumber(s, c) == (Null, Cursor(c.i + |NumText(n)| + 1, true, NoFractionDigit))
  {
    hide OneOf, Match, SkipDigits, NumText, Text, AllDigits, ParseExponent, Atoi, ValidNum, SignText;
    var f := c.i + |NumText(n)|;
    MatchSplit(s, c.i, NumText(n), Text("."));
    PointAt(s, f);
    ClassesSpelled(At(s, f + 1));
    NumberParts(s, c.i, n);
    TextLengths(n);
    WholeRead(s, c.i, n);
    ToFraction(s, c, n, f);
  }

  lemma PointAt(s: bytes, f: nat)
    requires Match(s, f, Text("."))
    ensures f < |s| && At(s, f) == DOT && !IsDigit(DOT)
  {
    MatchAt(s, f, Text("."), 0);
  }

  /** parse_number past a well-formed integer part. */
  lemma ToFraction(s: bytes, c: Cursor, n: NumTok, f: nat)
    requires c.i < |s| && n.neg == (At(s, c.i) == MINUS) && c.i < f <= |s|
    requires var w := if n.neg then c.i + 1 else c.i;
             && w < |s| && IsDigit(At(s, w)) && SkipDigits(s, w + 1) == f && (At(s, w) == ZERO ==> f == w + 1)
    requires !IsDigit(At(s, f))
    ensures ParseNumber(s, c) == ParseFraction(s, c, f)
  {
    hide SkipDigits, ParseFraction;
  }

  /** After the letter of an exponent, and its sign if there is one, there must be a digit. */
  lemma ExponentRefused(s: bytes, c: Cursor, n: NumTok, e: byte, sign: string)
    requires !c.failed && ValidNum(n) && n.exp.NoExp? && OneOf(e, "eE") && sign in ["", "+", "-"]
    requires Match(s, c.i, NumText(n) + ([e] + Text(sign)))
    requires var b := At(s, c.i + |NumText(n)| + 1 + |sign|);
             !OneOf(b, "0123456789") && (sign == "" ==> !OneOf(b, "+-"))
    ensures ParseNumber(s, c) == (Null, Cursor(c.i + |NumText(n)| + 1 + |sign|, true, NoExponentDigit))
  {
    hide Match, SkipDigits, NumText, AllDigits, ParseFraction, Atoi, Strtod, ValidNum, SignText, FracText, ExpText;
    hide OneOf, Text, FracEnd, ExpStart, LexFrac;
    var x := c.i + |NumText(n)|;
    MatchSplit(s, c.i, NumText(n), [e] + Text(sign));
    LetterAt(s, x, e, sign);
    NumberParts(s, c.i, n);
    TextLengths(n);
    var f := c.i + |SignText(n.neg)| + |n.whole|;
    FracStarts(s, f, n);
    WholeRead(s, c.i, n);
    FracRead(s, f, n.frac);
    ToFraction(s, c, n, f);
    ToExponent(s, c, f, x);
  }

  lemma LetterAt(s: bytes, x: nat, e: byte, sign: string)
    requires OneOf(e, "eE") && sign in ["", "+", "-"] && Match(s, x, [e] + Text(sign))
    requires var b := At(s, x + 1 + |sign|); !OneOf(b, "0123456789") && (sign == "" ==> !OneOf(b, "+-"))
    ensures x < |s| && IsE(At(s, x)) && !IsDigit(At(s, x)) && At(s, x) != DOT
    ensures ExpStart(s, x) == x + 1 + |sign| && !IsDigit(At(s, ExpStart(s, x)))
  {
    MatchAt(s, x, [e] + Text(sign), 0);
    if sign != "" {
      MatchAt(s, x, [e] + Text(sign), 1);
    }
    ClassesSpelled(At(s, x + 1 + |sign|));
  }

  /** Where the fraction starts, or would, the digits of the integer part end. */
  lemma FracStarts(s: bytes, f: nat, n: NumTok)
    requires ValidNum(n) && Match(s, f, FracText(n.frac)) && IsE(At(s, f + |FracText(n.frac)|))
    ensures !IsDigit(At(s, f)) && (n.frac.Frac? <==> At(s, f) == DOT)
    ensures n.frac.Frac? ==> n.frac.digits != [] && AllDigits(n.frac.digits)
  {
    hide Match;
    if n.frac.Frac? {
      MatchAt(s, f, FracText(n.frac), 0);
    }
  }

  lemma ToExponent(s: bytes, c: Cursor, f: nat, x: nat)
    requires !c.failed && c.i < f <= x < |s| && IsE(At(s, x)) && !IsDigit(At(s, ExpStart(s, x)))
    requires if At(s, f) == DOT then f < |s| && IsDigit(At(s, f + 1)) && f + 2 <= |s| && SkipDigits(s, f + 2) == x
             else x == f
    ensures ParseFraction(s, c, f) == (Null, Cursor(ExpStart(s, x), true, NoExponentDigit))
  {
    hide SkipDigits, Atoi, Strtod, ExpStart;
  }

  // ---- strings ----

  predicate HexFollows(s: bytes, k: nat) {
    k + 4 <= |s| && forall q :: k <= q < k + 4 ==> OneOf(s[q], "0123456789abcdefABCDEF")
  }

  /** No further token of a string can be read at j, nor its closing quote; at is how far the parser looks, err why. */
  predicate StringStops(s: bytes, j: nat, at: nat, err: Error)
    requires j <= |s|
  {
    if j == |s| then at == j && err == StringEnd
    else if s[j] < 0x20 then at == j + 1 && err == Unescaped(s[j])
    else
      && s[j] == Ch('\\')
      && if j + 1 == |s| then at == j + 1 && err == StringEnd
         else if s[j + 1] == Ch('u') then !HexFollows(s, j + 2) && at == j + 2 && err == BadHexEscape
         else !OneOf(s[j + 1], "\"\\/bfnrt") && at == j + 2 && err == InvalidEscape(s[j + 1])
  }

  /** From i on there are tokens of a string, then a place where it stops. */
  predicate StringBreaks(s: bytes, i: nat, toks: seq<Tok>, at: nat, err: Error) {
    ValidToks(toks) && Match(s, i, ToksText(toks)) && StringStops(s, i + |ToksText(toks)|, at, err)
  }

  lemma HexSpelled(s: bytes, k: nat)
    requires k <= |s|
    ensures HexFollows(s, k) <==> k + 4 <= |s| && IsHex4(s[k..k + 4])
  {
    hide IsHex, OneOf;
    if k + 4 <= |s| {
      ClassesSpelled(s[k]);
      ClassesSpelled(s[k + 1]);
      ClassesSpelled(s[k + 2]);
      ClassesSpelled(s[k + 3]);
    }
  }

  lemma StopIsBad(s: bytes, j: nat, at: nat, err: Error)
    requires j <= |s|
    ensures StringStops(s, j, at, err) ==> Tokenise(s, j) == Bad(at, err)
  {
    hide HexFollows, IsHex4, OneOf, IsSimpleEscape;
    if j + 1 < |s| {
      HexSpelled(s, j + 2);
      ClassesSpelled(s[j + 1]);
    }
  }

  lemma {:induction false} TokensPassed(s: bytes, i: nat, toks: seq<Tok>, at: nat, err: Error)
    requires StringBreaks(s, i, toks, at, err)
    ensures Tokenise(s, i) == Bad(at, err)
    decreases |toks|
  {
    hide Match, Tokenise, TokText, StringStops, ValidTok;
    if toks == [] {
      StopIsBad(s, i, at, err);
    } else {
      MatchSplit(s, i, TokText(toks[0]), ToksText(toks[1..]));
      TokenRead(s, i, toks[0]);
      TokensPassed(s, i + |TokText(toks[0])|, toks[1..], at, err);
    }
  }

  lemma OneTokenFound(s: bytes, i: nat) returns (t: Tok)
    requires i <= |s| && Tokenise(s, i).Bad? && !StringStops(s, i, Tokenise(s, i).at, Tokenise(s, i).err)
    ensures ValidTok(t) && Match(s, i, TokText(t)) && Tokenise(s, i) == Tokenise(s, i + |TokText(t)|)
  {
    hide HexFollows, IsHex4, OneOf, IsSimpleEscape;
    t := Plain(s[i]);
    if s[i] == BACKSLASH {
      HexSpelled(s, i + 2);
      ClassesSpelled(s[i + 1]);
      MatchTwo(s, i, BACKSLASH, s[i + 1]);
      t := Simple(s[i + 1]);
      if s[i + 1] == 0x75 {
        t := Hex(s[i + 2..i + 6]);
        MatchSplit(s, i, [BACKSLASH, 0x75], s[i + 2..i + 6]);
      }
    }
  }

  lemma {:induction false} BreakFound(s: bytes, i: nat) returns (toks: seq<Tok>)
    requires i <= |s| && Tokenise(s, i).Bad?
    ensures StringBreaks(s, i, toks, Tokenise(s, i).at, Tokenise(s, i).err)
    decreases |s| - i
  {
    hide Tokenise, StringStops, ValidTok, TokText, Match;
    toks := [];
    if StringStops(s, i, Tokenise(s, i).at, Tokenise(s, i).err) {
      NothingMatches(s, i);
    } else {
      var t := OneTokenFound(s, i);
      var rest := BreakFound(s, i + |TokText(t)|);
      toks := [t] + rest;
      assert toks[1..] == rest;
      MatchSplit(s, i, TokText(t), ToksText(rest));
    }
  }

  lemma NothingMatches(s: bytes, i: nat)
    requires i <= |s|
    ensures Match(s, i, [])
  {
  }

  /** parse_string fails exactly so: with this error, at this place. */
  lemma StringFailsIff(s: bytes, c: Cursor, at: nat, err: Error)
    requires c.i <= |s| && !c.failed
    ensures ParseString(s, c) == ([], Cursor(at, true, err)) <==> exists toks :: StringBreaks(s, c.i, toks, at, err)
  {
    hide ParseString, StringBreaks, Tokenise, Match, ToksText, StringValue;
    StringParsed(s, c);
    if toks :| StringBreaks(s, c.i, toks, at, err) {
      TokensPassed(s, c.i, toks, at, err);
    } else if Tokenise(s, c.i).Bad? {
      var found := BreakFound(s, c.i);
    }
  }

  // ---- comments ----

  /** A comment that breaks off is reported as malformed when its second character is wrong, else as without an end. */
  function CommentError(s: bytes, k: nat): Error
    requires k < |s|
  {
    if k + 1 < |s| && !OneOf(s[k + 1], "/*") then CommentMalformed else CommentEnd
  }

  lemma CommentRefused(s: bytes, c: Cursor, j: nat)
    requires !c.failed && c.i < |s| && BreaksAt(s, c.i, j)
    ensures !Comment(s, c).0 && Comment(s, c).1.failed && Comment(s, c).1.err == CommentError(s, c.i)
  {
    hide FindNewline, FindClose, BreaksAt;
    RejectedIff(s, c, j);
  }

  /** A comment that breaks off where a value is expected. */
  lemma GapsRefused(s: bytes, m: Mode, limit: nat, c: Cursor, depth: nat, gs: seq<Gap>, j: nat)
    requires !c.failed && depth <= limit && BreaksAfter(s, m, c.i, gs, j)
    ensures var r := ParseJson(s, m, limit, c, depth);
            r.0 == Null && r.1.failed && r.1.err == CommentError(s, c.i + |GapsText(gs)|)
  {
    hide Comment, GapsText, ValidGaps, Match, CommentError, ParseValue;
    GapsPassed(s, m, c, gs);
    var k := c.(i := c.i + |GapsText(gs)|);
    assert SkipWs(s, k.i) == k.i;
    CommentRefused(s, k, j);
  }

  // ---- where a value should start ----

  /** Nothing left: the text ended where a value was expected. */
  lemma NoValueLeft(s: bytes, m: Mode, limit: nat, c: Cursor, depth: nat, gs: seq<Gap>)
    requires !c.failed && depth <= limit && ValidGaps(m, gs) && !EndsInBlock(gs)
    requires Match(s, c.i, GapsText(gs)) && c.i + |GapsText(gs)| == |s|
    ensures ParseJson(s, m, limit, c, depth) == (Null, Cursor(|s|, true, InputEnd))
  {
    hide Garbage, Match, GapsText, ValidGaps, EndsInBlock;
    GapsSkipped(s, m, c, gs);
  }

  /** A digit, a sign or a quote starts a number or a string, whose errors are the value's. */
  lemma NumberOrString(s: bytes, m: Mode, limit: nat, c: Cursor, depth: nat, gs: seq<Gap>, b: byte)
    requires !c.failed && depth <= limit && ValidGaps(m, gs) && Match(s, c.i, GapsText(gs) + [b]) && TokenStart(m, b)
    ensures OneOf(b, "-0123456789") ==>
              ParseJson(s, m, limit, c, depth) == ParseNumber(s, c.(i := c.i + |GapsText(gs)|))
    ensures b == Ch('"') ==>
              var (str, d) := ParseString(s, c.(i := c.i + |GapsText(gs)| + 1));
              ParseJson(s, m, limit, c, depth) == (String(str), d)
  {
    hide Match, NextToken, ParseNumber, ParseString, ParseElems, ParseMembers, GapsText, ValidGaps;
    NextAfterGaps(s, m, c, gs, [b]);
  }

  /** Any other character has to open a bracket or start one of the three names. */
  lemma NoValueStarts(s: bytes, m: Mode, limit: nat, c: Cursor, depth: nat, gs: seq<Gap>, b: byte)
    requires !c.failed && depth <= limit && ValidGaps(m, gs) && Match(s, c.i, GapsText(gs) + [b]) && TokenStart(m, b)
    requires !OneOf(b, "-0123456789\"[{")
    ensures var j, r := c.i + |GapsText(gs)|, ParseJson(s, m, limit, c, depth);
            if OneOf(b, "tfn") then
              var name := if b == Ch('t') then "true" else if b == Ch('f') then "false" else "null";
              !Match(s, j, Text(name)) ==> r == (Null, Cursor(j, true, BadLiteral))
            else r == (Null, Cursor(j + 1, true, ExpectedValue(b)))
  {
    hide Match, NextToken, ParseNumber, ParseString, ParseElems, ParseMembers, GapsText, ValidGaps;
    NextAfterGaps(s, m, c, gs, [b]);
    NamesSpelled();
  }

  lemma NamesSpelled()
    ensures Text("true") == TRUE_TEXT && Text("false") == FALSE_TEXT && Text("null") == NULL_TEXT
  {
  }

  // ---- inside arrays and objects ----

  /** Elements with a comma behind each. */
  function Elements(elems: seq<Elem>): bytes {
    if elems == [] then []
    else GapsText(elems[0].before) + (Print(elems[0].v) + (GapsText(elems[0].after) + [COMMA])) + Elements(elems[1..])
  }

  lemma ElemPassed(s: bytes, m: Mode, limit: nat, c: Cursor, depth: nat, data: seq<Json>, e: Elem)
    requires !c.failed && depth + 1 + Height(e.v) <= limit
    requires ValidGaps(m, e.before) && ValidTree(m, e.v) && ValidGaps(m, e.after)
    requires Match(s, c.i, GapsText(e.before) + (Print(e.v) + (GapsText(e.after) + [COMMA])))
    ensures var (b, d) := NextToken(s, m, c);
            var after := c.(i := c.i + |GapsText(e.before) + (Print(e.v) + (GapsText(e.after) + [COMMA]))|);
            && b != RBRACKET && !d.failed && 0 < d.i <= |s| && after.i <= |s|
            && ParseElems(s, m, limit, d, depth, data)
               == ParseElems(s, m, limit, NextToken(s, m, after).1, depth, data + [Value(m, e.v)])
  {
    hide Match, NextToken, ParseJson, Print, GapsText, Value, Height, ValidGaps, ValidTree, EndsNumber, TokenStart;
    var rest := GapsText(e.after) + [COMMA];
    StartsToken(m, e.v);
    MatchSplit(s, c.i, GapsText(e.before), Print(e.v) + rest);
    NextAfterGaps(s, m, c, e.before, Print(e.v) + rest);
    var i := c.i + |GapsText(e.before)|;
    CommaEnds(m);
    ElemValue(s, m, limit, c.(i := i), depth + 1, e.v, e.after, COMMA);
  }

  /** A value, gaps and a character that ends it: the value is read, and the character is next. */
  lemma ElemValue(s: bytes, m: Mode, limit: nat, c: Cursor, depth: nat, t: Tree, gs: seq<Gap>, b: byte)
    requires !c.failed && depth + Height(t) <= limit && ValidTree(m, t) && ValidGaps(m, gs)
    requires EndsNumber(b) && TokenStart(m, b) && Match(s, c.i, Print(t) + (GapsText(gs) + [b]))
    ensures var c1 := c.(i := c.i + |Print(t)|);
            && ParseJson(s, m, limit, c, depth) == (Value(m, t), c1)
            && NextToken(s, m, c1) == (b, c1.(i := c1.i + |GapsText(gs)| + 1))
  {
    hide Match, NextToken, ParseJson, Print, GapsText, Value, Height, ValidGaps, ValidTree, EndsNumber, TokenStart;
    var x := c.i + |Print(t)|;
    MatchSplit(s, c.i, Print(t), GapsText(gs) + [b]);
    GapEndsNumber(s, m, x, gs, [b]);
    NextAfterGaps(s, m, c.(i := x), gs, [b]);
    NoGaps(m, Print(t));
    TreeRead(s, m, limit, c, depth, [], t);
  }

  lemma {:induction false} ElemsPassed(s: bytes, m: Mode, limit: nat, c: Cursor, depth: nat, data: seq<Json>,
                                       elems: seq<Elem>)
    requires !c.failed && c.i > 0 && ValidElems(m, elems) && depth <= limit
    requires elems != [] ==> depth + 1 + ElemsHeight(elems) <= limit
    requires Match(s, c.i, Elements(elems))
    ensures var (b, d) := NextToken(s, m, c);
            && d.i > 0 && (elems != [] ==> b != RBRACKET)
            && ParseElems(s, m, limit, d, depth, data)
               == ParseElems(s, m, limit, NextToken(s, m, c.(i := c.i + |Elements(elems)|)).1, depth,
                             data + ElemValues(m, elems))
    decreases |elems|
  {
    hide Match, NextToken, ParseElems, Print, GapsText, Value, Height, ValidGaps, ValidTree;
    if elems == [] {
      assert data + [] == data;
    } else {
      var e, rest := elems[0], elems[1..];
      var text := GapsText(e.before) + (Print(e.v) + (GapsText(e.after) + [COMMA]));
      MatchSplit(s, c.i, text, Elements(rest));
      ElemsPassed(s, m, limit, c.(i := c.i + |text|), depth, data + [Value(m, e.v)], rest);
      ElemPassed(s, m, limit, c, depth, data, e);
      assert data + [Value(m, e.v)] + ElemValues(m, rest) == data + ElemValues(m, elems);
    }
  }

  lemma NothingDone()
    ensures Elements([]) == [] && MembersDone([]) == []
  {
  }

  /** parse_json behind an opening bracket and any number of complete elements. */
  lemma ArrayOpened(s: bytes, m: Mode, limit: nat, c: Cursor, depth: nat, open: seq<Gap>, elems: seq<Elem>)
    requires !c.failed && depth <= limit && ValidGaps(m, open) && ValidElems(m, elems)
    requires elems != [] ==> depth + 1 + ElemsHeight(elems) <= limit
    requires Match(s, c.i, GapsText(open) + ([LBRACKET] + Elements(elems)))
    requires var a := c.(i := c.i + |GapsText(open)| + 1 + |Elements(elems)|);
             elems != [] || NextToken(s, m, a).0 != RBRACKET
    ensures var a := c.(i := c.i + |GapsText(open)| + 1 + |Elements(elems)|);
            && NextToken(s, m, a).1.i > 0
            && ParseJson(s, m, limit, c, depth)
               == ParseElems(s, m, limit, NextToken(s, m, a).1, depth, ElemValues(m, elems))
  {
    hide Match, NextToken, ParseElems, GapsText, ValidGaps, Elements, ValidElems, ElemValues, ElemsHeight;
    var k := c.i + |GapsText(open)|;
    NextAfterGaps(s, m, c, open, [LBRACKET] + Elements(elems));
    MatchSplit(s, k, [LBRACKET], Elements(elems));
    NothingDone();
    ElemsPassed(s, m, limit, c.(i := k + 1), depth, [], elems);
    assert [] + ElemValues(m, elems) == ElemValues(m, elems);
  }

  /** After an element there must be a comma or the closing bracket. */
  lemma ArrayNeedsComma(s: bytes, m: Mode, limit: nat, c: Cursor, depth: nat, open: seq<Gap>, elems: seq<Elem>,
                        gs: seq<Gap>, t: Tree)
    requires !c.failed && ValidGaps(m, open) && ValidElems(m, elems) && ValidGaps(m, gs) && ValidTree(m, t)
    requires depth + 1 + ElemsHeight(elems) <= limit && depth + 1 + Height(t) <= limit
    requires Match(s, c.i, GapsText(open) + ([LBRACKET] + Elements(elems)) + (GapsText(gs) + Print(t)))
    requires var x := c.i + |GapsText(open) + ([LBRACKET] + Elements(elems)) + (GapsText(gs) + Print(t))|;
             Ends(t, At(s, x)) && NextToken(s, m, c.(i := x)).0 !in [COMMA, RBRACKET]
    ensures var x := c.i + |GapsText(open) + ([LBRACKET] + Elements(elems)) + (GapsText(gs) + Print(t))|;
            var (b, d) := NextToken(s, m, c.(i := x));
            ParseJson(s, m, limit, c, depth) == (Null, Fail(d, ExpectedListComma(b)))
  {
    hide Match, NextToken, ParseJson, GapsText, ValidGaps, Elements, ValidElems, ElemValues, ElemsHeight;
    hide Print, ValidTree, Height, Value, Ends, TokenStart;
    var a := c.i + |GapsText(open)| + 1 + |Elements(elems)|;
    MatchSplit(s, c.i, GapsText(open) + ([LBRACKET] + Elements(elems)), GapsText(gs) + Print(t));
    StartsToken(m, t);
    NextAfterGaps(s, m, c.(i := a), gs, Print(t));
    ArrayOpened(s, m, limit, c, depth, open, elems);
    NoGaps(m, Print(t));
    TreeRead(s, m, limit, c.(i := a + |GapsText(gs)|), depth + 1, [], t);
  }

  /** A member's key and colon. */
  function KeyText(key: seq<Tok>, colon: seq<Gap>): bytes {
    [QUOTE] + ((ToksText(key) + [QUOTE]) + (GapsText(colon) + [COLON]))
  }

  function MemberText(e: Member): bytes {
    GapsText(e.before) + KeyText(e.key, e.colon) +
    ((GapsText(e.start) + Print(e.v)) + (GapsText(e.after) + [COMMA]))
  }

  /** Members with a comma behind each. */
  function MembersDone(members: seq<Member>): bytes {
    if members == [] then [] else MemberText(members[0]) + MembersDone(members[1..])
  }

  /** The object loop from a key to just behind its colon. */
  lemma KeyPassed(s: bytes, m: Mode, limit: nat, c: Cursor, depth: nat, data: seq<Field>, before: seq<Gap>,
                  key: seq<Tok>, colon: seq<Gap>)
    requires !c.failed && depth <= limit && ValidGaps(m, before) && ValidToks(key) && ValidGaps(m, colon)
    requires Match(s, c.i, GapsText(before) + KeyText(key, colon))
    ensures var (b, d) := NextToken(s, m, c);
            && b == QUOTE
            && ParseMembers(s, m, limit, b, d, depth, data)
               == AfterColon(s, m, limit, StringValue(key), c.(i := c.i + |GapsText(before) + KeyText(key, colon)|),
                             depth, data)
  {
    hide Match, NextToken, ParseString, AfterColon, GapsText, ValidGaps, ToksText, ValidToks, StringValue;
    var k := c.i + |GapsText(before)|;
    NextAfterGaps(s, m, c, before, KeyText(key, colon));
    MatchSplit(s, k, [QUOTE], (ToksText(key) + [QUOTE]) + (GapsText(colon) + [COLON]));
    MatchSplit(s, k + 1, ToksText(key) + [QUOTE], GapsText(colon) + [COLON]);
    StringRead(s, c.(i := k + 1), key);
    NextAfterGaps(s, m, c.(i := k + 1 + |ToksText(key)| + 1), colon, [COLON]);
  }

  /** The object loop from a colon over the value and the comma behind it. */
  lemma MemberPassed(s: bytes, m: Mode, limit: nat, c: Cursor, depth: nat, data: seq<Field>, key: bytes,
                     start: seq<Gap>, t: Tree, after: seq<Gap>)
    requires !c.failed && depth + 1 + Height(t) <= limit
    requires ValidGaps(m, start) && ValidTree(m, t) && ValidGaps(m, after)
    requires Match(s, c.i, (GapsText(start) + Print(t)) + (GapsText(after) + [COMMA]))
    ensures var a := c.(i := c.i + |(GapsText(start) + Print(t)) + (GapsText(after) + [COMMA])|);
            AfterColon(s, m, limit, key, c, depth, data)
            == ParseMembers(s, m, limit, NextToken(s, m, a).0, NextToken(s, m, a).1, depth,
                            Insert(data, key, Value(m, t)))
  {
    hide Match, NextToken, ParseJson, ParseMembers, Print, GapsText, Value, Height, ValidGaps, ValidTree, Insert;
    hide EndsNumber, TokenStart;
    var x := c.i + |GapsText(start) + Print(t)|;
    MatchSplit(s, c.i, GapsText(start) + Print(t), GapsText(after) + [COMMA]);
    CommaEnds(m);
    GapEndsNumber(s, m, x, after, [COMMA]);
    NextAfterGaps(s, m, c.(i := x), after, [COMMA]);
    TreeRead(s, m, limit, c, depth + 1, start, t);
  }

  lemma {:induction false} MembersPassed(s: bytes, m: Mode, limit: nat, c: Cursor, depth: nat, data: seq<Field>,
                                         members: seq<Member>)
    requires !c.failed && ValidMembers(m, members) && depth <= limit
    requires members != [] ==> depth + 1 + MembersHeight(members) <= limit
    requires Match(s, c.i, MembersDone(members))
    ensures var (b, d) := NextToken(s, m, c);
            var (b1, d1) := NextToken(s, m, c.(i := c.i + |MembersDone(members)|));
            && (members != [] ==> b != RBRACE)
            && ParseMembers(s, m, limit, b, d, depth, data)
               == ParseMembers(s, m, limit, b1, d1, depth, MemberValues(m, members, data))
    decreases |members|
  {
    hide Match, NextToken, ParseMembers, Print, GapsText, Value, Height, ValidGaps, ValidTree, KeyText, StringValue;
    hide ValidToks, Insert, AfterColon;
    if members != [] {
      var e, rest := members[0], members[1..];
      var head, tail := GapsText(e.before) + KeyText(e.key, e.colon),
        (GapsText(e.start) + Print(e.v)) + (GapsText(e.after) + [COMMA]);
      MatchSplit(s, c.i, head + tail, MembersDone(rest));
      MatchSplit(s, c.i, head, tail);
      KeyPassed(s, m, limit, c, depth, data, e.before, e.key, e.colon);
      MemberPassed(s, m, limit, c.(i := c.i + |head|), depth, data, StringValue(e.key), e.start, e.v, e.after);
      var data' := Insert(data, StringValue(e.key), Value(m, e.v));
      MembersPassed(s, m, limit, c.(i := c.i + |head + tail|), depth, data', rest);
    }
  }

  /** parse_json behind an opening brace and any number of complete members. */
  lemma ObjectOpened(s: bytes, m: Mode, limit: nat, c: Cursor, depth: nat, open: seq<Gap>, members: seq<Member>)
    requires !c.failed && depth <= limit && ValidGaps(m, open) && ValidMembers(m, members)
    requires members != [] ==> depth + 1 + MembersHeight(members) <= limit
    requires Match(s, c.i, GapsText(open) + ([LBRACE] + MembersDone(members)))
    requires var a := c.(i := c.i + |GapsText(open)| + 1 + |MembersDone(members)|);
             members != [] || NextToken(s, m, a).0 != RBRACE
    ensures var a := c.(i := c.i + |GapsText(open)| + 1 + |MembersDone(members)|);
            ParseJson(s, m, limit, c, depth)
            == ParseMembers(s, m, limit, NextToken(s, m, a).0, NextToken(s, m, a).1, depth,
                            MemberValues(m, members, []))
  {
    hide Match, NextToken, ParseMembers, GapsText, ValidGaps, MembersDone, ValidMembers, MemberValues, MembersHeight;
    var k := c.i + |GapsText(open)|;
    NextAfterGaps(s, m, c, open, [LBRACE] + MembersDone(members));
    MatchSplit(s, k, [LBRACE], MembersDone(members));
    NothingDone();
    MembersPassed(s, m, limit, c.(i := k + 1), depth, [], members);
  }

  /** A member starts with a quote. */
  lemma ObjectNeedsKey(s: bytes, m: Mode, limit: nat, c: Cursor, depth: nat, open: seq<Gap>, members: seq<Member>)
    requires !c.failed && depth <= limit && ValidGaps(m, open) && ValidMembers(m, members)
    requires members != [] ==> depth + 1 + MembersHeight(members) <= limit
    requires Match(s, c.i, GapsText(open) + ([LBRACE] + MembersDone(members)))
    requires var b := NextToken(s, m, c.(i := c.i + |GapsText(open)| + 1 + |MembersDone(members)|)).0;
             b != QUOTE && (members == [] ==> b != RBRACE)
    ensures var (b, d) := NextToken(s, m, c.(i := c.i + |GapsText(open)| + 1 + |MembersDone(members)|));
            ParseJson(s, m, limit, c, depth) == (Null, Fail(d, ExpectedKey(b)))
  {
    hide Match, NextToken, ParseJson, GapsText, ValidGaps, MembersDone, ValidMembers, MemberValues, MembersHeight;
    ObjectOpened(s, m, limit, c, depth, open, members);
  }

  /** An opening brace, complete members and one more key. */
  function UpToKey(open: seq<Gap>, members: seq<Member>, before: seq<Gap>, key: seq<Tok>): bytes {
    GapsText(open) + ([LBRACE] + MembersDone(members)) + (GapsText(before) + ([QUOTE] + (ToksText(key) + [QUOTE])))
  }

  /** After a key there must be a colon. */
  lemma KeyNeedsColon(s: bytes, m: Mode, limit: nat, c: Cursor, depth: nat, open: seq<Gap>, members: seq<Member>,
                      before: seq<Gap>, key: seq<Tok>)
    requires !c.failed && depth <= limit && ValidGaps(m, open) && ValidMembers(m, members)
    requires members != [] ==> depth + 1 + MembersHeight(members) <= limit
    requires ValidGaps(m, before) && ValidToks(key) && Match(s, c.i, UpToKey(open, members, before, key))
    requires NextToken(s, m, c.(i := c.i + |UpToKey(open, members, before, key)|)).0 != COLON
    ensures var (b, d) := NextToken(s, m, c.(i := c.i + |UpToKey(open, members, before, key)|));
            ParseJson(s, m, limit, c, depth) == (Null, Fail(d, ExpectedColon(b)))
  {
    hide Match, NextToken, ParseJson, GapsText, ValidGaps, MembersDone, ValidMembers, MemberValues, MembersHeight;
    hide ToksText, ValidToks, StringValue, ParseString;
    var a := c.i + |GapsText(open)| + 1 + |MembersDone(members)|;
    var k := a + |GapsText(before)|;
    MatchSplit(s, c.i, GapsText(open) + ([LBRACE] + MembersDone(members)),
               GapsText(before) + ([QUOTE] + (ToksText(key) + [QUOTE])));
    NextAfterGaps(s, m, c.(i := a), before, [QUOTE] + (ToksText(key) + [QUOTE]));
    MatchSplit(s, k, [QUOTE], ToksText(key) + [QUOTE]);
    StringRead(s, c.(i := k + 1), key);
    ObjectOpened(s, m, limit, c, depth, open, members);
  }

  /** An opening brace, complete members, one more key and its colon. */
  function UpToColon(open: seq<Gap>, members: seq<Member>, before: seq<Gap>, key: seq<Tok>, colon: seq<Gap>): bytes {
    GapsText(open) + ([LBRACE] + MembersDone(members)) + (GapsText(before) + KeyText(key, colon))
  }

  lemma ColonPassed(s: bytes, m: Mode, limit: nat, c: Cursor, depth: nat, open: seq<Gap>, members: seq<Member>,
                    before: seq<Gap>, key: seq<Tok>, colon: seq<Gap>)
    requires !c.failed && depth <= limit && ValidGaps(m, open) && ValidMembers(m, members)
    requires members != [] ==> depth + 1 + MembersHeight(members) <= limit
    requires ValidGaps(m, before) && ValidToks(key) && ValidGaps(m, colon)
    requires Match(s, c.i, UpToColon(open, members, before, key, colon))
    ensures var a := c.(i := c.i + |UpToColon(open, members, before, key, colon)|);
            ParseJson(s, m, limit, c, depth)
            == AfterColon(s, m, limit, StringValue(key), a, depth, MemberValues(m, members, []))
  {
    hide Match, NextToken, ParseJson, GapsText, ValidGaps, MembersDone, ValidMembers, MemberValues, MembersHeight;
    hide KeyText, ValidToks, StringValue, ParseMembers, AfterColon;
    var a := c.i + |GapsText(open)| + 1 + |MembersDone(members)|;
    MatchSplit(s, c.i, GapsText(open) + ([LBRACE] + MembersDone(members)), GapsText(before) + KeyText(key, colon));
    KeyPassed(s, m, limit, c.(i := a), depth, MemberValues(m, members, []), before, key, colon);
    ObjectOpened(s, m, limit, c, depth, open, members);
  }

  /** After a member there must be a comma or the closing brace. */
  lemma ObjectNeedsComma(s: bytes, m: Mode, limit: nat, c: Cursor, depth: nat, open: seq<Gap>, members: seq<Member>,
                         before: seq<Gap>, key: seq<Tok>, colon: seq<Gap>, gs: seq<Gap>, t: Tree)
    requires !c.failed && depth + 1 + MembersHeight(members) <= limit && depth + 1 + Height(t) <= limit
    requires ValidGaps(m, open) && ValidMembers(m, members)
    requires ValidGaps(m, before) && ValidToks(key) && ValidGaps(m, colon) && ValidGaps(m, gs) && ValidTree(m, t)
    requires Match(s, c.i, UpToColon(open, members, before, key, colon) + (GapsText(gs) + Print(t)))
    requires var x := c.i + |UpToColon(open, members, before, key, colon) + (GapsText(gs) + Print(t))|;
             Ends(t, At(s, x)) && NextToken(s, m, c.(i := x)).0 !in [COMMA, RBRACE]
    ensures var x := c.i + |UpToColon(open, members, before, key, colon) + (GapsText(gs) + Print(t))|;
            var (b, d) := NextToken(s, m, c.(i := x));
            ParseJson(s, m, limit, c, depth) == (Null, Fail(d, ExpectedObjectComma(b)))
  {
    hide Match, NextToken, ParseJson, GapsText, ValidGaps, UpToColon, ValidMembers, MemberValues, MembersHeight;
    hide Print, ValidTree, Height, Value, Ends, ValidToks, StringValue, ParseMembers, Insert;
    MatchSplit(s, c.i, UpToColon(open, members, before, key, colon), GapsText(gs) + Print(t));
    ColonPassed(s, m, limit, c, depth, open, members, before, key, colon);
    TreeRead(s, m, limit, c.(i := c.i + |UpToColon(open, members, before, key, colon)|), depth + 1, gs, t);
  }

  // ---- at any nesting ----

  /** The way from the start of a text to a place where a value is expected. */
  datatype Way =
    | Here
    | InArray(open: seq<Gap>, elems: seq<Elem>, way: Way)
    | InObject(open: seq<Gap>, members: seq<Member>, before: seq<Gap>, key: seq<Tok>, colon: seq<Gap>, way: Way)

  predicate ValidWay(m: Mode, w: Way) {
    match w
    case Here => true
    case InArray(open, elems, way) => ValidGaps(m, open) && ValidElems(m, elems) && ValidWay(m, way)
    case InObject(open, members, before, key, colon, way) =>
      && ValidGaps(m, open) && ValidMembers(m, members) && ValidGaps(m, before) && ValidToks(key) && ValidGaps(m, colon)
      && ValidWay(m, way)
  }

  function WayText(w: Way): bytes {
    match w
    case Here => []
    case InArray(open, elems, way) => GapsText(open) + ([LBRACKET] + Elements(elems)) + WayText(way)
    case InObject(open, members, before, key, colon, way) => UpToColon(open, members, before, key, colon) + WayText(way)
  }

  function WayDepth(w: Way): nat {
    match w
    case Here => 0
    case InArray(_, _, way) => 1 + WayDepth(way)
    case InObject(_, _, _, _, _, way) => 1 + WayDepth(way)
  }

  /** What stands on the way is nested no deeper than left levels. */
  predicate WayFits(w: Way, left: int) {
    left >= 0 &&
    match w
    case Here => true
    case InArray(_, elems, way) => (elems != [] ==> 1 + ElemsHeight(elems) <= left) && WayFits(way, left - 1)
    case InObject(_, members, _, _, _, way) =>
      (members != [] ==> 1 + MembersHeight(members) <= left) && WayFits(way, left - 1)
  }

  /** The array loop steps back over a character already read; nothing is lost by that. */
  lemma SteppedBack(s: bytes, m: Mode, limit: nat, c: Cursor, depth: nat, data: seq<Json>)
    requires !c.failed && 0 < c.i <= |s| && depth < limit && ParseJson(s, m, limit, c, depth + 1).1.failed
    ensures NextToken(s, m, c).1.i > 0
    ensures var r := ParseElems(s, m, limit, NextToken(s, m, c).1, depth, data);
            r.1.failed && r.1.err == ParseJson(s, m, limit, c, depth + 1).1.err
  {
    hide Garbage, ParseValue;
    var d := NextToken(s, m, c).1;
    if !d.failed {
      NoGap(s, m, d.(i := d.i - 1));
    }
  }

  /** A way that leads on starts with a bracket. */
  lemma WayStarts(s: bytes, m: Mode, c: Cursor, w: Way)
    requires !c.failed && ValidWay(m, w) && !w.Here? && Match(s, c.i, WayText(w))
    ensures NextToken(s, m, c).0 in [LBRACKET, LBRACE]
  {
    hide Match, NextToken, GapsText, ValidGaps, ValidElems, ValidMembers, Elements, MembersDone, KeyText;
    var open, b := w.open, if w.InArray? then LBRACKET else LBRACE;
    var rest := WayText(w)[|GapsText(open)| + 1..];
    assert WayText(w) == GapsText(open) + ([b] + rest);
    NextAfterGaps(s, m, c, open, [b] + rest);
  }

  /** The error at the place a way leads to is the error of the whole. */
  lemma {:induction false} ErrorStands(s: bytes, m: Mode, limit: nat, c: Cursor, depth: nat, w: Way)
    requires !c.failed && ValidWay(m, w) && WayFits(w, limit - depth) && Match(s, c.i, WayText(w))
    requires var a := c.(i := c.i + |WayText(w)|);
             && NextToken(s, m, a).0 != RBRACKET
             && ParseJson(s, m, limit, a, depth + WayDepth(w)).1.failed
    ensures var a := c.(i := c.i + |WayText(w)|);
            var r := ParseJson(s, m, limit, c, depth);
            r.1.failed && r.1.err == ParseJson(s, m, limit, a, depth + WayDepth(w)).1.err
    decreases w
  {
    hide Match, NextToken, ParseJson, GapsText, ValidGaps, ValidElems, ValidMembers, Elements, UpToColon, ParseElems;
    hide ValidToks, ElemValues, MemberValues, StringValue, ElemsHeight, MembersHeight;
    match w {
      case Here =>
      case InArray(open, elems, way) =>
        var text := GapsText(open) + ([LBRACKET] + Elements(elems));
        var a := c.(i := c.i + |text|);
        MatchSplit(s, c.i, text, WayText(way));
        ErrorStands(s, m, limit, a, depth + 1, way);
        if !way.Here? {
          WayStarts(s, m, a, way);
        }
        ArrayOpened(s, m, limit, c, depth, open, elems);
        SteppedBack(s, m, limit, a, depth, ElemValues(m, elems));
      case InObject(open, members, before, key, colon, way) =>
        var text := UpToColon(open, members, before, key, colon);
        MatchSplit(s, c.i, text, WayText(way));
        ErrorStands(s, m, limit, c.(i := c.i + |text|), depth + 1, way);
        ColonPassed(s, m, limit, c, depth, open, members, before, key, colon);
    }
  }

  /** Json::parse reports the first error, wherever it stands. */
  lemma FirstErrorIsReported(s: bytes, m: Mode, err0: Error, w: Way)
    requires ValidWay(m, w) && WayFits(w, 200) && Match(s, 0, WayText(w))
    requires var a := Cursor(|WayText(w)|, false, err0);
             NextToken(s, m, a).0 != RBRACKET && ParseJson(s, m, 200, a, WayDepth(w)).1.failed
    ensures var a := Cursor(|WayText(w)|, false, err0);
            var d := Parse(s, m, err0).1;
            d.failed && d.err == ParseJson(s, m, 200, a, WayDepth(w)).1.err
  {
    hide Match, NextToken, ParseJson, Garbage, WayText, WayFits, ValidWay, WayDepth;
    ErrorStands(s, m, 200, Cursor(0, false, err0), 0, w);
  }

  /** A complete text with anything but gaps behind it. */
  lemma TrailingRefused(s: bytes, m: Mode, err0: Error, gs: seq<Gap>, t: Tree, trail: seq<Gap>, b: byte)
    requires ValidGaps(m, gs) && ValidTree(m, t) && ValidGaps(m, trail) && Height(t) <= 200 && TokenStart(m, b)
    requires t.Num? && trail == [] ==> EndsNumber(b)
    requires Match(s, 0, (GapsText(gs) + Print(t)) + (GapsText(trail) + [b]))
    ensures var e := |(GapsText(gs) + Print(t)) + GapsText(trail)|;
            Parse(s, m, err0) == (Null, Cursor(e, true, Trailing(b)))
  {
    hide Match, ParseJson, Garbage, GapsText, ValidGaps, Print, ValidTree, Height, TokenStart, EndsNumber;
    var c, x := Cursor(0, false, err0), |GapsText(gs) + Print(t)|;
    MatchSplit(s, 0, GapsText(gs) + Print(t), GapsText(trail) + [b]);
    MatchSplit(s, x, GapsText(trail), [b]);
    MatchAt(s, x + |GapsText(trail)|, [b], 0);
    NoGaps(m, [b]);
    if trail == [] {
      MatchAt(s, x, [b], 0);
      assert GapsText(trail) == [];
    } else {
      GapEnds(s, m, x, trail);
    }
    TreeRead(s, m, 200, c, 0, gs, t);
    GapsSkipped(s, m, c.(i := x), trail);
  }
}
