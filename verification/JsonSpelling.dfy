/**
 The texts of RFC 8259 spelled out in characters, production by production, and what Json::parse makes
 of them. Nothing here goes through the parser's own constants.
 */
module JsonSpelling {
  import opened Bytes
  import opened Ascii
  import opened JsonValue
  import opened JsonCursor
  import opened JsonGaps
  import opened JsonStrings
  import opened JsonNumbers
  import opened JsonParse
  import opened JsonGrammar
  import opened JsonAccept
  import opened JsonText

  // ---- characters ----

  /** The character classes of sections 2, 6 and 7. */
  lemma ClassesSpelled(b: byte)
    ensures IsWs(b) <==> OneOf(b, " \t\r\n")
    ensures IsDigit(b) <==> OneOf(b, "0123456789")
    ensures IsDigit(b) ==> "0123456789"[DigitValue(b)] == b as char
    ensures IsE(b) <==> OneOf(b, "eE")
    ensures IsHex(b) <==> OneOf(b, "0123456789abcdefABCDEF")
    ensures IsSimpleEscape(b) <==> OneOf(b, "\"\\/bfnrt")
  {
  }

  predicate DigitsOnly(ds: bytes) {
    ds != [] && forall k :: 0 <= k < |ds| ==> OneOf(ds[k], "0123456789")
  }

  lemma {:induction false} DigitsSpelled(ds: bytes)
    requires ds != []
    ensures AllDigits(ds) <==> DigitsOnly(ds)
  {
    hide IsDigit, OneOf;
    ClassesSpelled(ds[0]);
    if |ds| > 1 {
      DigitsSpelled(ds[1..]);
      if DigitsOnly(ds[1..]) && OneOf(ds[0], "0123456789") {
        assert forall k :: 1 <= k < |ds| ==> ds[k] == ds[1..][k - 1];
      }
    }
  }

  // ---- gaps ----

  function GapSpelled(g: Gap): bytes {
    match g
    case Ws(b) => [b]
    case Line(body) => Text("//") + body + Text("\n")
    case Block(body) => Text("/*") + body + Text("*/")
  }

  function GapsSpelled(gs: seq<Gap>): bytes {
    if gs == [] then [] else GapSpelled(gs[0]) + GapsSpelled(gs[1..])
  }

  lemma GapIsSpelled(g: Gap)
    ensures GapText(g) == GapSpelled(g)
  {
    assert Text("//") == [SLASH, SLASH] && Text("\n") == [NEWLINE];
    assert Text("/*") == [SLASH, STAR] && Text("*/") == [STAR, SLASH];
  }

  lemma {:induction false} GapsAreSpelled(gs: seq<Gap>)
    ensures GapsText(gs) == GapsSpelled(gs)
  {
    hide GapText, GapSpelled;
    if gs != [] {
      GapIsSpelled(gs[0]);
      GapsAreSpelled(gs[1..]);
    }
  }

  /** Whitespace everywhere; in COMMENTS mode also comments, to the end of the line or to the first closing pair. */
  lemma ValidGapSpelled(m: Mode, g: Gap)
    ensures ValidGap(m, g) <==>
            match g
            case Ws(b) => OneOf(b, " \t\r\n")
            case Line(body) => m == Comments && Ch('\n') !in body
            case Block(body) =>
              m == Comments && forall k :: 0 <= k < |body| - 1 ==> [body[k], body[k + 1]] != Text("*/")
  {
    hide OneOf;
    match g {
      case Ws(b) => ClassesSpelled(b);
      case Line(_) =>
      case Block(body) =>
        assert Text("*/") == [STAR, SLASH];
        assert forall k :: 0 <= k < |body| - 1 ==>
          ([body[k], body[k + 1]] == [STAR, SLASH] <==> body[k] == STAR && body[k + 1] == SLASH);
    }
  }

  // ---- numbers and strings ----

  function NumSpelled(n: NumTok): bytes {
    (if n.neg then Text("-") else []) + n.whole
    + (match n.frac case NoFrac => [] case Frac(ds) => Text(".") + ds)
    + (match n.exp case NoExp => [] case Exp(e, sign, ds) => [e] + sign + ds)
  }

  lemma NumIsSpelled(n: NumTok)
    ensures NumText(n) == NumSpelled(n)
  {
    assert Text("-") == [MINUS] && Text(".") == [DOT];
  }

  /** Section 6: no leading zero, and digits in every part that is there. */
  lemma ValidNumSpelled(n: NumTok)
    ensures ValidNum(n) <==>
            && DigitsOnly(n.whole) && (n.whole[0] == Ch('0') ==> |n.whole| == 1)
            && (n.frac.Frac? ==> DigitsOnly(n.frac.digits))
            && (n.exp.Exp? ==>
                  && OneOf(n.exp.e, "eE") && DigitsOnly(n.exp.digits)
                  && (n.exp.sign == [] || n.exp.sign == Text("+") || n.exp.sign == Text("-")))
  {
    hide AllDigits, DigitsOnly, OneOf;
    assert Text("-") == [MINUS] && Text("+") == [PLUS];
    NonEmptyDigits(n.whole);
    if n.frac.Frac? {
      NonEmptyDigits(n.frac.digits);
    }
    if n.exp.Exp? {
      ClassesSpelled(n.exp.e);
      NonEmptyDigits(n.exp.digits);
    }
  }

  lemma NonEmptyDigits(ds: bytes)
    ensures DigitsOnly(ds) ==> ds != []
    ensures ds != [] ==> (AllDigits(ds) <==> DigitsOnly(ds))
  {
    if ds != [] {
      DigitsSpelled(ds);
    }
  }

  function TokSpelled(t: Tok): bytes {
    match t
    case Plain(b) => [b]
    case Simple(e) => Text("\\") + [e]
    case Hex(h) => Text("\\u") + h
  }

  function ToksSpelled(ts: seq<Tok>): bytes {
    if ts == [] then [] else TokSpelled(ts[0]) + ToksSpelled(ts[1..])
  }

  lemma {:induction false} ToksAreSpelled(ts: seq<Tok>)
    ensures ToksText(ts) == ToksSpelled(ts)
  {
    if ts != [] {
      ToksAreSpelled(ts[1..]);
      assert Text("\\") == [BACKSLASH] && Text("\\u") == [BACKSLASH, 0x75];
    }
  }

  /** Section 7: what may stand unescaped, and what an escape may be. */
  lemma ValidTokSpelled(t: Tok)
    ensures ValidTok(t) <==>
            match t
            case Plain(b) => b >= 0x20 && b != Ch('"') && b != Ch('\\')
            case Simple(e) => OneOf(e, "\"\\/bfnrt")
            case Hex(h) => |h| == 4 && forall k :: 0 <= k < 4 ==> OneOf(h[k], "0123456789abcdefABCDEF")
  {
    hide OneOf, IsHex, IsSimpleEscape;
    match t {
      case Plain(_) =>
      case Simple(e) => ClassesSpelled(e);
      case Hex(h) =>
        if |h| == 4 {
          ClassesSpelled(h[0]);
          ClassesSpelled(h[1]);
          ClassesSpelled(h[2]);
          ClassesSpelled(h[3]);
        }
    }
  }

  function StrSpelled(ts: seq<Tok>): bytes {
    Text("\"") + ToksSpelled(ts) + Text("\"")
  }

  // ---- values ----

  /** Sections 3, 4 and 5. */
  function Spelled(t: Tree): bytes
    decreases t, 1
  {
    match t
    case True => Text("true")
    case False => Text("false")
    case Nul => Text("null")
    case Num(n) => NumSpelled(n)
    case Str(ts) => StrSpelled(ts)
    case EmptyArr(g) => Text("[") + GapsSpelled(g) + Text("]")
    case EmptyObj(g) => Text("{") + GapsSpelled(g) + Text("}")
    case Arr(elems) => Text("[") + ElemsSpelled(elems) + Text("]")
    case Obj(members) => Text("{") + MembersSpelled(members) + Text("}")
  }

  function ElemsSpelled(elems: seq<Elem>): bytes
    decreases elems, 0
  {
    if elems == [] then []
    else
      GapsSpelled(elems[0].before) + Spelled(elems[0].v) + GapsSpelled(elems[0].after)
      + if |elems| == 1 then [] else Text(",") + ElemsSpelled(elems[1..])
  }

  function MembersSpelled(members: seq<Member>): bytes
    decreases members, 0
  {
    if members == [] then []
    else
      var e := members[0];
      GapsSpelled(e.before) + StrSpelled(e.key) + GapsSpelled(e.colon) + Text(":")
      + GapsSpelled(e.start) + Spelled(e.v) + GapsSpelled(e.after)
      + if |members| == 1 then [] else Text(",") + MembersSpelled(members[1..])
  }

  lemma Punctuation()
    ensures Text("[") == [LBRACKET] && Text("]") == [RBRACKET] && Text("{") == [LBRACE] && Text("}") == [RBRACE]
    ensures Text(",") == [COMMA] && Text(":") == [COLON] && Text("\"") == [QUOTE]
    ensures Text("true") == TRUE_TEXT && Text("false") == FALSE_TEXT && Text("null") == NULL_TEXT
  {
  }

  /** The grammar's texts are those of the productions. */
  lemma {:induction false} PrintIsSpelled(m: Mode, t: Tree)
    requires ValidTree(m, t)
    ensures Print(t) == Spelled(t)
    decreases t, 2
  {
    hide Text, NumText, NumSpelled, ToksText, ToksSpelled, GapsText, GapsSpelled, ElemsText, MembersText;
    hide ElemsSpelled, MembersSpelled, ValidElems, ValidMembers, ValidGaps, ValidToks, ValidNum;
    Punctuation();
    match t {
      case Num(n) => NumIsSpelled(n);
      case Str(ts) => ToksAreSpelled(ts);
      case EmptyArr(g) => GapsAreSpelled(g);
      case EmptyObj(g) => GapsAreSpelled(g);
      case Arr(elems) => ElemsAreSpelled(m, elems);
      case Obj(members) => MembersAreSpelled(m, members);
      case _ =>
    }
  }

  lemma {:induction false} ElemsAreSpelled(m: Mode, elems: seq<Elem>)
    requires elems != [] && ValidElems(m, elems)
    ensures GapsText(elems[0].before) + ElemsText(elems) == ElemsSpelled(elems) + Text("]")
    decreases elems, 1
  {
    hide Text, Print, Spelled, ValidTree, ValidGaps, GapsText, GapsSpelled, ElemsTail;
    var e := elems[0];
    Punctuation();
    GapsAreSpelled(e.before);
    GapsAreSpelled(e.after);
    PrintIsSpelled(m, e.v);
    ElemsTailStarts(elems);
    if |elems| > 1 {
      ElemsAreSpelled(m, elems[1..]);
    }
    var rest := if |elems| == 1 then [] else Text(",") + ElemsSpelled(elems[1..]);
    assert ElemsTail(elems) == rest + Text("]");
    Joined(GapsText(e.before), Print(e.v), GapsText(e.after), rest, Text("]"));
  }

  lemma Joined(a: bytes, b: bytes, c: bytes, d: bytes, e: bytes)
    ensures a + (b + (c + (d + e))) == a + b + c + d + e
  {
  }

  lemma {:induction false} MembersAreSpelled(m: Mode, members: seq<Member>)
    requires members != [] && ValidMembers(m, members)
    ensures GapsText(members[0].before) + MembersText(members) == MembersSpelled(members) + Text("}")
    decreases members, 1
  {
    hide Text, Print, Spelled, ValidTree, ValidGaps, ValidToks, GapsText, GapsSpelled, ToksText, ToksSpelled;
    hide MembersTail;
    var e := members[0];
    Punctuation();
    GapsAreSpelled(e.before);
    GapsAreSpelled(e.colon);
    GapsAreSpelled(e.start);
    GapsAreSpelled(e.after);
    ToksAreSpelled(e.key);
    PrintIsSpelled(m, e.v);
    MembersTailStarts(members);
    if |members| > 1 {
      MembersAreSpelled(m, members[1..]);
    }
    var rest := if |members| == 1 then [] else Text(",") + MembersSpelled(members[1..]);
    assert MembersTail(members) == rest + Text("}");
    MemberJoined(GapsText(e.before), ToksText(e.key), GapsText(e.colon), GapsText(e.start), Print(e.v),
                 GapsText(e.after), rest);
  }

  lemma MemberJoined(a: bytes, key: bytes, b: bytes, c: bytes, v: bytes, d: bytes, rest: bytes)
    ensures a + ([QUOTE] + ((key + [QUOTE]) + (b + ([COLON] + ((c + v) + (d + (rest + [RBRACE])))))))
         == a + ([QUOTE] + key + [QUOTE]) + b + [COLON] + c + v + d + rest + [RBRACE]
  {
  }

  // ---- what is parsed ----

  /** A text so spelled is accepted with its value when it nests at most 200 deep, and rejected beyond. */
  lemma SpelledIsParsed(m: Mode, gs: seq<Gap>, t: Tree, trail: seq<Gap>, err0: Error)
    requires ValidGaps(m, gs) && ValidTree(m, t) && ValidGaps(m, trail) && !EndsInBlock(trail)
    ensures var s := GapsSpelled(gs) + Spelled(t) + GapsSpelled(trail);
            if Height(t) <= 200 then Parse(s, m, err0) == (Value(m, t), Cursor(|s|, false, err0))
            else Parse(s, m, err0).1.failed && Parse(s, m, err0).1.err == TooDeep
  {
    hide Parse, GapsText, GapsSpelled, Print, Spelled, ValidGaps, ValidTree, Value, Height, EndsInBlock;
    GapsAreSpelled(gs);
    GapsAreSpelled(trail);
    PrintIsSpelled(m, t);
    TextParsed(GapsSpelled(gs) + Spelled(t) + GapsSpelled(trail), m, err0, gs, t, trail);
  }

  /** Json::parse returns v and no error, and has read the whole text. */
  predicate Accepted(s: bytes, m: Mode, err0: Error, v: Json) {
    Parse(s, m, err0) == (v, Cursor(|s|, false, err0))
  }

  /** The three literal names, and what each stands for. */
  predicate Names(name: string, v: Json) {
    (name == "true" && v == Bool(true)) || (name == "false" && v == Bool(false)) || (name == "null" && v == Null)
  }

  lemma NamesAreParsed(m: Mode, gs: seq<Gap>, name: string, v: Json, trail: seq<Gap>, err0: Error)
    requires ValidGaps(m, gs) && ValidGaps(m, trail) && !EndsInBlock(trail)
    requires IsAscii(name) && Names(name, v)
    ensures Accepted(GapsSpelled(gs) + Text(name) + GapsSpelled(trail), m, err0, v)
  {
    hide Parse, GapsSpelled, ValidGaps, EndsInBlock, Text;
    SpelledIsParsed(m, gs, if name == "true" then True else if name == "false" then False else Nul, trail, err0);
  }

  /** An array of one element. */
  lemma OneElement(m: Mode, t: Tree, g: seq<Gap>, h: seq<Gap>, err0: Error)
    requires ValidTree(m, t) && ValidGaps(m, g) && ValidGaps(m, h) && Height(t) < 200
    ensures var s := Text("[") + (GapsSpelled(g) + Spelled(t) + GapsSpelled(h)) + Text("]");
            Parse(s, m, err0) == (Array([Value(m, t)]), Cursor(|s|, false, err0))
  {
    hide Parse, Text, GapsSpelled, ValidGaps, ValidTree, ValidElems, Value, Height, Spelled, ElemsSpelled, ElemValues;
    hide ElemsHeight;
    var elems := [Elem(g, t, h)];
    LastElem(m, Elem(g, t, h));
    ArrMeans(m, elems);
    Alone(m, Arr(elems), err0);
  }

  /** An array of two. */
  lemma TwoElements(m: Mode, t: Tree, u: Tree, g: seq<Gap>, h: seq<Gap>, err0: Error)
    requires ValidTree(m, t) && ValidTree(m, u) && ValidGaps(m, g) && ValidGaps(m, h)
    requires Height(t) < 200 && Height(u) < 200
    ensures var s := Text("[") + (GapsSpelled(g) + Spelled(t) + GapsSpelled(h) + (Text(",") + Spelled(u))) + Text("]");
            Parse(s, m, err0) == (Array([Value(m, t), Value(m, u)]), Cursor(|s|, false, err0))
  {
    hide Parse, Text, GapsSpelled, ValidGaps, ValidTree, ValidElems, Value, Height, Spelled, ElemsSpelled, ElemValues;
    hide ElemsHeight, EndsInBlock;
    var e, last := Elem(g, t, h), [Elem([], u, [])];
    NoGapsSpelled(m);
    LastElem(m, last[0]);
    MoreElems(m, e, last);
    assert [] + Spelled(u) + [] == Spelled(u);
    assert [Value(m, t)] + [Value(m, u)] == [Value(m, t), Value(m, u)];
    ArrMeans(m, [e] + last);
    Alone(m, Arr([e] + last), err0);
  }

  lemma LastElem(m: Mode, e: Elem)
    requires ValidGaps(m, e.before) && ValidTree(m, e.v) && ValidGaps(m, e.after)
    ensures ValidElems(m, [e]) && ElemValues(m, [e]) == [Value(m, e.v)] && ElemsHeight([e]) == Height(e.v)
    ensures ElemsSpelled([e]) == GapsSpelled(e.before) + Spelled(e.v) + GapsSpelled(e.after)
  {
    hide Text, GapsSpelled, ValidGaps, ValidTree, Value, Height, Spelled;
    assert [e][1..] == [];
    assert ValidElems(m, []);
    assert ElemValues(m, []) == [] && ElemsHeight([]) == 0;
  }

  lemma MoreElems(m: Mode, e: Elem, rest: seq<Elem>)
    requires ValidGaps(m, e.before) && ValidTree(m, e.v) && ValidGaps(m, e.after) && rest != [] && ValidElems(m, rest)
    ensures ValidElems(m, [e] + rest) && ElemValues(m, [e] + rest) == [Value(m, e.v)] + ElemValues(m, rest)
    ensures ElemsHeight([e] + rest) == Max(Height(e.v), ElemsHeight(rest))
    ensures ElemsSpelled([e] + rest)
            == GapsSpelled(e.before) + Spelled(e.v) + GapsSpelled(e.after) + (Text(",") + ElemsSpelled(rest))
  {
    hide Text, GapsSpelled, ValidGaps, ValidTree, Value, Height, Spelled;
    assert ([e] + rest)[1..] == rest;
  }

  lemma ArrMeans(m: Mode, elems: seq<Elem>)
    requires elems != [] && ValidElems(m, elems)
    ensures ValidTree(m, Arr(elems)) && Value(m, Arr(elems)) == Array(ElemValues(m, elems))
    ensures Height(Arr(elems)) == 1 + ElemsHeight(elems)
    ensures Spelled(Arr(elems)) == Text("[") + ElemsSpelled(elems) + Text("]")
  {
    hide Text;
  }

  /** An object of one member. */
  lemma OneMember(m: Mode, t: Tree, key: seq<Tok>, g: seq<Gap>, h: seq<Gap>, err0: Error)
    requires ValidTree(m, t) && ValidToks(key) && ValidGaps(m, g) && ValidGaps(m, h) && Height(t) < 200
    ensures var inner := GapsSpelled(g) + StrSpelled(key) + Text(":") + Spelled(t) + GapsSpelled(h);
            var s := Text("{") + inner + Text("}");
            Parse(s, m, err0) == (Object([Field(StringValue(key), Value(m, t))]), Cursor(|s|, false, err0))
  {
    hide Parse, Text, GapsSpelled, ValidGaps, ValidTree, ValidMembers, Value, Height, Spelled, MembersSpelled;
    hide MemberValues, MembersHeight, StrSpelled, StringValue, ValidToks;
    var members := [Member(g, key, [], [], t, h)];
    NoGapsSpelled(m);
    LastMember(m, members[0]);
    LastMemberSpelled(members[0]);
    NothingBetween(GapsSpelled(g) + StrSpelled(key), Text(":"));
    ObjMeans(m, members);
    Alone(m, Obj(members), err0);
  }

  lemma LastMember(m: Mode, e: Member)
    requires ValidTree(m, e.v) && ValidToks(e.key)
    requires ValidGaps(m, e.before) && ValidGaps(m, e.colon) && ValidGaps(m, e.start) && ValidGaps(m, e.after)
    ensures ValidMembers(m, [e]) && MembersHeight([e]) == Height(e.v)
    ensures MemberValues(m, [e], []) == [Field(StringValue(e.key), Value(m, e.v))]
  {
    hide ValidGaps, ValidTree, Value, Height, StringValue, ValidToks;
    assert [e][1..] == [];
    assert ValidMembers(m, []);
    assert MembersHeight([]) == 0;
  }

  lemma LastMemberSpelled(e: Member)
    ensures MembersSpelled([e])
            == GapsSpelled(e.before) + StrSpelled(e.key) + GapsSpelled(e.colon) + Text(":") + GapsSpelled(e.start)
               + Spelled(e.v) + GapsSpelled(e.after)
  {
    hide Text, GapsSpelled, Spelled, StrSpelled;
  }

  lemma NothingBetween(a: bytes, b: bytes)
    ensures a + [] + b + [] == a + b
  {
  }

  lemma ObjMeans(m: Mode, members: seq<Member>)
    requires members != [] && ValidMembers(m, members)
    ensures ValidTree(m, Obj(members)) && Value(m, Obj(members)) == Object(MemberValues(m, members, []))
    ensures Height(Obj(members)) == 1 + MembersHeight(members)
    ensures Spelled(Obj(members)) == Text("{") + MembersSpelled(members) + Text("}")
  {
    hide Text;
  }

  lemma NoGapsSpelled(m: Mode)
    ensures GapsSpelled([]) == [] && ValidGaps(m, []) && !EndsInBlock([])
  {
  }

  /** A text without gaps around it. */
  lemma Alone(m: Mode, t: Tree, err0: Error)
    requires ValidTree(m, t) && Height(t) <= 200
    ensures Parse(Spelled(t), m, err0) == (Value(m, t), Cursor(|Spelled(t)|, false, err0))
  {
    hide Parse, Spelled, ValidTree, Value, Height, GapsSpelled;
    NoGapsSpelled(m);
    assert GapsSpelled([]) + Spelled(t) + GapsSpelled([]) == Spelled(t);
    SpelledIsParsed(m, [], t, [], err0);
  }
}
