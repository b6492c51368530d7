/** Every text of the grammar is accepted with its value, exactly when its nesting is within the limit. */
module JsonAccept {
  import opened Bytes
  import opened JsonValue
  import opened JsonCursor
  import opened JsonGaps
  import opened JsonStrings
  import opened JsonNumbers
  import opened JsonParse
  import opened JsonGrammar

  /** Gaps followed by a token: get_next_token returns the token's first character. */
  lemma NextAfterGaps(s: bytes, m: Mode, c: Cursor, gs: seq<Gap>, rest: bytes)
    requires ValidGaps(m, gs) && rest != [] && TokenStart(m, rest[0])
    requires Match(s, c.i, GapsText(gs) + rest)
    ensures var e := c.i + |GapsText(gs)|;
            NextToken(s, m, c) == (rest[0], c.(i := e + 1)) && Match(s, e, rest)
  {
    hide Match, Garbage, GapsText, ValidGaps, TokenStart;
    var e := c.i + |GapsText(gs)|;
    MatchSplit(s, c.i, GapsText(gs), rest);
    MatchAt(s, e, rest, 0);
    GapsSkipped(s, m, c, gs);
  }

  /** Gaps before a closing bracket may be skipped first. */
  lemma NextPastGaps(s: bytes, m: Mode, c: Cursor, gs: seq<Gap>)
    requires ValidGaps(m, gs) && Match(s, c.i, GapsText(gs)) && c.i + |GapsText(gs)| < |s|
    ensures NextToken(s, m, c) == NextToken(s, m, c.(i := c.i + |GapsText(gs)|))
  {
    hide Match, Garbage, GapsText, ValidGaps;
    GapsPassed(s, m, c, gs);
  }

  /** Where a bracket is the next token no number can go on. */
  lemma NextEndsNumber(s: bytes, m: Mode, c: Cursor)
    requires c.i <= |s| && (NextToken(s, m, c).0 == RBRACKET || NextToken(s, m, c).0 == RBRACE)
    ensures EndsNumber(At(s, c.i))
  {
    hide Garbage;
    if !EndsNumber(At(s, c.i)) {
      NoGap(s, m, c);
    }
  }

  /**
   The text t stands at i but for its last byte, a bracket, which is the next token there and leaves the state
   end.
   */
  predicate OpenAt(s: bytes, m: Mode, c: Cursor, i: nat, t: bytes, end: Cursor)
    requires t != []
  {
    && Match(s, i, Chop(t)) && i + |t| <= |s|
    && NextToken(s, m, c.(i := i + |t| - 1)) == (t[|t| - 1], end)
  }

  lemma ClosedIsOpen(s: bytes, m: Mode, c: Cursor, i: nat, t: bytes)
    requires t != [] && (t[|t| - 1] == RBRACKET || t[|t| - 1] == RBRACE) && Match(s, i, t)
    ensures OpenAt(s, m, c, i, t, c.(i := i + |t|))
  {
    hide Match, Garbage;
    MatchChop(s, i, t);
    NoGap(s, m, c.(i := i + |t| - 1));
  }

  /** No gap runs on a number. */
  lemma GapEnds(s: bytes, m: Mode, i: nat, gs: seq<Gap>)
    requires gs != [] && ValidGaps(m, gs) && Match(s, i, GapsText(gs))
    ensures i < |s| && EndsNumber(At(s, i))
  {
    hide Match;
    assert GapsText(gs)[0] == GapText(gs[0])[0];
    MatchAt(s, i, GapsText(gs), 0);
  }

  /** The character after a gap-then-token text cannot run on a number. */
  lemma GapEndsNumber(s: bytes, m: Mode, i: nat, gs: seq<Gap>, rest: bytes)
    requires ValidGaps(m, gs) && rest != [] && EndsNumber(rest[0])
    requires Match(s, i, GapsText(gs) + rest)
    ensures EndsNumber(At(s, i))
  {
    hide Match, EndsNumber, ValidGaps;
    MatchSplit(s, i, GapsText(gs), rest);
    if gs == [] {
      MatchAt(s, i, rest, 0);
    } else {
      GapEnds(s, m, i, gs);
    }
  }

  lemma StartsToken(m: Mode, t: Tree)
    requires ValidTree(m, t)
    ensures Print(t) != [] && TokenStart(m, Print(t)[0]) && Print(t)[0] != RBRACKET
  {
    if t.Num? {
      assert NumText(t.n)[0] == if t.n.neg then MINUS else t.n.whole[0];
    }
  }

  /** Outcome of reading a tree: its value and the position after it, or failure for nesting too deep. */
  predicate Outcome(r: (Json, Cursor), fits: bool, v: Json, c: Cursor) {
    if fits then r == (v, c) else r.1.failed && r.1.err == TooDeep
  }

  lemma WordRead(s: bytes, c: Cursor, word: bytes, v: Json)
    requires 0 < c.i && word != [] && Match(s, c.i - 1, word)
    ensures Expect(s, c, word, v) == (v, c.(i := c.i - 1 + |word|))
  {
  }

  lemma StringRead(s: bytes, c: Cursor, toks: seq<Tok>)
    requires !c.failed && ValidToks(toks) && Match(s, c.i, ToksText(toks) + [QUOTE])
    ensures ParseString(s, c) == (StringValue(toks), c.(i := c.i + |ToksText(toks)| + 1))
  {
    hide Match, Tokenise, ParseString, StringValue;
    TokensRead(s, c.i, toks);
    StringParsed(s, c);
  }

  /** parse_json on gaps and a tree. */
  lemma {:induction false} TreeRead(s: bytes, m: Mode, limit: nat, c: Cursor, depth: nat, gs: seq<Gap>, t: Tree)
    requires !c.failed && ValidGaps(m, gs) && ValidTree(m, t)
    requires Match(s, c.i, GapsText(gs) + Print(t))
    requires Ends(t, At(s, c.i + |GapsText(gs) + Print(t)|))
    ensures Outcome(ParseJson(s, m, limit, c, depth), depth + Height(t) <= limit,
                    Value(m, t), c.(i := c.i + |GapsText(gs) + Print(t)|))
    decreases t, 2
  {
    hide Match, Print, Value, ValidTree, NextToken, ParseValue, Height, TokenStart, GapsText, ValidGaps, Ends;
    StartsToken(m, t);
    NextAfterGaps(s, m, c, gs, Print(t));
    if depth <= limit {
      ValueRead(s, m, limit, c.(i := c.i + |GapsText(gs)| + 1), depth, t);
    }
  }

  /** parse_json past the first character of a tree. */
  lemma {:induction false} ValueRead(s: bytes, m: Mode, limit: nat, c: Cursor, depth: nat, t: Tree)
    requires 0 < c.i && !c.failed && depth <= limit && ValidTree(m, t)
    requires Match(s, c.i - 1, Print(t)) && Print(t) != [] && Ends(t, At(s, c.i - 1 + |Print(t)|))
    ensures Outcome(ParseValue(s, m, limit, Print(t)[0], c, depth), depth + Height(t) <= limit,
                    Value(m, t), c.(i := c.i - 1 + |Print(t)|))
    decreases t, 1
  {
    hide Match, NextToken, ParseElems, ParseMembers, ParseNumber, ParseString, Expect, TokenNumber, StringValue;
    hide ElemsText, MembersText, Tokenise, GapsText, ElemsHeight, MembersHeight, ElemValues, MemberValues;
    var i := c.i - 1;
    match t {
      case True => WordRead(s, c, TRUE_TEXT, Bool(true));
      case False => WordRead(s, c, FALSE_TEXT, Bool(false));
      case Nul => WordRead(s, c, NULL_TEXT, Null);
      case Num(n) =>
        NumberRead(s, c.(i := i), n);
        assert NumText(n)[0] == if n.neg then MINUS else n.whole[0];
      case Str(toks) =>
        MatchSplit(s, i, [QUOTE], ToksText(toks) + [QUOTE]);
        StringRead(s, c, toks);
      case _ => ContainerRead(s, m, limit, c, depth, t);
    }
  }

  lemma {:induction false} ContainerRead(s: bytes, m: Mode, limit: nat, c: Cursor, depth: nat, t: Tree)
    requires 0 < c.i && !c.failed && depth <= limit && ValidTree(m, t) && IsContainer(t)
    requires Match(s, c.i - 1, Print(t)) && Print(t) != []
    ensures Outcome(ParseValue(s, m, limit, Print(t)[0], c, depth), depth + Height(t) <= limit,
                    Value(m, t), c.(i := c.i - 1 + |Print(t)|))
    decreases t, 0
  {
    hide Match, NextToken, ParseElems, ParseMembers, ElemsText, MembersText, GapsText, OpenAt, Chop;
    hide ElemsHeight, MembersHeight, ElemValues, MemberValues;
    var i := c.i - 1;
    match t {
      case EmptyArr(g) =>
        MatchSplit(s, i, [LBRACKET], GapsText(g) + [RBRACKET]);
        NextAfterGaps(s, m, c, g, [RBRACKET]);
      case EmptyObj(g) =>
        MatchSplit(s, i, [LBRACE], GapsText(g) + [RBRACE]);
        NextAfterGaps(s, m, c, g, [RBRACE]);
      case Arr(elems) =>
        ArrayChop(elems);
        ClosedIsOpen(s, m, c, i, Print(t));
        ArrayRead(s, m, limit, c, depth, elems, c.(i := i + |Print(t)|));
      case Obj(members) =>
        ObjectChop(members);
        ClosedIsOpen(s, m, c, i, Print(t));
        ObjectRead(s, m, limit, c, depth, members, c.(i := i + |Print(t)|));
    }
  }

  /** The array branch, up to whatever state its closing bracket leaves. */
  lemma {:induction false} ArrayRead(s: bytes, m: Mode, limit: nat, c: Cursor, depth: nat, elems: seq<Elem>,
                                     end: Cursor)
    requires 0 < c.i && !c.failed && depth <= limit && elems != [] && ValidElems(m, elems)
    requires OpenAt(s, m, c, c.i - 1, Print(Arr(elems)), end)
    ensures Outcome(ParseValue(s, m, limit, LBRACKET, c, depth), depth + 1 + ElemsHeight(elems) <= limit,
                    Array(ElemValues(m, elems)), end)
    decreases elems, 3
  {
    hide Match, NextToken, ParseElems, ParseMembers, ElemsText, Print, GapsText, ElemValues, ElemsHeight;
    hide ValidGaps, ValidTree, TokenStart, Chop;
    var gs, text := GapsText(elems[0].before), ElemsText(elems);
    ArrayChop(elems);
    MatchSplit(s, c.i - 1, [LBRACKET], gs + Chop(text));
    ElemsStartToken(m, elems);
    NextAfterGaps(s, m, c, elems[0].before, Chop(text));
    ElemsRead(s, m, limit, c.(i := c.i + |gs| + 1), depth, [], elems, end);
    assert [] + ElemValues(m, elems) == ElemValues(m, elems);
  }

  lemma ElemsStartToken(m: Mode, elems: seq<Elem>)
    requires elems != [] && ValidElems(m, elems)
    ensures Chop(ElemsText(elems)) != [] && TokenStart(m, Chop(ElemsText(elems))[0])
    ensures Chop(ElemsText(elems))[0] != RBRACKET
  {
    hide TokenStart, ValidTree;
    StartsToken(m, elems[0].v);
  }

  /** What stands after an element's value and the gaps behind it, but for the closing bracket. */
  function ElemsOpen(elems: seq<Elem>): bytes
    requires elems != []
  {
    Chop(ElemsTail(elems))
  }

  lemma {:induction false} ElemsChop(elems: seq<Elem>)
    requires elems != []
    ensures ElemsText(elems)[|ElemsText(elems)| - 1] == RBRACKET
    ensures Chop(ElemsText(elems)) == Print(elems[0].v) + (GapsText(elems[0].after) + ElemsOpen(elems))
    ensures ElemsOpen(elems)
            == if |elems| == 1 then [] else [COMMA] + (GapsText(elems[1].before) + Chop(ElemsText(elems[1..])))
    decreases |elems|
  {
    hide Print, GapsText, Chop, ElemsTail;
    ElemsTailStarts(elems);
    if |elems| > 1 {
      ElemsChop(elems[1..]);
      ChopJoin(GapsText(elems[1].before), ElemsText(elems[1..]));
      ChopJoin([COMMA], GapsText(elems[1].before) + ElemsText(elems[1..]));
    }
    ChopJoin(GapsText(elems[0].after), ElemsTail(elems));
    ChopJoin(Print(elems[0].v), GapsText(elems[0].after) + ElemsTail(elems));
  }

  lemma {:induction false} ElemsRead(s: bytes, m: Mode, limit: nat, c: Cursor, depth: nat, data: seq<Json>,
                                     elems: seq<Elem>, end: Cursor)
    requires 0 < c.i <= |s| && !c.failed && depth <= limit && elems != [] && ValidElems(m, elems)
    requires OpenAt(s, m, c, c.i - 1, ElemsText(elems), end)
    ensures Outcome(ParseElems(s, m, limit, c, depth, data), depth + 1 + ElemsHeight(elems) <= limit,
                    Array(data + ElemValues(m, elems)), end)
    decreases elems, 2
  {
    hide Match, NextToken, ParseJson, ParseValue, Print, ElemsText, GapsText, Value, Height, ValidGaps, ValidTree;
    hide ElemValues, ElemsOpen, ElemsTail, EndsNumber, Chop, ElemsHeight, ValidElems;
    var e, i := elems[0], c.i - 1;
    var x, y := i + |Print(e.v)|, i + |Print(e.v)| + |GapsText(e.after)|;
    ElemsChop(elems);
    MatchSplit(s, i, Print(e.v), GapsText(e.after) + ElemsOpen(elems));
    MatchSplit(s, x, GapsText(e.after), ElemsOpen(elems));
    ElemEnds(s, m, c.(i := x), elems);
    NoGaps(m, Print(e.v));
    ElemValuesSplit(m, data, elems);
    TreeRead(s, m, limit, c.(i := i), depth + 1, [], e.v);
    if depth + 1 + Height(e.v) <= limit && |elems| > 1 {
      var z := y + 1 + |GapsText(elems[1].before)|;
      NextElem(s, m, c, y, elems, end);
      ElemsRead(s, m, limit, c.(i := z + 1), depth, data + [Value(m, e.v)], elems[1..], end);
    }
  }

  lemma ElemsOpenText(elems: seq<Elem>)
    requires |elems| > 1
    ensures ElemsOpen(elems) == [COMMA] + (GapsText(elems[1].before) + Chop(ElemsText(elems[1..])))
    ensures |ElemsOpen(elems)| == |GapsText(elems[1].before)| + |ElemsText(elems[1..])|
    ensures ElemsText(elems[1..])[|ElemsText(elems[1..])| - 1] == RBRACKET
  {
    hide Print, GapsText, ElemsText, ElemsTail, ElemsOpen, Chop;
    ElemsChop(elems);
    ElemsChop(elems[1..]);
  }

  /** From the comma behind an element to the first character of the next one. */
  lemma NextElem(s: bytes, m: Mode, c: Cursor, y: nat, elems: seq<Elem>, end: Cursor)
    requires |elems| > 1 && ValidElems(m, elems) && Match(s, y, ElemsOpen(elems))
    requires y + |ElemsOpen(elems)| < |s|
    requires NextToken(s, m, c.(i := y + |ElemsOpen(elems)|)) == (RBRACKET, end)
    ensures ValidElems(m, elems[1..])
    ensures var z := y + 1 + |GapsText(elems[1].before)|;
            && z < |s| && NextToken(s, m, c.(i := y + 1)).1 == c.(i := z + 1)
            && OpenAt(s, m, c, z, ElemsText(elems[1..]), end)
  {
    hide Match, NextToken, Print, ElemsText, ElemsTail, ElemsOpen, Chop, GapsText, ValidGaps, ValidTree;
    var rest, gs := elems[1..], elems[1].before;
    ElemsOpenText(elems);
    ElemsStartToken(m, rest);
    MatchSplit(s, y, [COMMA], GapsText(gs) + Chop(ElemsText(rest)));
    NextAfterGaps(s, m, c.(i := y + 1), gs, Chop(ElemsText(rest)));
  }

  lemma ElemsOpenStarts(elems: seq<Elem>)
    requires elems != []
    ensures if |elems| == 1 then ElemsOpen(elems) == [] else ElemsOpen(elems) != [] && ElemsOpen(elems)[0] == COMMA
  {
    hide GapsText, ElemsText;
    ElemsTailStarts(elems);
  }

  /** After an element's value comes a comma or the closing bracket, and no number runs on. */
  lemma ElemEnds(s: bytes, m: Mode, c: Cursor, elems: seq<Elem>)
    requires elems != [] && ValidElems(m, elems)
    requires var y := c.i + |GapsText(elems[0].after)|;
             && Match(s, c.i, GapsText(elems[0].after)) && Match(s, y, ElemsOpen(elems)) && y < |s|
             && (|elems| == 1 ==> NextToken(s, m, c.(i := y)).0 == RBRACKET)
    ensures EndsNumber(At(s, c.i))
    ensures var y := c.i + |GapsText(elems[0].after)|;
            NextToken(s, m, c) == if |elems| == 1 then NextToken(s, m, c.(i := y)) else (COMMA, c.(i := y + 1))
  {
    hide Match, NextToken, GapsText, ValidGaps, ValidTree, Print, EndsNumber, ElemsOpen;
    var gs := elems[0].after;
    ElemsOpenStarts(elems);
    if |elems| == 1 {
      NextPastGaps(s, m, c, gs);
      NextEndsNumber(s, m, c);
    } else {
      MatchSplit(s, c.i, GapsText(gs), ElemsOpen(elems));
      CommaEnds(m);
      NextAfterGaps(s, m, c, gs, ElemsOpen(elems));
      GapEndsNumber(s, m, c.i, gs, ElemsOpen(elems));
    }
  }

  lemma CommaEnds(m: Mode)
    ensures EndsNumber(COMMA) && TokenStart(m, COMMA)
  {
  }

  lemma ElemValuesSplit(m: Mode, data: seq<Json>, elems: seq<Elem>)
    requires elems != [] && ValidElems(m, elems)
    ensures ValidTree(m, elems[0].v) && ValidGaps(m, elems[0].after) && ValidElems(m, elems[1..])
    ensures |elems| == 1 ==> ElemsHeight(elems) == Height(elems[0].v)
    ensures ElemsHeight(elems) == Max(Height(elems[0].v), ElemsHeight(elems[1..]))
    ensures data + ElemValues(m, elems) == data + [Value(m, elems[0].v)] + ElemValues(m, elems[1..])
    ensures |elems| == 1 ==> data + ElemValues(m, elems) == data + [Value(m, elems[0].v)]
  {
    hide Value, ValidTree, ValidGaps;
  }

  lemma ElemsTailStarts(elems: seq<Elem>)
    requires elems != []
    ensures ElemsTail(elems) != [] && EndsNumber(ElemsTail(elems)[0])
    ensures ElemsTail(elems) == if |elems| == 1 then [RBRACKET]
                                else [COMMA] + (GapsText(elems[1].before) + ElemsText(elems[1..]))
    ensures forall m :: TokenStart(m, ElemsTail(elems)[0])
  {
    hide ElemsText, GapsText;
  }

  lemma NoGaps(m: Mode, t: bytes)
    ensures GapsText([]) + t == t && ValidGaps(m, [])
  {
  }

  lemma ArrayChop(elems: seq<Elem>)
    requires elems != []
    ensures Print(Arr(elems)) != [] && Print(Arr(elems))[|Print(Arr(elems))| - 1] == RBRACKET
    ensures ElemsText(elems)[|ElemsText(elems)| - 1] == RBRACKET
    ensures Chop(Print(Arr(elems))) == [LBRACKET] + (GapsText(elems[0].before) + Chop(ElemsText(elems)))
  {
    hide ElemsText, ElemsTail, ElemsOpen, Chop, GapsText;
    ElemsChop(elems);
    ChopJoin(GapsText(elems[0].before), ElemsText(elems));
    ChopJoin([LBRACKET], GapsText(elems[0].before) + ElemsText(elems));
  }

  lemma ObjectChop(members: seq<Member>)
    requires members != []
    ensures Print(Obj(members)) != [] && Print(Obj(members))[|Print(Obj(members))| - 1] == RBRACE
    ensures MembersText(members)[|MembersText(members)| - 1] == RBRACE
    ensures Chop(Print(Obj(members))) == [LBRACE] + (GapsText(members[0].before) + Chop(MembersText(members)))
    ensures Chop(MembersText(members)) != [] && Chop(MembersText(members))[0] == QUOTE
  {
    hide MembersText, MembersRest, MembersTail, MembersOpen, Chop, GapsText, ToksText;
    MembersChop(members);
    ChopJoin(GapsText(members[0].before), MembersText(members));
    ChopJoin([LBRACE], GapsText(members[0].before) + MembersText(members));
  }

  /** The object branch, up to whatever state its closing brace leaves. */
  lemma {:induction false} ObjectRead(s: bytes, m: Mode, limit: nat, c: Cursor, depth: nat, members: seq<Member>,
                                      end: Cursor)
    requires 0 < c.i && !c.failed && depth <= limit && members != [] && ValidMembers(m, members)
    requires OpenAt(s, m, c, c.i - 1, Print(Obj(members)), end)
    ensures Outcome(ParseValue(s, m, limit, LBRACE, c, depth), depth + 1 + MembersHeight(members) <= limit,
                    Object(MemberValues(m, members, [])), end)
    decreases members, 3
  {
    hide Match, NextToken, ParseElems, ParseMembers, MembersText, Print, GapsText, MemberValues, MembersHeight;
    hide ValidGaps, MembersRest, Chop;
    var gs, text := GapsText(members[0].before), MembersText(members);
    ObjectChop(members);
    MatchSplit(s, c.i - 1, [LBRACE], gs + Chop(text));
    NextAfterGaps(s, m, c, members[0].before, Chop(text));
    MembersRead(s, m, limit, c.(i := c.i + |gs| + 1), depth, [], members, end);
  }

  /** What stands after a member's value and the gaps behind it, but for the closing brace. */
  function MembersOpen(members: seq<Member>): bytes
    requires members != []
  {
    Chop(MembersTail(members))
  }

  lemma {:induction false} MembersChop(members: seq<Member>)
    requires members != []
    ensures |MembersText(members)| > 1 && MembersText(members)[|MembersText(members)| - 1] == RBRACE
    ensures MembersRest(members)[|MembersRest(members)| - 1] == RBRACE
    ensures Chop(MembersText(members))
            == [QUOTE] + ((ToksText(members[0].key) + [QUOTE]) +
               (GapsText(members[0].colon) + ([COLON] + Chop(MembersRest(members)))))
    ensures Chop(MembersText(members))[0] == QUOTE
    ensures Chop(MembersRest(members))
            == (GapsText(members[0].start) + Print(members[0].v)) + (GapsText(members[0].after) + MembersOpen(members))
    ensures MembersOpen(members)
            == if |members| == 1 then [] else [COMMA] + (GapsText(members[1].before) + Chop(MembersText(members[1..])))
    decreases |members|
  {
    hide Print, GapsText, ToksText, Chop, MembersText, MembersRest, MembersTail, MembersOpen;
    if |members| > 1 {
      MembersChop(members[1..]);
    }
    TailChop(members);
    RestChop(members);
    TextChop(members);
  }

  lemma TailChop(members: seq<Member>)
    requires members != []
    requires |members| > 1 ==> MembersText(members[1..])[|MembersText(members[1..])| - 1] == RBRACE
    ensures MembersTail(members)[|MembersTail(members)| - 1] == RBRACE
    ensures MembersOpen(members)
            == if |members| == 1 then [] else [COMMA] + (GapsText(members[1].before) + Chop(MembersText(members[1..])))
  {
    hide GapsText, Chop, MembersText, MembersTail;
    MembersTailStarts(members);
    if |members| > 1 {
      ChopJoin(GapsText(members[1].before), MembersText(members[1..]));
      ChopJoin([COMMA], GapsText(members[1].before) + MembersText(members[1..]));
    }
  }

  lemma RestChop(members: seq<Member>)
    requires members != [] && MembersTail(members)[|MembersTail(members)| - 1] == RBRACE
    ensures MembersRest(members)[|MembersRest(members)| - 1] == RBRACE
    ensures Chop(MembersRest(members))
            == (GapsText(members[0].start) + Print(members[0].v)) + (GapsText(members[0].after) + MembersOpen(members))
  {
    hide Print, GapsText, Chop, MembersTail;
    var e := members[0];
    ChopJoin(GapsText(e.after), MembersTail(members));
    ChopJoin(GapsText(e.start) + Print(e.v), GapsText(e.after) + MembersTail(members));
  }

  lemma TextChop(members: seq<Member>)
    requires members != [] && MembersRest(members)[|MembersRest(members)| - 1] == RBRACE
    ensures MembersText(members)[|MembersText(members)| - 1] == RBRACE
    ensures Chop(MembersText(members))
            == [QUOTE] + ((ToksText(members[0].key) + [QUOTE]) +
                          (GapsText(members[0].colon) + ([COLON] + Chop(MembersRest(members)))))
    ensures Chop(MembersText(members)) != [] && Chop(MembersText(members))[0] == QUOTE
  {
    hide GapsText, ToksText, Chop, MembersRest;
    var e := members[0];
    var key := ToksText(e.key) + [QUOTE];
    ChopJoin([COLON], MembersRest(members));
    ChopJoin(GapsText(e.colon), [COLON] + MembersRest(members));
    ChopJoin(key, GapsText(e.colon) + ([COLON] + MembersRest(members)));
    ChopJoin([QUOTE], key + (GapsText(e.colon) + ([COLON] + MembersRest(members))));
  }

  lemma {:induction false} MembersRead(s: bytes, m: Mode, limit: nat, c: Cursor, depth: nat, data: seq<Field>,
                                       members: seq<Member>, end: Cursor)
    requires 0 < c.i && !c.failed && depth <= limit && members != [] && ValidMembers(m, members)
    requires OpenAt(s, m, c, c.i - 1, MembersText(members), end)
    ensures Outcome(ParseMembers(s, m, limit, QUOTE, c, depth, data), depth + 1 + MembersHeight(members) <= limit,
                    Object(MemberValues(m, members, data)), end)
    decreases members, 2
  {
    hide Chop;
    hide Match, NextToken, ParseJson, ParseValue, ParseString, Print, MembersText, MembersRest, MembersTail;
    hide MembersOpen;
    hide GapsText, ToksText, Value, StringValue, Height, ValidGaps, ValidTree, ValidToks, Insert;
    var e, i, rest := members[0], c.i, Chop(MembersRest(members));
    var key := ToksText(e.key) + [QUOTE];
    MembersChop(members);
    MatchSplit(s, i - 1, [QUOTE], key + (GapsText(e.colon) + ([COLON] + rest)));
    MatchSplit(s, i, key, GapsText(e.colon) + ([COLON] + rest));
    StringRead(s, c, e.key);
    var j := i + |key|;
    NextAfterGaps(s, m, c.(i := j), e.colon, [COLON] + rest);
    var k := j + |GapsText(e.colon)|;
    MatchSplit(s, k, [COLON], rest);
    MemberValueRead(s, m, limit, c.(i := k + 1), depth, data, members, end);
  }

  /** The object loop from just after a colon. */
  lemma {:induction false} MemberValueRead(s: bytes, m: Mode, limit: nat, c: Cursor, depth: nat, data: seq<Field>,
                                           members: seq<Member>, end: Cursor)
    requires !c.failed && depth <= limit && members != [] && ValidMembers(m, members)
    requires OpenAt(s, m, c, c.i, MembersRest(members), end)
    ensures Outcome(AfterColon(s, m, limit, StringValue(members[0].key), c, depth, data),
                    depth + 1 + MembersHeight(members) <= limit,
                    Object(MemberValues(m, members, data)), end)
    decreases members, 1
  {
    hide Chop, MembersHeight, MemberValues, ValidMembers;
    hide Match, NextToken, ParseJson, ParseValue, ParseString, ParseMembers, Print, MembersText, MembersRest;
    hide MembersTail;
    hide MembersOpen, GapsText, ToksText, Value, StringValue, Height, ValidGaps, ValidTree, ValidToks, Insert;
    hide EndsNumber;
    var e, i := members[0], c.i;
    var text := GapsText(e.start) + Print(e.v);
    var x, y := i + |text|, i + |text| + |GapsText(e.after)|;
    MemberValuesSplit(m, data, members);
    RestText(members);
    MatchSplit(s, i, text, GapsText(e.after) + MembersOpen(members));
    MatchSplit(s, x, GapsText(e.after), MembersOpen(members));
    MemberEnds(s, m, c.(i := x), members);
    TreeRead(s, m, limit, c, depth + 1, e.start, e.v);
    if depth + 1 + Height(e.v) <= limit && |members| > 1 {
      var rest, z := members[1..], y + 1 + |GapsText(members[1].before)|;
      var data' := Insert(data, StringValue(e.key), Value(m, e.v));
      NextMember(s, m, c, y, members, end);
      MembersRead(s, m, limit, c.(i := z + 1), depth, data', rest, end);
    }
  }

  lemma RestText(members: seq<Member>)
    requires members != []
    ensures MembersRest(members)[|MembersRest(members)| - 1] == RBRACE
    ensures Chop(MembersRest(members))
            == (GapsText(members[0].start) + Print(members[0].v)) + (GapsText(members[0].after) + MembersOpen(members))
    ensures |members| == 1 ==> MembersOpen(members) == []
  {
    hide Print, GapsText, ToksText, MembersText, MembersRest, MembersTail, MembersOpen, Chop;
    MembersChop(members);
  }

  lemma MembersOpenText(members: seq<Member>)
    requires |members| > 1
    ensures MembersOpen(members) == [COMMA] + (GapsText(members[1].before) + Chop(MembersText(members[1..])))
    ensures |MembersOpen(members)| == |GapsText(members[1].before)| + |MembersText(members[1..])|
    ensures MembersText(members[1..])[|MembersText(members[1..])| - 1] == RBRACE
    ensures Chop(MembersText(members[1..])) != [] && Chop(MembersText(members[1..]))[0] == QUOTE
  {
    hide Print, GapsText, ToksText, MembersText, MembersRest, MembersTail, MembersOpen, Chop;
    MembersChop(members);
    MembersChop(members[1..]);
  }

  lemma MemberValuesSplit(m: Mode, data: seq<Field>, members: seq<Member>)
    requires members != [] && ValidMembers(m, members)
    ensures var e := members[0];
            && ValidGaps(m, e.start) && ValidTree(m, e.v) && ValidGaps(m, e.after) && ValidToks(e.key)
            && ValidMembers(m, members[1..])
            && (|members| == 1 ==> MembersHeight(members) == Height(e.v))
            && MemberValues(m, members, data)
               == (if |members| == 1 then Insert(data, StringValue(e.key), Value(m, e.v))
                   else MemberValues(m, members[1..], Insert(data, StringValue(e.key), Value(m, e.v))))
    ensures MembersHeight(members) == Max(Height(members[0].v), MembersHeight(members[1..]))
  {
    hide Value, StringValue, ValidTree, ValidGaps, ValidToks, Insert;
  }

  /** From the comma behind a member to the quote that opens the next one. */
  lemma NextMember(s: bytes, m: Mode, c: Cursor, y: nat, members: seq<Member>, end: Cursor)
    requires |members| > 1 && ValidMembers(m, members) && Match(s, y, MembersOpen(members))
    requires y + |MembersOpen(members)| < |s|
    requires NextToken(s, m, c.(i := y + |MembersOpen(members)|)) == (RBRACE, end)
    ensures ValidMembers(m, members[1..])
    ensures var z := y + 1 + |GapsText(members[1].before)|;
            && z < |s| && NextToken(s, m, c.(i := y + 1)) == (QUOTE, c.(i := z + 1))
            && OpenAt(s, m, c, z, MembersText(members[1..]), end)
  {
    hide Match, NextToken, Print, MembersText, MembersRest, MembersTail, MembersOpen, Chop, GapsText, ToksText;
    hide ValidGaps, ValidTree, ValidToks;
    var rest, gs := members[1..], members[1].before;
    MembersOpenText(members);
    MatchSplit(s, y, [COMMA], GapsText(gs) + Chop(MembersText(rest)));
    QuoteStarts(m);
    NextAfterGaps(s, m, c.(i := y + 1), gs, Chop(MembersText(rest)));
  }

  lemma QuoteStarts(m: Mode)
    ensures TokenStart(m, QUOTE)
  {
  }

  lemma MembersOpenStarts(members: seq<Member>)
    requires members != []
    ensures if |members| == 1 then MembersOpen(members) == []
            else MembersOpen(members) != [] && MembersOpen(members)[0] == COMMA
  {
    hide GapsText, MembersText;
    MembersTailStarts(members);
  }

  /** After a member's value comes a comma or the closing brace, and no number runs on. */
  lemma MemberEnds(s: bytes, m: Mode, c: Cursor, members: seq<Member>)
    requires members != [] && ValidMembers(m, members)
    requires var y := c.i + |GapsText(members[0].after)|;
             && Match(s, c.i, GapsText(members[0].after)) && Match(s, y, MembersOpen(members)) && y < |s|
             && (|members| == 1 ==> NextToken(s, m, c.(i := y)).0 == RBRACE)
    ensures EndsNumber(At(s, c.i))
    ensures var y := c.i + |GapsText(members[0].after)|;
            NextToken(s, m, c) == if |members| == 1 then NextToken(s, m, c.(i := y)) else (COMMA, c.(i := y + 1))
  {
    hide Match, NextToken, GapsText, ValidGaps, ValidTree, ValidToks, Print, EndsNumber, MembersOpen;
    var gs := members[0].after;
    MembersOpenStarts(members);
    if |members| == 1 {
      NextPastGaps(s, m, c, gs);
      NextEndsNumber(s, m, c);
    } else {
      MatchSplit(s, c.i, GapsText(gs), MembersOpen(members));
      CommaEnds(m);
      NextAfterGaps(s, m, c, gs, MembersOpen(members));
      GapEndsNumber(s, m, c.i, gs, MembersOpen(members));
    }
  }

  lemma MembersTailStarts(members: seq<Member>)
    requires members != []
    ensures MembersTail(members) != [] && EndsNumber(MembersTail(members)[0])
    ensures MembersTail(members) == if |members| == 1 then [RBRACE]
                                    else [COMMA] + (GapsText(members[1].before) + MembersText(members[1..]))
    ensures forall m :: TokenStart(m, MembersTail(members)[0])
  {
    hide MembersText, GapsText;
  }
}
