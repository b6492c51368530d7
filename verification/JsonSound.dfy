/** Everything the parser accepts is a text of the grammar, read to its value. */
module JsonSound {
  import opened Bytes
  import opened JsonValue
  import opened JsonCursor
  import opened JsonGaps
  import opened JsonStrings
  import opened JsonNumbers
  import opened JsonParse
  import opened JsonGrammar
  import opened JsonAccept

  /** The gaps get_next_token has skipped. */
  lemma NextFound(s: bytes, m: Mode, c: Cursor) returns (gs: seq<Gap>)
    requires c.i <= |s| && !NextToken(s, m, c).1.failed
    ensures ValidGaps(m, gs)
    ensures var e := c.i + |GapsText(gs)|;
            && e < |s| && NextToken(s, m, c) == (s[e], c.(i := e + 1)) && !c.failed
            && Match(s, c.i, GapsText(gs)) && Match(s, e, [s[e]])
            && TokenStart(m, s[e])
  {
    hide Garbage, ValidGaps, GapsText;
    gs := AcceptedGarbage(s, m, c);
    var e := Garbage(s, m, c).i;
    MatchSelf(s, c.i, e);
    MatchOne(s, e, s[e]);
  }

  lemma GapsStart(m: Mode, gs: seq<Gap>)
    requires ValidGaps(m, gs) && gs != []
    ensures GapsText(gs) != [] && !TokenStart(m, GapsText(gs)[0])
  {
    assert GapsText(gs)[0] == GapText(gs[0])[0];
  }

  /** No gap begins with a character that starts a token. */
  lemma NoGapHere(s: bytes, m: Mode, i: nat, gs: seq<Gap>)
    requires ValidGaps(m, gs) && Match(s, i, GapsText(gs)) && i < |s| && TokenStart(m, s[i])
    ensures gs == []
  {
    hide Match, GapsText, ValidGaps, TokenStart;
    if gs != [] {
      GapsStart(m, gs);
      MatchAt(s, i, GapsText(gs), 0);
    }
  }

  lemma WordFound(s: bytes, c: Cursor, word: bytes, v: Json)
    requires 0 < c.i <= |s| && word != [] && !Expect(s, c, word, v).1.failed
    ensures Match(s, c.i - 1, word) && Expect(s, c, word, v) == (v, c.(i := c.i - 1 + |word|))
  {
  }

  lemma StringFound(s: bytes, c: Cursor) returns (toks: seq<Tok>)
    requires c.i <= |s| && !ParseString(s, c).1.failed
    ensures ValidToks(toks) && Match(s, c.i, ToksText(toks) + [QUOTE])
    ensures ParseString(s, c) == (StringValue(toks), c.(i := c.i + |ToksText(toks) + [QUOTE]|))
  {
    hide Match, ParseString, ToksText, StringValue, Tokenise;
    StringParsed(s, c);
    toks := Tokenise(s, c.i).toks;
  }

  /** What it means for a parse to have read exactly the text t and produced v. */
  predicate ReadAs(s: bytes, c: Cursor, i: nat, t: bytes, r: (Json, Cursor), v: Json) {
    Match(s, i, t) && r == (v, c.(i := i + |t|))
  }

  /** The parse did not give up: it succeeded, or failed and has a value to return all the same. */
  predicate Produced(r: (Json, Cursor)) {
    !r.1.failed || r.0 != Null
  }

  /** The parse produced v from the container text t: all of it was read, or its closing bracket left a failed state. */
  predicate ReadTo(s: bytes, m: Mode, c: Cursor, i: nat, t: bytes, r: (Json, Cursor), v: Json)
    requires t != []
  {
    if r.1.failed then r.0 == v && OpenAt(s, m, c, i, t, r.1) else ReadAs(s, c, i, t, r, v)
  }

  /** A text in front of one that was read so. */
  lemma ReadToAfter(s: bytes, m: Mode, c: Cursor, i: nat, a: bytes, t: bytes, r: (Json, Cursor), v: Json)
    requires t != [] && Match(s, i, a) && ReadTo(s, m, c, i + |a|, t, r, v)
    ensures a + t != [] && ReadTo(s, m, c, i, a + t, r, v)
  {
    hide Match, NextToken, Chop;
    ChopJoin(a, t);
    MatchSplit(s, i, a, t);
    MatchSplit(s, i, a, Chop(t));
  }

  lemma {:induction false} TreeFound(s: bytes, m: Mode, limit: nat, c: Cursor, depth: nat) returns (gs: seq<Gap>,
                                     t: Tree)
    requires c.i <= |s| && !ParseJson(s, m, limit, c, depth).1.failed
    ensures ValidGaps(m, gs) && ValidTree(m, t) && depth + Height(t) <= limit
    ensures ReadAs(s, c, c.i, GapsText(gs) + Print(t), ParseJson(s, m, limit, c, depth), Value(m, t))
    ensures c.i < |s| && TokenStart(m, s[c.i]) ==> gs == []
    decreases Left(limit, depth), |s| - c.i, 2
  {
    hide Match, NextToken, ParseValue, Print, GapsText, Value, ValidTree, ValidGaps, Height, TokenStart;
    gs := NextFound(s, m, c);
    if c.i < |s| && TokenStart(m, s[c.i]) {
      NoGapHere(s, m, c.i, gs);
    }
    var e := c.i + |GapsText(gs)|;
    t := ValueFound(s, m, limit, c.(i := e + 1), depth);
    MatchSplit(s, c.i, GapsText(gs), Print(t));
  }

  lemma {:induction false} ValueFound(s: bytes, m: Mode, limit: nat, c: Cursor, depth: nat) returns (t: Tree)
    requires 0 < c.i <= |s| && !c.failed && depth <= limit
    requires !ParseValue(s, m, limit, s[c.i - 1], c, depth).1.failed
    ensures ValidTree(m, t) && depth + Height(t) <= limit
    ensures ReadAs(s, c, c.i - 1, Print(t), ParseValue(s, m, limit, s[c.i - 1], c, depth), Value(m, t))
    decreases Left(limit, depth), |s| - c.i, 1
  {
    hide Match, NextToken, ParseElems, ParseMembers, ParseNumber, ParseString, Expect, TokenNumber, StringValue;
    hide ToksText;
    hide ElemsText, MembersText, ElemValues, MemberValues, GapsText, ValidNum, ValidToks, ValidElems, ValidMembers;
    hide ValidGaps, NumText;
    var ch, i := s[c.i - 1], c.i - 1;
    MatchOne(s, i, ch);
    if ch == MINUS || IsDigit(ch) {
      var n := NumberWritten(s, c.(i := i));
      t := Num(n);
    } else if ch == TRUE_TEXT[0] {
      WordFound(s, c, TRUE_TEXT, Bool(true));
      t := True;
    } else if ch == FALSE_TEXT[0] {
      WordFound(s, c, FALSE_TEXT, Bool(false));
      t := False;
    } else if ch == NULL_TEXT[0] {
      WordFound(s, c, NULL_TEXT, Null);
      t := Nul;
    } else if ch == QUOTE {
      var toks := StringFound(s, c);
      MatchSplit(s, i, [QUOTE], ToksText(toks) + [QUOTE]);
      t := Str(toks);
    } else if ch == LBRACE {
      t := ObjectFound(s, m, limit, c, depth);
    } else {
      t := ArrayFound(s, m, limit, c, depth);
    }
  }

  lemma {:induction false} ArrayFound(s: bytes, m: Mode, limit: nat, c: Cursor, depth: nat) returns (t: Tree)
    requires 0 < c.i <= |s| && !c.failed && depth <= limit && s[c.i - 1] == LBRACKET
    requires Produced(ParseValue(s, m, limit, LBRACKET, c, depth))
    ensures ValidTree(m, t) && depth + Height(t) <= limit && Print(t) != [] && IsContainer(t)
    ensures ReadTo(s, m, c, c.i - 1, Print(t), ParseValue(s, m, limit, LBRACKET, c, depth), Value(m, t))
    decreases Left(limit, depth), |s| - c.i, 0
  {
    hide Match, NextToken, ParseElems, ParseMembers, ElemsText, MembersText, ElemValues, MemberValues, GapsText;
    hide ValidElems, ValidMembers, ValidGaps, ReadTo;
    var i := c.i - 1;
    MatchOne(s, i, LBRACKET);
    ArrayLoopProduces(s, m, limit, c, depth);
    var r := ParseValue(s, m, limit, LBRACKET, c, depth);
    var (first, d) := NextToken(s, m, c);
    if d.failed {
      t := EmptyArr([]);
      OpenBracket(s, m, c, RBRACKET, r, Array([]));
      NoGaps(m, [RBRACKET]);
      ReadToAfter(s, m, c, i, [LBRACKET], [RBRACKET], r, Array([]));
    } else {
      var gs := NextFound(s, m, c);
      if first == RBRACKET {
        t := EmptyArr(gs);
        ClosedBracket(s, m, c, c.i + |GapsText(gs)|, RBRACKET, r, Array([]));
        ReadToAfter(s, m, c, c.i, GapsText(gs), [RBRACKET], r, Array([]));
        ReadToAfter(s, m, c, i, [LBRACKET], GapsText(gs) + [RBRACKET], r, Array([]));
      } else {
        var elems := ElemsFound(s, m, limit, d, depth, [], gs);
        t := Arr(elems);
        assert [] + ElemValues(m, elems) == ElemValues(m, elems);
        StateOnly(s, m, d, c, c.i + |GapsText(gs)|, ElemsText(elems), r, Value(m, t));
        ReadToAfter(s, m, c, c.i, GapsText(gs), ElemsText(elems), r, Value(m, t));
        ReadToAfter(s, m, c, i, [LBRACKET], GapsText(gs) + ElemsText(elems), r, Value(m, t));
      }
    }
  }

  /** The state a text is read from matters but for its position, which is given apart. */
  lemma StateOnly(s: bytes, m: Mode, c: Cursor, d: Cursor, i: nat, t: bytes, r: (Json, Cursor), v: Json)
    requires t != [] && d == c.(i := d.i) && ReadTo(s, m, c, i, t, r, v)
    ensures ReadTo(s, m, d, i, t, r, v) && r.0 == v
  {
    hide Match, NextToken;
  }

  lemma OpenBracket(s: bytes, m: Mode, c: Cursor, b: byte, r: (Json, Cursor), v: Json)
    requires c.i < |s| && r == (v, NextToken(s, m, c).1) && r.1.failed && NextToken(s, m, c).0 == b
    ensures ReadTo(s, m, c, c.i, [b], r, v)
  {
    hide NextToken;
    assert Chop([b]) == [];
  }

  lemma ClosedBracket(s: bytes, m: Mode, c: Cursor, i: nat, b: byte, r: (Json, Cursor), v: Json)
    requires i < |s| && s[i] == b && r == (v, c.(i := i + 1)) && !c.failed
    ensures ReadTo(s, m, c, i, [b], r, v)
  {
  }

  /** An array that produced a value did so at its first token, or in a loop entered without failure. */
  lemma ArrayLoopProduces(s: bytes, m: Mode, limit: nat, c: Cursor, depth: nat)
    requires 0 < c.i <= |s| && depth <= limit && !c.failed
    requires Produced(ParseValue(s, m, limit, LBRACKET, c, depth))
    ensures var (first, d) := NextToken(s, m, c);
            && (first != RBRACKET ==> !d.failed && Produced(ParseElems(s, m, limit, d, depth, [])))
            && ParseValue(s, m, limit, LBRACKET, c, depth)
               == (if first == RBRACKET then (Array([]), d) else ParseElems(s, m, limit, d, depth, []))
            && c.i < |s|
  {
    hide NextToken, ParseJson;
  }

  lemma {:induction false} ElemsFound(s: bytes, m: Mode, limit: nat, c: Cursor, depth: nat, data: seq<Json>,
                                      before: seq<Gap>)
    returns (elems: seq<Elem>)
    requires 0 < c.i <= |s| && depth <= limit && Produced(ParseElems(s, m, limit, c, depth, data))
    requires ValidGaps(m, before) && TokenStart(m, s[c.i - 1])
    ensures elems != [] && elems[0].before == before && ValidElems(m, elems)
    ensures depth + 1 + ElemsHeight(elems) <= limit
    ensures ReadTo(s, m, c, c.i - 1, ElemsText(elems), ParseElems(s, m, limit, c, depth, data),
                   Array(data + ElemValues(m, elems)))
    decreases Left(limit, depth), |s| - c.i, 0
  {
    hide Match, NextToken, ParseJson, ParseElems, Print, ElemsText, ElemsTail, GapsText, Value, Height, ValidGaps;
    hide ValidTree, ElemValues, TokenStart, ReadTo;
    var i := c.i - 1;
    ElemsLoopProduces(s, m, limit, c, depth, data);
    var none, t := TreeFound(s, m, limit, c.(i := i), depth + 1);
    NoGaps(m, Print(t));
    var c1 := c.(i := i + |Print(t)|);
    var (next, c2) := NextToken(s, m, c1);
    var r, after: seq<Gap> := ParseElems(s, m, limit, c, depth, data), [];
    if c2.failed {
      elems := [Elem(before, t, after)];
      OpenBracket(s, m, c1, RBRACKET, r, r.0);
      NoGaps(m, [RBRACKET]);
    } else {
      after := NextFound(s, m, c1);
      var e := c1.i + |GapsText(after)|;
      if next == RBRACKET {
        elems := [Elem(before, t, after)];
        ClosedBracket(s, m, c1, e, RBRACKET, r, r.0);
      } else {
        var gap := NextFound(s, m, c2);
        var rest := ElemsFound(s, m, limit, NextToken(s, m, c2).1, depth, data + [Value(m, t)], gap);
        elems := [Elem(before, t, after)] + rest;
        assert elems[1..] == rest;
        StateOnly(s, m, NextToken(s, m, c2).1, c1, e + 1 + |GapsText(gap)|, ElemsText(rest), r,
                  Array(data + [Value(m, t)] + ElemValues(m, rest)));
        ReadToAfter(s, m, c1, e + 1, GapsText(gap), ElemsText(rest), r, r.0);
        ReadToAfter(s, m, c1, e, [COMMA], GapsText(gap) + ElemsText(rest), r, r.0);
      }
      ElemsTailStarts(elems);
      ReadToAfter(s, m, c1, c1.i, GapsText(after), ElemsTail(elems), r, r.0);
    }
    ElemValuesSplit(m, data, elems);
    ElemsJoined(elems);
    ReadToAfter(s, m, c1, i, Print(t), GapsText(after) + ElemsTail(elems), r, r.0);
    StateOnly(s, m, c1, c, i, ElemsText(elems), r, r.0);
  }

  lemma ElemsJoined(elems: seq<Elem>)
    requires elems != []
    ensures ElemsText(elems) == Print(elems[0].v) + (GapsText(elems[0].after) + ElemsTail(elems))
    ensures |elems| == 1 ==> ElemsTail(elems) == [RBRACKET]
  {
    hide Print, GapsText;
  }

  /** An array loop that produced a value did so at this bracket, or went on without failure. */
  lemma ElemsLoopProduces(s: bytes, m: Mode, limit: nat, c: Cursor, depth: nat, data: seq<Json>)
    requires 0 < c.i <= |s| && depth <= limit && Produced(ParseElems(s, m, limit, c, depth, data))
    ensures var (v, c1) := ParseJson(s, m, limit, c.(i := c.i - 1), depth + 1);
            var (next, c2) := NextToken(s, m, c1);
            var c3 := NextToken(s, m, c2).1;
            && !c1.failed && (next == RBRACKET ==> c1.i < |s|)
            && (next == RBRACKET ||
                (next == COMMA && !c2.failed && !c3.failed && Produced(ParseElems(s, m, limit, c3, depth, data + [v]))))
            && ParseElems(s, m, limit, c, depth, data)
               == if next == RBRACKET then (Array(data + [v]), c2) else ParseElems(s, m, limit, c3, depth, data + [v])
  {
    hide NextToken, ParseJson;
  }

  lemma {:induction false} ObjectFound(s: bytes, m: Mode, limit: nat, c: Cursor, depth: nat) returns (t: Tree)
    requires 0 < c.i <= |s| && !c.failed && depth <= limit && s[c.i - 1] == LBRACE
    requires Produced(ParseValue(s, m, limit, LBRACE, c, depth))
    ensures ValidTree(m, t) && depth + Height(t) <= limit && Print(t) != [] && IsContainer(t)
    ensures ReadTo(s, m, c, c.i - 1, Print(t), ParseValue(s, m, limit, LBRACE, c, depth), Value(m, t))
    decreases Left(limit, depth), |s| - c.i, 0
  {
    hide Match, NextToken, ParseElems, ParseMembers, ElemsText, MembersText, ElemValues, MemberValues, GapsText;
    hide ValidElems, ValidMembers, ValidGaps, ReadTo;
    var i := c.i - 1;
    MatchOne(s, i, LBRACE);
    ObjectLoopProduces(s, m, limit, c, depth);
    var r := ParseValue(s, m, limit, LBRACE, c, depth);
    var (first, d) := NextToken(s, m, c);
    if d.failed {
      t := EmptyObj([]);
      OpenBracket(s, m, c, RBRACE, r, Object([]));
      NoGaps(m, [RBRACE]);
      ReadToAfter(s, m, c, i, [LBRACE], [RBRACE], r, Object([]));
    } else {
      var gs := NextFound(s, m, c);
      if first == RBRACE {
        t := EmptyObj(gs);
        ClosedBracket(s, m, c, c.i + |GapsText(gs)|, RBRACE, r, Object([]));
        ReadToAfter(s, m, c, c.i, GapsText(gs), [RBRACE], r, Object([]));
        ReadToAfter(s, m, c, i, [LBRACE], GapsText(gs) + [RBRACE], r, Object([]));
      } else {
        var members := MembersFound(s, m, limit, d, depth, [], gs);
        t := Obj(members);
        StateOnly(s, m, d, c, c.i + |GapsText(gs)|, MembersText(members), r, Value(m, t));
        ReadToAfter(s, m, c, c.i, GapsText(gs), MembersText(members), r, Value(m, t));
        ReadToAfter(s, m, c, i, [LBRACE], GapsText(gs) + MembersText(members), r, Value(m, t));
      }
    }
  }

  /** An object that produced a value did so at its first token, or in a loop entered without failure. */
  lemma ObjectLoopProduces(s: bytes, m: Mode, limit: nat, c: Cursor, depth: nat)
    requires 0 < c.i <= |s| && depth <= limit && !c.failed
    requires Produced(ParseValue(s, m, limit, LBRACE, c, depth))
    ensures var (first, d) := NextToken(s, m, c);
            && (first != RBRACE ==>
                  first == QUOTE && !d.failed && Produced(ParseMembers(s, m, limit, first, d, depth, [])))
            && ParseValue(s, m, limit, LBRACE, c, depth)
               == (if first == RBRACE then (Object([]), d) else ParseMembers(s, m, limit, first, d, depth, []))
            && c.i < |s|
  {
    hide NextToken, AfterColon, ParseString;
  }

  lemma {:induction false} MembersFound(s: bytes, m: Mode, limit: nat, c: Cursor, depth: nat, data: seq<Field>,
                                        before: seq<Gap>)
    returns (members: seq<Member>)
    requires 0 < c.i <= |s| && depth <= limit && s[c.i - 1] == QUOTE
    requires Produced(ParseMembers(s, m, limit, QUOTE, c, depth, data))
    requires ValidGaps(m, before)
    ensures members != [] && members[0].before == before && ValidMembers(m, members)
    ensures depth + 1 + MembersHeight(members) <= limit
    ensures ReadTo(s, m, c, c.i - 1, MembersText(members), ParseMembers(s, m, limit, QUOTE, c, depth, data),
                   Object(MemberValues(m, members, data)))
    decreases Left(limit, depth), |s| - c.i, 1
  {
    hide Match, NextToken, ParseString, AfterColon, Print, MembersRest, GapsText, ToksText, Value, Height, ValidGaps;
    hide ValidToks, StringValue, MemberValues, ValidMembers, MembersHeight, ReadTo;
    MatchOne(s, c.i - 1, QUOTE);
    KeyProduces(s, m, limit, c, depth, data);
    var r := ParseMembers(s, m, limit, QUOTE, c, depth, data);
    var key := StringFound(s, c);
    var j := c.i + |ToksText(key) + [QUOTE]|;
    var colon := NextFound(s, m, c.(i := j));
    var k := j + |GapsText(colon)|;
    members := MemberValueFound(s, m, limit, c.(i := k + 1), depth, data, before, key, colon);
    StateOnly(s, m, c.(i := k + 1), c, k + 1, MembersRest(members), r, Object(MemberValues(m, members, data)));
    ReadToAfter(s, m, c, k, [COLON], MembersRest(members), r, r.0);
    ReadToAfter(s, m, c, j, GapsText(colon), [COLON] + MembersRest(members), r, r.0);
    ReadToAfter(s, m, c, c.i, ToksText(key) + [QUOTE], GapsText(colon) + ([COLON] + MembersRest(members)), r, r.0);
    ReadToAfter(s, m, c, c.i - 1, [QUOTE],
                (ToksText(key) + [QUOTE]) + (GapsText(colon) + ([COLON] + MembersRest(members))), r, r.0);
  }

  /** The key and colon of an object loop that produced a value were read without failure. */
  lemma KeyProduces(s: bytes, m: Mode, limit: nat, c: Cursor, depth: nat, data: seq<Field>)
    requires c.i <= |s| && depth <= limit && Produced(ParseMembers(s, m, limit, QUOTE, c, depth, data))
    ensures var (key, c1) := ParseString(s, c);
            var (colon, c2) := NextToken(s, m, c1);
            && !c1.failed && !c2.failed && colon == COLON
            && Produced(AfterColon(s, m, limit, key, c2, depth, data))
            && ParseMembers(s, m, limit, QUOTE, c, depth, data) == AfterColon(s, m, limit, key, c2, depth, data)
  {
    hide NextToken, ParseJson, ParseString;
  }

  lemma {:induction false} MemberValueFound(s: bytes, m: Mode, limit: nat, c: Cursor, depth: nat, data: seq<Field>,
                                            before: seq<Gap>, key: seq<Tok>, colon: seq<Gap>)
    returns (members: seq<Member>)
    requires c.i <= |s| && depth <= limit && ValidGaps(m, before) && ValidToks(key) && ValidGaps(m, colon)
    requires Produced(AfterColon(s, m, limit, StringValue(key), c, depth, data))
    ensures members != [] && ValidMembers(m, members) && depth + 1 + MembersHeight(members) <= limit
    ensures members[0].before == before && members[0].key == key && members[0].colon == colon
    ensures ReadTo(s, m, c, c.i, MembersRest(members), AfterColon(s, m, limit, StringValue(key), c, depth, data),
                   Object(MemberValues(m, members, data)))
    decreases Left(limit, depth), |s| - c.i, 0
  {
    hide Match, NextToken, ParseString, ParseJson, ParseMembers, AfterColon, Print, MembersText, MembersTail;
    hide MembersRest;
    hide GapsText, ToksText, Value, Height, ValidGaps, ValidToks, ValidTree, StringValue, Insert, ReadTo;
    MemberLoopProduces(s, m, limit, StringValue(key), c, depth, data);
    var start, t := TreeFound(s, m, limit, c, depth + 1);
    var text := GapsText(start) + Print(t);
    var c1 := c.(i := c.i + |text|);
    var (next, c2) := NextToken(s, m, c1);
    var r, after: seq<Gap> := AfterColon(s, m, limit, StringValue(key), c, depth, data), [];
    if c2.failed {
      members := [Member(before, key, colon, start, t, after)];
      OpenBracket(s, m, c1, RBRACE, r, r.0);
      NoGaps(m, [RBRACE]);
    } else {
      after := NextFound(s, m, c1);
      var e := c1.i + |GapsText(after)|;
      var first := Member(before, key, colon, start, t, after);
      if next == RBRACE {
        members := [first];
        ClosedBracket(s, m, c1, e, RBRACE, r, r.0);
      } else {
        var gap := NextFound(s, m, c2);
        var c3 := NextToken(s, m, c2).1;
        var data' := Insert(data, StringValue(key), Value(m, t));
        var rest := MembersFound(s, m, limit, c3, depth, data', gap);
        members := [first] + rest;
        assert members[1..] == rest;
        StateOnly(s, m, c3, c1, e + 1 + |GapsText(gap)|, MembersText(rest), r, Object(MemberValues(m, rest, data')));
        ReadToAfter(s, m, c1, e + 1, GapsText(gap), MembersText(rest), r, r.0);
        ReadToAfter(s, m, c1, e, [COMMA], GapsText(gap) + MembersText(rest), r, r.0);
      }
      MembersTailStarts(members);
      ReadToAfter(s, m, c1, c1.i, GapsText(after), MembersTail(members), r, r.0);
    }
    MembersJoined(members);
    ReadToAfter(s, m, c1, c.i, text, GapsText(after) + MembersTail(members), r, r.0);
    StateOnly(s, m, c1, c, c.i, MembersRest(members), r, r.0);
  }

  lemma MembersJoined(members: seq<Member>)
    requires members != []
    ensures MembersRest(members)
            == (GapsText(members[0].start) + Print(members[0].v)) + (GapsText(members[0].after) + MembersTail(members))
    ensures |members| == 1 ==> MembersTail(members) == [RBRACE]
  {
    hide Print, GapsText;
  }

  /** An object loop past the colon that produced a value did so at this brace, or went on without failure. */
  lemma MemberLoopProduces(s: bytes, m: Mode, limit: nat, key: bytes, c: Cursor, depth: nat, data: seq<Field>)
    requires c.i <= |s| && depth <= limit && Produced(AfterColon(s, m, limit, key, c, depth, data))
    ensures var (v, c1) := ParseJson(s, m, limit, c, depth + 1);
            var (next, c2) := NextToken(s, m, c1);
            var (open, c3) := NextToken(s, m, c2);
            var data' := Insert(data, key, v);
            && !c1.failed && (next == RBRACE ==> c1.i < |s|)
            && (next == RBRACE ||
                (next == COMMA && !c2.failed && !c3.failed && open == QUOTE
                 && Produced(ParseMembers(s, m, limit, open, c3, depth, data'))))
            && AfterColon(s, m, limit, key, c, depth, data)
               == if next == RBRACE then (Object(data'), c2) else ParseMembers(s, m, limit, open, c3, depth, data')
  {
    hide NextToken, ParseJson, ParseString;
  }
}
