/**
 What a failed parse returns in STANDARD mode. json11.hpp promises Json(), and the promise is kept but
 for one family of texts. COMMENTS mode does the same on texts without a slash.
 */
module JsonFailure {
  import opened Bytes
  import opened JsonValue
  import opened JsonCursor
  import opened JsonGaps
  import opened JsonStrings
  import opened JsonNumbers
  import opened JsonParse

  /** get_next_token in STANDARD mode fails only at the end of the text, returning 0. */
  lemma StandardNext(s: bytes, c: Cursor)
    requires c.i <= |s| && !c.failed
    ensures var i := SkipWs(s, c.i);
            NextToken(s, Standard, c) == if i == |s| then (0, Cursor(i, true, InputEnd)) else (s[i], c.(i := i + 1))
  {
  }

  lemma {:induction false} FailedMembersAreNull(s: bytes, limit: nat, ch: byte, c: Cursor, depth: nat, data: seq<Field>)
    requires c.i <= |s| && depth <= limit && (c.failed ==> ch == 0)
    requires ParseMembers(s, Standard, limit, ch, c, depth, data).1.failed
    ensures ParseMembers(s, Standard, limit, ch, c, depth, data).0 == Null
    decreases Left(limit, depth), |s| - c.i, 1
  {
    hide NextToken, ParseString, AfterColon;
    if ch == QUOTE {
      var (key, c1) := ParseString(s, c);
      if !c1.failed {
        var (colon, c2) := NextToken(s, Standard, c1);
        StandardNext(s, c1);
        if colon == COLON {
          FailedAfterColonIsNull(s, limit, key, c2, depth, data);
        }
      }
    }
  }

  lemma {:induction false} FailedAfterColonIsNull(s: bytes, limit: nat, key: bytes, c: Cursor, depth: nat,
                                                  data: seq<Field>)
    requires c.i <= |s| && depth <= limit && AfterColon(s, Standard, limit, key, c, depth, data).1.failed
    ensures AfterColon(s, Standard, limit, key, c, depth, data).0 == Null
    decreases Left(limit, depth), |s| - c.i, 0
  {
    hide NextToken, ParseJson, ParseMembers;
    var (v, c1) := ParseJson(s, Standard, limit, c, depth + 1);
    if !c1.failed {
      var (next, c2) := NextToken(s, Standard, c1);
      StandardNext(s, c1);
      if next == COMMA {
        StandardNext(s, c2);
        var (open, c3) := NextToken(s, Standard, c2);
        FailedMembersAreNull(s, limit, open, c3, depth, Insert(data, key, v));
      }
    }
  }

  lemma {:induction false} FailedElemsAreNull(s: bytes, limit: nat, c: Cursor, depth: nat, data: seq<Json>)
    requires 0 < c.i <= |s| && depth <= limit && ParseElems(s, Standard, limit, c, depth, data).1.failed
    ensures ParseElems(s, Standard, limit, c, depth, data).0 == Null
    decreases Left(limit, depth), |s| - c.i
  {
    hide NextToken, ParseJson;
    var (v, c1) := ParseJson(s, Standard, limit, c.(i := c.i - 1), depth + 1);
    if !c1.failed {
      var (next, c2) := NextToken(s, Standard, c1);
      StandardNext(s, c1);
      if next == COMMA {
        FailedElemsAreNull(s, limit, NextToken(s, Standard, c2).1, depth, data + [v]);
      }
    }
  }

  /** No partly built array or object leaves a failed parse_json: only null, or "" where a string was malformed. */
  lemma FailedValue(s: bytes, limit: nat, c: Cursor, depth: nat)
    requires c.i <= |s| && !c.failed && ParseJson(s, Standard, limit, c, depth).1.failed
    ensures var i := SkipWs(s, c.i);
            ParseJson(s, Standard, limit, c, depth).0
            == if depth <= limit && i < |s| && s[i] == QUOTE then String([]) else Null
    ensures var i := SkipWs(s, c.i);
            depth <= limit && i < |s| && s[i] == QUOTE ==>
              Tokenise(s, i + 1).Bad? && ParseJson(s, Standard, limit, c, depth).1.i == Tokenise(s, i + 1).at
  {
    hide NextToken, ParseMembers, ParseElems, ParseNumber, ParseString, Tokenise;
    StandardNext(s, c);
    var (ch, d) := NextToken(s, Standard, c);
    if depth <= limit && !d.failed {
      if ch == QUOTE {
        StringParsed(s, d);
      } else if ch == LBRACE {
        StandardNext(s, d);
        var (first, e) := NextToken(s, Standard, d);
        if first != RBRACE {
          FailedMembersAreNull(s, limit, first, e, depth, []);
        }
      } else if ch == LBRACKET {
        StandardNext(s, d);
        var (first, e) := NextToken(s, Standard, d);
        if first != RBRACKET {
          FailedElemsAreNull(s, limit, e, depth, []);
        }
      }
    }
  }

  /** The text is one malformed string, and the scan stopped where only whitespace is left. */
  predicate StringRunsOut(s: bytes) {
    var i := SkipWs(s, 0);
    && i < |s| && s[i] == QUOTE && Tokenise(s, i + 1).Bad?
    && SkipWs(s, Tokenise(s, i + 1).at) == |s|
  }

  /** In STANDARD mode a failed Json::parse returns Json(), except that a root string that runs out gives "". */
  lemma FailedParse(s: bytes, err0: Error)
    requires Parse(s, Standard, err0).1.failed
    ensures Parse(s, Standard, err0).0 == if StringRunsOut(s) then String([]) else Null
  {
    hide ParseJson, Tokenise, SkipWs;
    var c := Cursor(0, false, err0);
    var (v, d) := ParseJson(s, Standard, MAX_DEPTH, c, 0);
    RunsOutFails(s, MAX_DEPTH, c, 0);
    if d.failed {
      FailedValue(s, MAX_DEPTH, c, 0);
    }
  }

  lemma RunsOutFails(s: bytes, limit: nat, c: Cursor, depth: nat)
    requires c.i <= |s| && !c.failed && depth <= limit
    ensures var i := SkipWs(s, c.i);
            i < |s| && s[i] == QUOTE && Tokenise(s, i + 1).Bad? ==> ParseJson(s, Standard, limit, c, depth).1.failed
  {
    hide NextToken, ParseMembers, ParseElems, ParseNumber, ParseString, Tokenise, SkipWs;
    StandardNext(s, c);
    var i := SkipWs(s, c.i);
    if i < |s| && s[i] == QUOTE {
      StringParsed(s, c.(i := i + 1));
    }
  }

  /** So the promise holds exactly when no malformed root string runs out. */
  lemma StandardContract(s: bytes, err0: Error)
    ensures (Parse(s, Standard, err0).1.failed ==> Parse(s, Standard, err0).0 == Null) <==> !StringRunsOut(s)
  {
    hide ParseJson, Tokenise, SkipWs;
    RunsOutFails(s, MAX_DEPTH, Cursor(0, false, err0), 0);
    if Parse(s, Standard, err0).1.failed {
      FailedParse(s, err0);
    }
  }

  // ---- COMMENTS mode on texts without a slash ----

  /** Without a slash there is no comment to skip, so the two modes read every token alike. */
  lemma SameNext(s: bytes, c: Cursor)
    requires c.i <= |s| && SLASH !in s
    ensures Garbage(s, Comments, c) == Garbage(s, Standard, c) && NextToken(s, Comments, c) == NextToken(s, Standard, c)
  {
    var c1 := c.(i := SkipWs(s, c.i));
    assert At(s, c1.i) != SLASH;
    assert CommentLoop(s, c1) == c1;
  }

  lemma {:induction false} SameJson(s: bytes, limit: nat, c: Cursor, depth: nat)
    requires c.i <= |s| && SLASH !in s
    ensures ParseJson(s, Comments, limit, c, depth) == ParseJson(s, Standard, limit, c, depth)
    decreases Left(limit, depth), |s| - c.i, 3
  {
    hide NextToken, ParseValue;
    if depth <= limit {
      SameNext(s, c);
      var (ch, d) := NextToken(s, Standard, c);
      if !d.failed {
        SameValue(s, limit, ch, d, depth);
      }
    }
  }

  lemma {:induction false} SameValue(s: bytes, limit: nat, ch: byte, c: Cursor, depth: nat)
    requires 0 < c.i <= |s| && !c.failed && depth <= limit && SLASH !in s
    ensures ParseValue(s, Comments, limit, ch, c, depth) == ParseValue(s, Standard, limit, ch, c, depth)
    decreases Left(limit, depth), |s| - c.i, 2
  {
    hide NextToken, ParseMembers, ParseElems, ParseNumber, ParseString, Expect;
    SameNext(s, c);
    var (first, d) := NextToken(s, Standard, c);
    if ch == LBRACE && first != RBRACE {
      SameMembers(s, limit, first, d, depth, []);
    }
    if ch == LBRACKET && first != RBRACKET {
      SameElems(s, limit, d, depth, []);
    }
  }

  lemma {:induction false} SameMembers(s: bytes, limit: nat, ch: byte, c: Cursor, depth: nat, data: seq<Field>)
    requires c.i <= |s| && depth <= limit && SLASH !in s
    ensures ParseMembers(s, Comments, limit, ch, c, depth, data) == ParseMembers(s, Standard, limit, ch, c, depth, data)
    decreases Left(limit, depth), |s| - c.i, 1
  {
    hide NextToken, ParseString, AfterColon;
    if ch == QUOTE {
      var (key, c1) := ParseString(s, c);
      if !c1.failed {
        SameNext(s, c1);
        var (colon, c2) := NextToken(s, Standard, c1);
        if colon == COLON {
          SameAfterColon(s, limit, key, c2, depth, data);
        }
      }
    }
  }

  lemma {:induction false} SameAfterColon(s: bytes, limit: nat, key: bytes, c: Cursor, depth: nat, data: seq<Field>)
    requires c.i <= |s| && depth <= limit && SLASH !in s
    ensures AfterColon(s, Comments, limit, key, c, depth, data) == AfterColon(s, Standard, limit, key, c, depth, data)
    decreases Left(limit, depth), |s| - c.i, 0
  {
    hide NextToken, ParseJson, ParseMembers;
    SameJson(s, limit, c, depth + 1);
    var (v, c1) := ParseJson(s, Standard, limit, c, depth + 1);
    if !c1.failed {
      SameNext(s, c1);
      var (next, c2) := NextToken(s, Standard, c1);
      if next == COMMA {
        SameNext(s, c2);
        var (open, c3) := NextToken(s, Standard, c2);
        SameMembers(s, limit, open, c3, depth, Insert(data, key, v));
      }
    }
  }

  lemma {:induction false} SameElems(s: bytes, limit: nat, c: Cursor, depth: nat, data: seq<Json>)
    requires 0 < c.i <= |s| && depth <= limit && SLASH !in s
    ensures ParseElems(s, Comments, limit, c, depth, data) == ParseElems(s, Standard, limit, c, depth, data)
    decreases Left(limit, depth), |s| - c.i, 0
  {
    hide NextToken, ParseJson;
    SameJson(s, limit, c.(i := c.i - 1), depth + 1);
    var (v, c1) := ParseJson(s, Standard, limit, c.(i := c.i - 1), depth + 1);
    if !c1.failed {
      SameNext(s, c1);
      var (next, c2) := NextToken(s, Standard, c1);
      if next == COMMA {
        SameNext(s, c2);
        SameElems(s, limit, NextToken(s, Standard, c2).1, depth, data + [v]);
      }
    }
  }

  /** The two modes differ on texts with a slash only. */
  lemma ModesAgree(s: bytes, err0: Error)
    requires SLASH !in s
    ensures Parse(s, Comments, err0) == Parse(s, Standard, err0)
  {
    hide ParseJson, Garbage;
    SameJson(s, MAX_DEPTH, Cursor(0, false, err0), 0);
    SameNext(s, ParseJson(s, Standard, MAX_DEPTH, Cursor(0, false, err0), 0).1);
  }

  /** In COMMENTS mode even an unfinished array can leave a failed parse: [/] returns an empty array. */
  lemma CommentsLeakArray(err0: Error)
    ensures Parse([LBRACKET, SLASH, RBRACKET], Comments, err0) == (Array([]), Cursor(3, true, CommentMalformed))
  {
    var s: bytes := [LBRACKET, SLASH, RBRACKET];
    var c := Cursor(0, false, err0);
    assert NextToken(s, Comments, c) == (LBRACKET, Cursor(1, false, err0));
    assert SkipWs(s, 1) == 1 && SkipWs(s, 2) == 2 && SkipWs(s, 3) == 3;
    assert Comment(s, Cursor(1, false, err0)) == (false, Cursor(2, true, CommentMalformed));
    var d := Cursor(3, true, CommentMalformed);
    assert NextToken(s, Comments, Cursor(1, false, err0)) == (RBRACKET, d);
    assert ParseValue(s, Comments, MAX_DEPTH, LBRACKET, Cursor(1, false, err0), 0) == (Array([]), d);
    assert ParseJson(s, Comments, MAX_DEPTH, c, 0) == (Array([]), d);
    assert Comment(s, d) == (false, d);
    assert Garbage(s, Comments, d) == d;
  }
}
