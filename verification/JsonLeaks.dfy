/**
 What a failed Json::parse returns, in either mode and on every text: null, as json11.hpp promises, but
 for three families of texts, which are described here by their spelling alone.
 */
module JsonLeaks {
  import opened Bytes
  import opened JsonValue
  import opened JsonCursor
  import opened JsonGaps
  import opened JsonBroken
  import opened JsonStrings
  import opened JsonNumbers
  import opened JsonParse
  import opened JsonGrammar
  import opened JsonAccept
  import opened JsonSound

  /** A malformed string, and nothing but gaps where its scan stopped. */
  ghost predicate StringLeak(s: bytes, m: Mode, gs: seq<Gap>) {
    var i := |GapsText(gs)| + 1;
    && ValidGaps(m, gs) && Match(s, 0, GapsText(gs) + [QUOTE])
    && Tokenise(s, i).Bad? && RunsOut(s, m, Tokenise(s, i).at)
  }

  /** A complete text within the nesting limit, other than null, and behind it gaps that break off at the end. */
  ghost predicate TreeLeak(s: bytes, m: Mode, gs: seq<Gap>, t: Tree) {
    var p := GapsText(gs) + Print(t);
    && ValidGaps(m, gs) && ValidTree(m, t) && Height(t) <= MAX_DEPTH && !t.Nul?
    && Match(s, 0, p) && Broken(s, m, |p|, |s|)
  }

  /**
   An array or object within the nesting limit, complete but for its closing bracket, then gaps that break
   off and leave that bracket at j next, and nothing but gaps behind it.
   */
  ghost predicate ContainerLeak(s: bytes, m: Mode, gs: seq<Gap>, t: Tree, j: nat) {
    var p := GapsText(gs) + Print(t);
    && ValidGaps(m, gs) && ValidTree(m, t) && Height(t) <= MAX_DEPTH && IsContainer(t)
    && p != [] && Match(s, 0, Chop(p)) && Broken(s, m, |p| - 1, j)
    && j < |s| && s[j] == p[|p| - 1] && RunsOut(s, m, j + 1)
  }

  /** The text belongs to one of the families, with this value. */
  ghost predicate LeaksAs(s: bytes, m: Mode, v: Json) {
    || (v == String([]) && exists gs :: StringLeak(s, m, gs))
    || (exists gs, t :: TreeLeak(s, m, gs, t) && v == Value(m, t))
    || (exists gs, t, j :: ContainerLeak(s, m, gs, t, j) && v == Value(m, t))
  }

  ghost predicate Leaks(s: bytes, m: Mode) {
    || (exists gs :: StringLeak(s, m, gs))
    || (exists gs, t :: TreeLeak(s, m, gs, t))
    || (exists gs, t, j :: ContainerLeak(s, m, gs, t, j))
  }

  lemma OnlyNulIsNull(m: Mode, t: Tree)
    requires ValidTree(m, t)
    ensures Value(m, t) == Null <==> t.Nul?
  {
    hide StringValue, ElemValues, MemberValues, ValidElems, ValidMembers;
  }

  // ---- texts of the families leak ----

  lemma StringLeaks(s: bytes, m: Mode, err0: Error, gs: seq<Gap>)
    requires StringLeak(s, m, gs)
    ensures Parse(s, m, err0).1.failed && Parse(s, m, err0).0 == String([])
  {
    hide NextToken, ParseMembers, ParseElems, ParseNumber, ParseString, Tokenise, Garbage, GapsText, ValidGaps;
    hide Match, RunsOut;
    var c, i := Cursor(0, false, err0), |GapsText(gs)| + 1;
    QuoteStarts(m);
    NextAfterGaps(s, m, c, gs, [QUOTE]);
    StringParsed(s, c.(i := i));
    var d := Cursor(Tokenise(s, i).at, true, Tokenise(s, i).err);
    assert ParseJson(s, m, MAX_DEPTH, c, 0) == (String([]), d);
    RunsOutIff(s, m, d);
  }

  lemma TreeLeaks(s: bytes, m: Mode, err0: Error, gs: seq<Gap>, t: Tree)
    requires TreeLeak(s, m, gs, t)
    ensures Parse(s, m, err0).1.failed && Parse(s, m, err0).0 == Value(m, t)
  {
    hide ParseJson, Garbage, GapsText, ValidGaps, Match, Print, Value, ValidTree, Height, Ends, BreaksAfter;
    var c, p := Cursor(0, false, err0), GapsText(gs) + Print(t);
    var after :| BreaksAfter(s, m, |p|, after, |s|);
    BreakEndsNumber(s, m, |p|, after, |s|, t);
    TreeRead(s, m, MAX_DEPTH, c, 0, gs, t);
    BrokenIff(s, m, c.(i := |p|), |s|);
  }

  /** Neither gaps nor a comment that breaks off run on a number. */
  lemma BreakEndsNumber(s: bytes, m: Mode, i: nat, gs: seq<Gap>, j: nat, t: Tree)
    requires BreaksAfter(s, m, i, gs, j)
    ensures i <= |s| && Ends(t, At(s, i))
  {
    hide GapsText, ValidGaps, Match;
    if gs != [] {
      GapEnds(s, m, i, gs);
    } else {
      NoGaps(m, []);
    }
  }

  lemma ContainerLeaks(s: bytes, m: Mode, err0: Error, gs: seq<Gap>, t: Tree, j: nat)
    requires ContainerLeak(s, m, gs, t, j)
    ensures Parse(s, m, err0).1.failed && Parse(s, m, err0).0 == Value(m, t)
  {
    hide ParseJson, Garbage, GapsText, ValidGaps, Match, Print, Value, ValidTree, Height, RunsOut, Chop, NextToken;
    hide Broken;
    var c, p := Cursor(0, false, err0), GapsText(gs) + Print(t);
    var d := c.(i := |p| - 1);
    var end := NextToken(s, m, d).1;
    NextBroken(s, m, d, j);
    OpenJsonRead(s, m, MAX_DEPTH, c, gs, t, end);
    RunsOutIff(s, m, end);
  }

  /** get_next_token over gaps that break off returns the next character all the same. */
  lemma NextBroken(s: bytes, m: Mode, c: Cursor, j: nat)
    requires c.i <= |s| && !c.failed && j < |s| && Broken(s, m, c.i, j)
    ensures c.i <= j && NextToken(s, m, c).0 == s[j]
    ensures NextToken(s, m, c).1.failed && NextToken(s, m, c).1.i == j + 1
  {
    hide Garbage, Broken;
    BrokenIff(s, m, c, j);
  }

  /** parse_json on gaps and a container whose closing bracket leaves the state end. */
  lemma OpenJsonRead(s: bytes, m: Mode, limit: nat, c: Cursor, gs: seq<Gap>, t: Tree, end: Cursor)
    requires !c.failed && ValidGaps(m, gs) && ValidTree(m, t) && IsContainer(t) && Height(t) <= limit
    requires GapsText(gs) + Print(t) != [] && OpenAt(s, m, c, c.i, GapsText(gs) + Print(t), end)
    ensures ParseJson(s, m, limit, c, 0) == (Value(m, t), end)
  {
    hide Match, NextToken, ParseElems, ParseMembers, Print, GapsText, ValidGaps, ValidTree, Value, Chop, Height;
    hide ParseValue;
    var d := c.(i := c.i + |GapsText(gs)| + 1);
    ContainerBrackets(m, t);
    StartsToken(m, t);
    ChopJoin(GapsText(gs), Print(t));
    NextAfterGaps(s, m, c, gs, Chop(Print(t)));
    OpenValueRead(s, m, limit, d, t, end);
  }

  lemma ContainerBrackets(m: Mode, t: Tree)
    requires ValidTree(m, t) && IsContainer(t)
    ensures |Print(t)| > 1 && Chop(Print(t)) != [] && Chop(Print(t))[0] == Print(t)[0]
    ensures Print(t)[|Print(t)| - 1] == RBRACKET || Print(t)[|Print(t)| - 1] == RBRACE
  {
    hide ElemsText, MembersText, GapsText, ValidElems, ValidMembers, ValidGaps;
    match t {
      case Arr(elems) => ArrayChop(elems);
      case Obj(members) => ObjectChop(members);
      case _ =>
    }
  }

  lemma OpenValueRead(s: bytes, m: Mode, limit: nat, c: Cursor, t: Tree, end: Cursor)
    requires 0 < c.i && !c.failed && ValidTree(m, t) && IsContainer(t) && Height(t) <= limit
    requires Print(t) != [] && OpenAt(s, m, c, c.i - 1, Print(t), end)
    ensures ParseValue(s, m, limit, Print(t)[0], c, 0) == (Value(m, t), end)
  {
    hide Match, NextToken, ParseElems, ParseMembers, GapsText, ElemsText, MembersText, ValidGaps, ElemValues;
    hide MemberValues;
    var i := c.i - 1;
    match t {
      case Arr(elems) => ArrayRead(s, m, limit, c, 0, elems, end);
      case Obj(members) => ObjectRead(s, m, limit, c, 0, members, end);
      case EmptyArr(g) =>
        BracketsChop(LBRACKET, g, RBRACKET);
        MatchSplit(s, i, [LBRACKET], GapsText(g));
        NextPastGaps(s, m, c, g);
      case EmptyObj(g) =>
        BracketsChop(LBRACE, g, RBRACE);
        MatchSplit(s, i, [LBRACE], GapsText(g));
        NextPastGaps(s, m, c, g);
    }
  }

  lemma BracketsChop(open: byte, g: seq<Gap>, close: byte)
    ensures Chop([open] + (GapsText(g) + [close])) == [open] + GapsText(g)
  {
    hide GapsText;
  }

  // ---- and no others ----

  /** parse_json at the start of the text fails with a value only on a malformed string or a container broken off. */
  lemma RootProduces(s: bytes, m: Mode, err0: Error) returns (gs: seq<Gap>, t: Tree)
    requires var r := ParseJson(s, m, MAX_DEPTH, Cursor(0, false, err0), 0);
             r.1.failed && r.0 != Null
    ensures var r := ParseJson(s, m, MAX_DEPTH, Cursor(0, false, err0), 0);
            var e := |GapsText(gs)|;
            && ValidGaps(m, gs) && Match(s, 0, GapsText(gs))
            && if r.0.String? then
                 Match(s, 0, GapsText(gs) + [QUOTE]) && Tokenise(s, e + 1).Bad?
                 && r == (String([]), Cursor(Tokenise(s, e + 1).at, true, Tokenise(s, e + 1).err))
               else
                 && ValidTree(m, t) && Height(t) <= MAX_DEPTH && IsContainer(t) && Print(t) != []
                 && r.0 == Value(m, t) && OpenAt(s, m, Cursor(0, false, err0), e, Print(t), r.1)
  {
    hide NextToken, ParseMembers, ParseElems, ParseNumber, ParseString, Tokenise, GapsText, ValidGaps, Match, Height;
    hide ValidTree, Print, Value, Expect;
    var c := Cursor(0, false, err0);
    gs := NextFound(s, m, c);
    t := Nul;
    var (ch, d) := NextToken(s, m, c);
    if ch == QUOTE {
      StringParsed(s, d);
      MatchSplit(s, 0, GapsText(gs), [QUOTE]);
    } else if ch == LBRACKET {
      t := ArrayFound(s, m, MAX_DEPTH, d, 0);
    } else if ch == LBRACE {
      t := ObjectFound(s, m, MAX_DEPTH, d, 0);
    }
    if t != Nul {
      OpenStateOnly(s, m, d, c, |GapsText(gs)|, t, ParseJson(s, m, MAX_DEPTH, c, 0).1);
      ContainerValue(m, t);
    }
  }

  lemma OpenStateOnly(s: bytes, m: Mode, c: Cursor, d: Cursor, i: nat, t: Tree, end: Cursor)
    requires d == c.(i := d.i) && Print(t) != [] && OpenAt(s, m, c, i, Print(t), end)
    ensures OpenAt(s, m, d, i, Print(t), end)
  {
    hide NextToken, Match, Print;
  }

  lemma ContainerValue(m: Mode, t: Tree)
    requires ValidTree(m, t) && IsContainer(t)
    ensures !Value(m, t).String?
  {
  }

  lemma SuccessLeaks(s: bytes, m: Mode, err0: Error)
    requires var r := Parse(s, m, err0);
             r.1.failed && r.0 != Null && !ParseJson(s, m, MAX_DEPTH, Cursor(0, false, err0), 0).1.failed
    ensures exists gs, t :: TreeLeak(s, m, gs, t) && Parse(s, m, err0).0 == Value(m, t)
  {
    hide ParseJson, Garbage, GapsText, ValidGaps, Match, Print, Value, ValidTree, Height, Broken;
    var c := Cursor(0, false, err0);
    var gs, t := TreeFound(s, m, MAX_DEPTH, c, 0);
    BrokenIff(s, m, c.(i := |GapsText(gs) + Print(t)|), |s|);
    OnlyNulIsNull(m, t);
    assert TreeLeak(s, m, gs, t);
  }

  lemma FailureLeaks(s: bytes, m: Mode, err0: Error)
    requires var r := Parse(s, m, err0);
             r.1.failed && r.0 != Null && ParseJson(s, m, MAX_DEPTH, Cursor(0, false, err0), 0).1.failed
    ensures || (Parse(s, m, err0).0 == String([]) && exists gs :: StringLeak(s, m, gs))
            || (exists gs, t, j :: ContainerLeak(s, m, gs, t, j) && Parse(s, m, err0).0 == Value(m, t))
  {
    hide ParseJson, Garbage, GapsText, ValidGaps, Match, Print, Value, ValidTree, Height, Broken, Tokenise, NextToken;
    hide RunsOut, Chop;
    var c := Cursor(0, false, err0);
    var (v, d) := ParseJson(s, m, MAX_DEPTH, c, 0);
    var gs, t := RootProduces(s, m, err0);
    RunsOutIff(s, m, d);
    if v.String? {
      assert StringLeak(s, m, gs);
    } else {
      var p := GapsText(gs) + Print(t);
      var n := c.(i := |p| - 1);
      ContainerBrackets(m, t);
      ChopJoin(GapsText(gs), Print(t));
      MatchSplit(s, 0, GapsText(gs), Chop(Print(t)));
      var j := OpenBreaks(s, m, n);
      assert ContainerLeak(s, m, gs, t, j);
    }
  }

  /** A character returned in a failed state stood behind gaps that broke off. */
  lemma OpenBreaks(s: bytes, m: Mode, c: Cursor) returns (j: nat)
    requires c.i <= |s| && !c.failed && NextToken(s, m, c).1.failed && NextToken(s, m, c).0 != 0
    ensures j < |s| && Broken(s, m, c.i, j) && NextToken(s, m, c).0 == s[j] && NextToken(s, m, c).1.i == j + 1
  {
    hide Garbage, Broken;
    j := Garbage(s, m, c).i;
    BrokenIff(s, m, c, j);
  }

  /** A failed parse returns v instead of null exactly on the texts of the families that have this value. */
  lemma LeaksIff(s: bytes, m: Mode, err0: Error, v: Json)
    requires v != Null
    ensures Parse(s, m, err0).1.failed && Parse(s, m, err0).0 == v <==> LeaksAs(s, m, v)
  {
    hide Parse, ParseJson, StringLeak, GapsText, ValidGaps, Match, Print, Value, ValidTree, Height, Broken;
    hide RunsOut, Chop;
    if v == String([]) {
      if gs :| StringLeak(s, m, gs) {
        StringLeaks(s, m, err0, gs);
      }
    }
    if gs, t :| TreeLeak(s, m, gs, t) && v == Value(m, t) {
      TreeLeaks(s, m, err0, gs, t);
    }
    if gs, t, j :| ContainerLeak(s, m, gs, t, j) && v == Value(m, t) {
      ContainerLeaks(s, m, err0, gs, t, j);
    }
    if Parse(s, m, err0).1.failed && Parse(s, m, err0).0 == v {
      if ParseJson(s, m, MAX_DEPTH, Cursor(0, false, err0), 0).1.failed {
        FailureLeaks(s, m, err0);
      } else {
        SuccessLeaks(s, m, err0);
      }
    }
  }

  /** So the documented promise, Json() whenever the parse fails, holds in either mode exactly outside the families. */
  lemma ContractHoldsIff(s: bytes, m: Mode, err0: Error)
    ensures (Parse(s, m, err0).1.failed ==> Parse(s, m, err0).0 == Null) <==> !Leaks(s, m)
  {
    hide Parse, StringLeak, TreeLeak, ContainerLeak, Value;
    var v := Parse(s, m, err0).0;
    if v != Null {
      LeaksIff(s, m, err0, v);
    }
    if gs :| StringLeak(s, m, gs) {
      StringLeaks(s, m, err0, gs);
    }
    if gs, t :| TreeLeak(s, m, gs, t) {
      TreeLeaks(s, m, err0, gs, t);
      LeakIsNotNull(s, m, gs, t, 0);
    }
    if gs, t, j :| ContainerLeak(s, m, gs, t, j) {
      ContainerLeaks(s, m, err0, gs, t, j);
      LeakIsNotNull(s, m, gs, t, j);
    }
  }

  lemma LeakIsNotNull(s: bytes, m: Mode, gs: seq<Gap>, t: Tree, j: nat)
    requires TreeLeak(s, m, gs, t) || ContainerLeak(s, m, gs, t, j)
    ensures ValidTree(m, t) && Value(m, t) != Null
  {
    hide Value;
    OnlyNulIsNull(m, t);
  }
}
