/** Json::parse against the grammar: what it accepts, what it returns, and that layout does not matter. */
module JsonText {
  import opened Bytes
  import opened JsonValue
  import opened JsonCursor
  import opened JsonGaps
  import opened JsonStrings
  import opened JsonNumbers
  import opened JsonParse
  import opened JsonGrammar
  import opened JsonAccept
  import opened JsonSound

  /** A whole JSON text: a tree with gaps around it, and no block comment as the very last thing. */
  predicate IsText(m: Mode, s: bytes, gs: seq<Gap>, t: Tree, trail: seq<Gap>) {
    && ValidGaps(m, gs) && ValidTree(m, t) && ValidGaps(m, trail)
    && s == GapsText(gs) + Print(t) + GapsText(trail)
    && !EndsInBlock(trail)
  }

  /** What follows a tree and ends the text cannot run on a number. */
  lemma TrailEndsNumber(s: bytes, m: Mode, i: nat, trail: seq<Gap>)
    requires ValidGaps(m, trail) && Match(s, i, GapsText(trail)) && i + |GapsText(trail)| == |s|
    ensures EndsNumber(At(s, i))
  {
    if trail != [] {
      GapEnds(s, m, i, trail);
    }
  }

  /** A text within the nesting limit is accepted with its tree's value; one beyond it is rejected. */
  lemma TextParsed(s: bytes, m: Mode, err0: Error, gs: seq<Gap>, t: Tree, trail: seq<Gap>)
    requires IsText(m, s, gs, t, trail)
    ensures Height(t) <= MAX_DEPTH ==> Parse(s, m, err0) == (Value(m, t), Cursor(|s|, false, err0))
    ensures Height(t) > MAX_DEPTH ==> Parse(s, m, err0).1.failed && Parse(s, m, err0).1.err == TooDeep
  {
    hide Match, ParseJson, Garbage, GapsText, ValidGaps, Print, Value, ValidTree, Height;
    var c := Cursor(0, false, err0);
    var body := GapsText(gs) + Print(t);
    assert Match(s, 0, body + GapsText(trail)) by {
      WholeMatches(s);
    }
    MatchSplit(s, 0, body, GapsText(trail));
    TrailEndsNumber(s, m, |body|, trail);
    TreeRead(s, m, MAX_DEPTH, c, 0, gs, t);
    if Height(t) <= MAX_DEPTH {
      GapsSkipped(s, m, c.(i := |body|), trail);
    }
  }

  lemma WholeMatches(s: bytes)
    ensures Match(s, 0, s)
  {
  }

  /** Whatever Json::parse accepts is a text of the grammar, within the nesting limit. */
  lemma AcceptedIsText(s: bytes, m: Mode, err0: Error) returns (gs: seq<Gap>, t: Tree, trail: seq<Gap>)
    requires !Parse(s, m, err0).1.failed
    ensures IsText(m, s, gs, t, trail) && Height(t) <= MAX_DEPTH
    ensures Parse(s, m, err0) == (Value(m, t), Cursor(|s|, false, err0))
  {
    hide Match, ParseJson, Garbage, GapsText, ValidGaps, Print, Value, ValidTree, Height;
    var c := Cursor(0, false, err0);
    gs, t := TreeFound(s, m, MAX_DEPTH, c, 0);
    var body := GapsText(gs) + Print(t);
    var d := c.(i := |body|);
    trail := AcceptedGarbage(s, m, d);
    MatchSlice(s, 0, body);
    SliceJoin(s, 0, |body|, |s|);
  }

  /**
   Json::parse accepts exactly the texts of the grammar nested no deeper than the limit, and returns
   the value of the tree, whichever tree of that text is taken.
   */
  lemma ParseIsTheGrammar(s: bytes, m: Mode, err0: Error)
    ensures !Parse(s, m, err0).1.failed <==> exists gs, t, trail :: IsText(m, s, gs, t, trail) && Height(t) <= MAX_DEPTH
    ensures forall gs, t, trail :: IsText(m, s, gs, t, trail) && !Parse(s, m, err0).1.failed ==>
              Parse(s, m, err0).0 == Value(m, t)
  {
    hide Parse, IsText;
    if !Parse(s, m, err0).1.failed {
      var gs, t, trail := AcceptedIsText(s, m, err0);
    }
    forall gs, t, trail | IsText(m, s, gs, t, trail)
      ensures !Parse(s, m, err0).1.failed <==> Height(t) <= MAX_DEPTH
      ensures ValidTree(m, t)
      ensures !Parse(s, m, err0).1.failed ==> Parse(s, m, err0).0 == Value(m, t)
    {
      TextTree(m, s, gs, t, trail);
      TextParsed(s, m, err0, gs, t, trail);
    }
  }

  lemma TextTree(m: Mode, s: bytes, gs: seq<Gap>, t: Tree, trail: seq<Gap>)
    requires IsText(m, s, gs, t, trail)
    ensures ValidTree(m, t)
  {
  }

  /** A tree with every gap emptied. */
  function Strip(t: Tree): Tree
    decreases t, 1
  {
    match t
    case EmptyArr(_) => EmptyArr([])
    case EmptyObj(_) => EmptyObj([])
    case Arr(elems) => Arr(StripElems(elems))
    case Obj(members) => Obj(StripMembers(members))
    case _ => t
  }

  function StripElems(elems: seq<Elem>): seq<Elem>
    decreases elems, 0
  {
    if elems == [] then [] else [Elem([], Strip(elems[0].v), [])] + StripElems(elems[1..])
  }

  function StripMembers(members: seq<Member>): seq<Member>
    decreases members, 0
  {
    if members == [] then []
    else [Member([], members[0].key, [], [], Strip(members[0].v), [])] + StripMembers(members[1..])
  }

  lemma {:induction false} StripKeeps(m: Mode, n: Mode, t: Tree)
    requires ValidTree(m, t)
    ensures ValidTree(n, Strip(t)) && Value(n, Strip(t)) == Value(m, t) && Height(Strip(t)) == Height(t)
    decreases t, 1
  {
    match t {
      case Arr(elems) => StripKeepsElems(m, n, elems);
      case Obj(members) => StripKeepsMembers(m, n, members, []);
      case _ =>
    }
  }

  lemma {:induction false} StripKeepsElems(m: Mode, n: Mode, elems: seq<Elem>)
    requires ValidElems(m, elems)
    ensures var es := StripElems(elems);
            && |es| == |elems| && ValidElems(n, es)
            && ElemValues(n, es) == ElemValues(m, elems) && ElemsHeight(es) == ElemsHeight(elems)
    decreases elems, 0
  {
    hide Value, Strip, Height;
    if elems != [] {
      StripKeeps(m, n, elems[0].v);
      StripKeepsElems(m, n, elems[1..]);
      assert StripElems(elems)[1..] == StripElems(elems[1..]);
    }
  }

  lemma {:induction false} StripKeepsMembers(m: Mode, n: Mode, members: seq<Member>, data: seq<Field>)
    requires ValidMembers(m, members)
    ensures var ms := StripMembers(members);
            && |ms| == |members| && ValidMembers(n, ms)
            && MemberValues(n, ms, data) == MemberValues(m, members, data)
            && MembersHeight(ms) == MembersHeight(members)
    decreases members, 0
  {
    hide Value, Strip, Height, StringValue, Insert;
    if members != [] {
      StripKeeps(m, n, members[0].v);
      StripKeepsMembers(m, n, members[1..], Insert(data, StringValue(members[0].key), Value(m, members[0].v)));
      assert StripMembers(members)[1..] == StripMembers(members[1..]);
    }
  }

  /**
   Whitespace, and in COMMENTS mode comments, may stand at every token boundary without changing the
   outcome: a text is accepted exactly when the same text without any gap is, in either mode, and to
   the same value.
   */
  lemma LayoutIsIrrelevant(m: Mode, n: Mode, s: bytes, gs: seq<Gap>, t: Tree, trail: seq<Gap>, err0: Error)
    requires IsText(m, s, gs, t, trail)
    ensures var bare := Parse(Print(Strip(t)), n, err0);
            && (Parse(s, m, err0).1.failed <==> bare.1.failed)
            && (!bare.1.failed ==> Parse(s, m, err0).0 == bare.0)
  {
    hide Parse, Print, Strip, Height, Value, GapsText;
    StripKeeps(m, n, t);
    assert GapsText([]) == [] by {
      NoGaps(m, []);
    }
    assert IsText(n, Print(Strip(t)), [], Strip(t), []);
    TextParsed(s, m, err0, gs, t, trail);
    TextParsed(Print(Strip(t)), n, err0, [], Strip(t), []);
  }

  /** In COMMENTS mode a text that ends in a closed block comment is rejected, whatever precedes it. */
  lemma FinalBlockIsRejected(s: bytes, err0: Error, gs: seq<Gap>, t: Tree, trail: seq<Gap>)
    requires ValidGaps(Comments, gs) && ValidTree(Comments, t) && ValidGaps(Comments, trail) && EndsInBlock(trail)
    requires s == GapsText(gs) + Print(t) + GapsText(trail) && Height(t) <= MAX_DEPTH
    ensures Parse(s, Comments, err0) == (Value(Comments, t), Cursor(|s|, true, CommentEnd))
  {
    hide Match, ParseJson, Garbage, GapsText, ValidGaps, Print, Value, ValidTree, Height, EndsInBlock;
    var c := Cursor(0, false, err0);
    var body := GapsText(gs) + Print(t);
    assert Match(s, 0, body + GapsText(trail)) by {
      WholeMatches(s);
    }
    MatchSplit(s, 0, body, GapsText(trail));
    TrailEndsNumber(s, Comments, |body|, trail);
    TreeRead(s, Comments, MAX_DEPTH, c, 0, gs, t);
    FinalBlockRejected(s, c.(i := |body|), trail);
  }
}
