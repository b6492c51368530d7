/**
 What stands between two tokens: consume_whitespace, consume_comment, consume_garbage and
 get_next_token as functions, and the text they accept as a grammar.
 */
module JsonGaps {
  import opened Bytes
  import opened JsonCursor

  /** consume_whitespace */
  function SkipWs(s: bytes, i: nat): (j: nat)
    requires i <= |s|
    ensures i <= j <= |s| && !IsWs(At(s, j))
    decreases |s| - i
  {
    if IsWs(At(s, i)) then SkipWs(s, i + 1) else i
  }

  /** Where the line-comment loop stops: at the newline, or at the end of the text. */
  function FindNewline(s: bytes, i: nat): (j: nat)
    requires i <= |s|
    ensures i <= j <= |s|
    decreases |s| - i
  {
    if i == |s| || s[i] == NEWLINE then i else FindNewline(s, i + 1)
  }

  /** Where the block-comment loop stops: at the closing pair, or past size() - 2. */
  function FindClose(s: bytes, i: nat): (j: nat)
    requires 2 <= |s| && i <= |s|
    ensures i <= j <= |s|
    decreases |s| - i
  {
    if i > |s| - 2 || (s[i] == STAR && s[i + 1] == SLASH) then i else FindClose(s, i + 1)
  }

  /** consume_comment: whether a comment was found, and the new state. */
  function Comment(s: bytes, c: Cursor): (r: (bool, Cursor))
    requires c.i <= |s|
    ensures Advances(s, c, r.1)
    ensures r.0 ==> r.1.i > c.i && r.1.i < |s| && r.1.failed == c.failed
    ensures !c.failed && !r.0 && !r.1.failed ==> r.1 == c && At(s, c.i) != SLASH
  {
    if At(s, c.i) != SLASH then (false, c)
    else
      var c1 := c.(i := c.i + 1);
      if c1.i == |s| then (false, Fail(c1, CommentEnd))
      else if s[c1.i] == SLASH then
        var n := FindNewline(s, c1.i + 1);
        if n == |s| then (false, Fail(c.(i := n), CommentEnd)) else (true, c.(i := n))
      else if s[c1.i] == STAR then
        var n := FindClose(s, c1.i + 1);
        if n > |s| - 2 then (false, Fail(c.(i := n), CommentEnd))
        else if n + 2 == |s| then (false, Fail(c.(i := n + 2), CommentEnd))
        else (true, c.(i := n + 2))
      else (false, Fail(c1, CommentMalformed))
  }

  /** The do-while loop of consume_garbage. */
  function CommentLoop(s: bytes, c: Cursor): (d: Cursor)
    requires c.i <= |s|
    ensures Advances(s, c, d)
    ensures !d.failed && !IsWs(At(s, c.i)) ==> !IsWs(At(s, d.i)) && At(s, d.i) != SLASH
    decreases |s| - c.i
  {
    var (found, c1) := Comment(s, c);
    var c2 := c1.(i := SkipWs(s, c1.i));
    if found then CommentLoop(s, c2) else c2
  }

  /** consume_garbage */
  function Garbage(s: bytes, m: Mode, c: Cursor): (d: Cursor)
    requires c.i <= |s|
    ensures Advances(s, c, d)
    ensures !d.failed ==> !IsWs(At(s, d.i)) && (m.Comments? ==> At(s, d.i) != SLASH)
  {
    var c1 := c.(i := SkipWs(s, c.i));
    if m.Comments? then CommentLoop(s, c1) else c1
  }

  /** get_next_token */
  function NextToken(s: bytes, m: Mode, c: Cursor): (r: (byte, Cursor))
    requires c.i <= |s|
    ensures Advances(s, c, r.1)
    ensures !r.1.failed || r.0 != 0 ==> r.1.i > c.i
    ensures !r.1.failed ==> r.0 == s[r.1.i - 1] && !IsWs(r.0) && (m.Comments? ==> r.0 != SLASH)
  {
    var g := Garbage(s, m, c);
    if g.i == |s| then (0, Fail(g, InputEnd)) else (s[g.i], g.(i := g.i + 1))
  }

  /** A piece of text that may stand between tokens. */
  datatype Gap = Ws(b: byte) | Line(body: bytes) | Block(body: bytes)

  /** No closing pair inside a block comment's body. */
  predicate NoClose(body: bytes) {
    forall k | 0 <= k < |body| - 1 :: !(body[k] == STAR && body[k + 1] == SLASH)
  }

  predicate ValidGap(m: Mode, g: Gap) {
    match g
    case Ws(b) => IsWs(b)
    case Line(body) => m.Comments? && NEWLINE !in body
    case Block(body) => m.Comments? && NoClose(body)
  }

  predicate ValidGaps(m: Mode, gs: seq<Gap>) {
    gs == [] || (ValidGap(m, gs[0]) && ValidGaps(m, gs[1..]))
  }

  predicate EndsInBlock(gs: seq<Gap>) {
    gs != [] && if |gs| == 1 then gs[0].Block? else EndsInBlock(gs[1..])
  }

  function GapText(g: Gap): (t: bytes)
    ensures t != []
  {
    match g
    case Ws(b) => [b]
    case Line(body) => [SLASH, SLASH] + body + [NEWLINE]
    case Block(body) => [SLASH, STAR] + body + [STAR, SLASH]
  }

  function GapsText(gs: seq<Gap>): bytes {
    if gs == [] then [] else GapText(gs[0]) + GapsText(gs[1..])
  }

  lemma {:induction false} NewlineFound(s: bytes, i: nat, body: bytes)
    requires Match(s, i, body + [NEWLINE]) && NEWLINE !in body
    ensures FindNewline(s, i) == i + |body|
    decreases |body|
  {
    MatchAt(s, i, body + [NEWLINE], 0);
    if body != [] {
      assert body + [NEWLINE] == [body[0]] + (body[1..] + [NEWLINE]);
      MatchSplit(s, i, [body[0]], body[1..] + [NEWLINE]);
      NewlineFound(s, i + 1, body[1..]);
    }
  }

  lemma {:induction false} CloseFound(s: bytes, i: nat, body: bytes)
    requires Match(s, i, body + [STAR, SLASH]) && NoClose(body)
    ensures FindClose(s, i) == i + |body|
    decreases |body|
  {
    var t := body + [STAR, SLASH];
    MatchAt(s, i, t, 0);
    MatchAt(s, i, t, 1);
    if body != [] {
      assert t == [body[0]] + (body[1..] + [STAR, SLASH]);
      MatchSplit(s, i, [body[0]], body[1..] + [STAR, SLASH]);
      CloseFound(s, i + 1, body[1..]);
    }
  }

  /** consume_comment on a closed comment: found, unless a block comment ends the text. */
  lemma CommentOnGap(s: bytes, c: Cursor, g: Gap)
    requires !g.Ws? && ValidGap(Comments, g) && Match(s, c.i, GapText(g))
    ensures var e := c.i + |GapText(g)|;
            Comment(s, c) ==
            if g.Line? then (true, c.(i := e - 1))
            else if e < |s| then (true, c.(i := e))
            else (false, Fail(c.(i := e), CommentEnd))
  {
    hide FindNewline, FindClose, Match;
    MatchAt(s, c.i, GapText(g), 0);
    MatchAt(s, c.i, GapText(g), 1);
    match g {
      case Line(body) =>
        SpanSplit(s, c.i, [SLASH, SLASH], body, [NEWLINE]);
        NewlineFound(s, c.i + 2, body);
      case Block(body) =>
        SpanSplit(s, c.i, [SLASH, STAR], body, [STAR, SLASH]);
        CloseFound(s, c.i + 2, body);
    }
  }

  lemma SpanSplit(s: bytes, i: nat, open: bytes, body: bytes, close: bytes)
    requires Match(s, i, open + body + close)
    ensures Match(s, i + |open|, body + close)
  {
    assert open + body + close == open + (body + close);
    MatchSplit(s, i, open, body + close);
  }

  /** consume_garbage steps over one piece, whatever follows it. */
  lemma GarbageStep(s: bytes, m: Mode, c: Cursor, g: Gap)
    requires ValidGap(m, g) && Match(s, c.i, GapText(g))
    requires g.Block? ==> c.i + |GapText(g)| < |s|
    ensures Garbage(s, m, c) == Garbage(s, m, c.(i := c.i + |GapText(g)|))
  {
    MatchAt(s, c.i, GapText(g), 0);
    if !g.Ws? {
      CommentOnGap(s, c, g);
      if g.Line? {
        MatchAt(s, c.i, GapText(g), |GapText(g)| - 1);
      }
    }
  }

  /** A text position where no gap can go on. */
  predicate TokenStart(m: Mode, b: byte) {
    !IsWs(b) && (m.Comments? ==> b != SLASH)
  }

  lemma NoGap(s: bytes, m: Mode, c: Cursor)
    requires c.i <= |s| && TokenStart(m, At(s, c.i))
    ensures Garbage(s, m, c) == c
  {
    assert SkipWs(s, c.i) == c.i;
  }

  /** Skipping may start after any run of gaps that does not end the text in a block comment. */
  lemma {:induction false} GapsPassed(s: bytes, m: Mode, c: Cursor, gs: seq<Gap>)
    requires ValidGaps(m, gs) && Match(s, c.i, GapsText(gs))
    requires c.i + |GapsText(gs)| < |s| || !EndsInBlock(gs)
    ensures Garbage(s, m, c) == Garbage(s, m, c.(i := c.i + |GapsText(gs)|))
    decreases |gs|
  {
    hide Garbage, IsWs, Match, GapText;
    if gs != [] {
      MatchSplit(s, c.i, GapText(gs[0]), GapsText(gs[1..]));
      assert |gs| > 1 ==> |GapsText(gs[1..])| > 0;
      GarbageStep(s, m, c, gs[0]);
      GapsPassed(s, m, c.(i := c.i + |GapText(gs[0])|), gs[1..]);
    }
  }

  /** Every gap not ending in a block comment at the end of the text is skipped, and nothing more. */
  lemma GapsSkipped(s: bytes, m: Mode, c: Cursor, gs: seq<Gap>)
    requires ValidGaps(m, gs) && Match(s, c.i, GapsText(gs))
    requires TokenStart(m, At(s, c.i + |GapsText(gs)|))
    requires c.i + |GapsText(gs)| < |s| || !EndsInBlock(gs)
    ensures Garbage(s, m, c) == c.(i := c.i + |GapsText(gs)|)
  {
    hide Garbage, GapsText, ValidGaps, EndsInBlock, TokenStart;
    GapsPassed(s, m, c, gs);
    NoGap(s, m, c.(i := c.i + |GapsText(gs)|));
  }

  lemma BlockEndsText(s: bytes, c: Cursor, g: Gap)
    requires !c.failed && g.Block? && ValidGap(Comments, g)
    requires Match(s, c.i, GapText(g)) && c.i + |GapText(g)| == |s|
    ensures Garbage(s, Comments, c) == Cursor(|s|, true, CommentEnd)
  {
    hide Comment, ValidGap, Match;
    CommentOnGap(s, c, g);
    MatchAt(s, c.i, GapText(g), 0);
    assert SkipWs(s, c.i) == c.i;
    assert SkipWs(s, |s|) == |s|;
  }

  /** A block comment that ends the text is an error even though it is properly closed. */
  lemma {:induction false} FinalBlockRejected(s: bytes, c: Cursor, gs: seq<Gap>)
    requires !c.failed && ValidGaps(Comments, gs) && Match(s, c.i, GapsText(gs))
    requires c.i + |GapsText(gs)| == |s| && EndsInBlock(gs)
    ensures Garbage(s, Comments, c) == Cursor(|s|, true, CommentEnd)
    decreases |gs|
  {
    hide Match, Garbage, GapText, ValidGap;
    MatchSplit(s, c.i, GapText(gs[0]), GapsText(gs[1..]));
    if |gs| == 1 {
      assert GapsText(gs[1..]) == [];
      BlockEndsText(s, c, gs[0]);
    } else {
      assert |GapText(gs[1..][0])| > 0;
      GarbageStep(s, Comments, c, gs[0]);
      FinalBlockRejected(s, c.(i := c.i + |GapText(gs[0])|), gs[1..]);
    }
  }

  lemma {:induction false} GapsSplit(m: Mode, a: seq<Gap>, b: seq<Gap>)
    ensures GapsText(a + b) == GapsText(a) + GapsText(b)
    ensures ValidGaps(m, a + b) <==> ValidGaps(m, a) && ValidGaps(m, b)
    ensures EndsInBlock(a + b) == if b == [] then EndsInBlock(a) else EndsInBlock(b)
  {
    hide GapText, ValidGap;
    if a != [] {
      GapsSplit(m, a[1..], b);
      assert (a + b)[1..] == a[1..] + b;
    } else {
      assert a + b == b;
    }
    if b == [] {
      assert a + b == a;
    }
  }

  /** Whatever consume_whitespace skips is whitespace. */
  lemma {:induction false} SkippedWs(s: bytes, m: Mode, i: nat) returns (gs: seq<Gap>)
    requires i <= |s|
    ensures ValidGaps(m, gs) && GapsText(gs) == s[i..SkipWs(s, i)]
    ensures !EndsInBlock(gs)
    decreases |s| - i
  {
    gs := [];
    if IsWs(At(s, i)) {
      var rest := SkippedWs(s, m, i + 1);
      gs := [Ws(s[i])] + rest;
      assert gs[1..] == rest;
      SliceJoin(s, i, i + 1, SkipWs(s, i));
    }
  }

  lemma {:induction false} NewlineBody(s: bytes, i: nat)
    requires i <= |s|
    ensures NEWLINE !in s[i..FindNewline(s, i)]
    ensures FindNewline(s, i) < |s| ==> s[FindNewline(s, i)] == NEWLINE
    decreases |s| - i
  {
    if !(i == |s| || s[i] == NEWLINE) {
      NewlineBody(s, i + 1);
      assert s[i..FindNewline(s, i)] == [s[i]] + s[i + 1..FindNewline(s, i)];
    }
  }

  lemma {:induction false} CloseBody(s: bytes, i: nat)
    requires 2 <= |s| && i <= |s|
    ensures var n := FindClose(s, i);
            && (forall k | i <= k < n && k < |s| - 1 :: !(s[k] == STAR && s[k + 1] == SLASH))
            && (n <= |s| - 2 ==> s[n] == STAR && s[n + 1] == SLASH)
    decreases |s| - i
  {
    if !(i > |s| - 2 || (s[i] == STAR && s[i + 1] == SLASH)) {
      CloseBody(s, i + 1);
    }
  }

  lemma LineAt(s: bytes, i: nat)
    requires i + 2 <= |s| && s[i] == SLASH && s[i + 1] == SLASH && FindNewline(s, i + 2) < |s|
    ensures var g := Line(s[i + 2..FindNewline(s, i + 2)]);
            ValidGap(Comments, g) && Match(s, i, GapText(g)) && i + |GapText(g)| == FindNewline(s, i + 2) + 1
  {
    hide FindNewline;
    NewlineBody(s, i + 2);
    MatchSpan(s, i, [SLASH, SLASH], FindNewline(s, i + 2), [NEWLINE]);
  }

  lemma BlockAt(s: bytes, i: nat)
    requires i + 2 <= |s| && s[i] == SLASH && s[i + 1] == STAR && FindClose(s, i + 2) + 2 <= |s|
    ensures var g := Block(s[i + 2..FindClose(s, i + 2)]);
            ValidGap(Comments, g) && Match(s, i, GapText(g)) && i + |GapText(g)| == FindClose(s, i + 2) + 2
  {
    hide FindClose;
    CloseBody(s, i + 2);
    MatchSpan(s, i, [SLASH, STAR], FindClose(s, i + 2), [STAR, SLASH]);
  }

  /** A comment that consume_comment accepts is a closed comment of the grammar, but for a final newline. */
  lemma AcceptedComment(s: bytes, c: Cursor) returns (g: Gap)
    requires c.i <= |s| && Comment(s, c).0
    ensures !g.Ws? && ValidGap(Comments, g)
    ensures Match(s, c.i, GapText(g))
    ensures Comment(s, c).1.i == c.i + |GapText(g)| - (if g.Line? then 1 else 0)
  {
    hide FindNewline, FindClose, Match, ValidGap;
    var i := c.i + 2;
    if s[c.i + 1] == SLASH {
      LineAt(s, c.i);
      g := Line(s[i..FindNewline(s, i)]);
    } else {
      BlockAt(s, c.i);
      g := Block(s[i..FindClose(s, i)]);
    }
  }

  lemma MatchSpan(s: bytes, i: nat, open: bytes, n: nat, close: bytes)
    requires i + |open| <= n <= |s|
    requires s[i..i + |open|] == open && n + |close| <= |s| && s[n..n + |close|] == close
    ensures Match(s, i, open + s[i + |open|..n] + close)
  {
    MatchSplit(s, i, open, s[i + |open|..n]);
    MatchSplit(s, i, open + s[i + |open|..n], close);
  }

  /** The gaps that one found comment and the whitespace after it amount to. */
  lemma AcceptedStep(s: bytes, c: Cursor) returns (gs: seq<Gap>)
    requires c.i <= |s| && Comment(s, c).0
    ensures ValidGaps(Comments, gs) && gs != []
    ensures var j := SkipWs(s, Comment(s, c).1.i);
            GapsText(gs) == s[c.i..j] && (j == |s| ==> !EndsInBlock(gs))
  {
    hide Comment, GapText, ValidGap;
    var i := Comment(s, c).1.i;
    var g := AcceptedComment(s, c);
    MatchAt(s, c.i, GapText(g), |GapText(g)| - 1);
    var e := c.i + |GapText(g)|;
    assert SkipWs(s, i) == SkipWs(s, e) by {
      if g.Line? {
        LineEndsInNewline(g);
      }
    }
    var ws := SkippedWs(s, Comments, e);
    GapsSplit(Comments, [g], ws);
    gs := [g] + ws;
    assert GapsText([g]) == GapText(g) + GapsText([]);
    SliceJoin(s, c.i, e, SkipWs(s, e));
  }

  lemma LineEndsInNewline(g: Gap)
    requires g.Line?
    ensures GapText(g)[|GapText(g)| - 1] == NEWLINE
  {
  }

  /** Whatever the comment loop skips without failing is a list of gaps, no block comment at the very end. */
  lemma {:induction false} AcceptedLoop(s: bytes, c: Cursor) returns (gs: seq<Gap>)
    requires c.i <= |s| && !CommentLoop(s, c).failed
    requires !IsWs(At(s, c.i))
    ensures ValidGaps(Comments, gs) && GapsText(gs) == s[c.i..CommentLoop(s, c).i]
    ensures CommentLoop(s, c).i == |s| ==> !EndsInBlock(gs)
    decreases |s| - c.i
  {
    hide Comment;
    gs := [];
    var (found, c1) := Comment(s, c);
    if found {
      var c2 := c1.(i := SkipWs(s, c1.i));
      var step := AcceptedStep(s, c);
      var rest := AcceptedLoop(s, c2);
      GapsSplit(Comments, step, rest);
      gs := step + rest;
      SliceJoin(s, c.i, c2.i, CommentLoop(s, c2).i);
    }
  }

  /** The converse of GapsSkipped: whatever consume_garbage skips without failing is a list of gaps. */
  lemma AcceptedGarbage(s: bytes, m: Mode, c: Cursor) returns (gs: seq<Gap>)
    requires c.i <= |s| && !Garbage(s, m, c).failed
    ensures ValidGaps(m, gs) && GapsText(gs) == s[c.i..Garbage(s, m, c).i]
    ensures Garbage(s, m, c).i == |s| ==> !EndsInBlock(gs)
  {
    hide CommentLoop;
    gs := SkippedWs(s, m, c.i);
    if m.Comments? {
      var c1 := c.(i := SkipWs(s, c.i));
      var rest := AcceptedLoop(s, c1);
      GapsSplit(m, gs, rest);
      gs := gs + rest;
      SliceJoin(s, c.i, c1.i, CommentLoop(s, c1).i);
    }
  }
}
