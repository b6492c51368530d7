/** Gaps that break off: the comments consume_comment rejects, and where the skipping is left after one. */
module JsonBroken {
  import opened Bytes
  import opened JsonCursor
  import opened JsonGaps

  /**
   A comment that starts at k is rejected, and the next character to be read is the one at j: a slash
   before anything but a slash or a star, a line comment without a newline, a block comment without an
   end, or one whose end is the end of the text.
   */
  predicate BreaksAt(s: bytes, k: nat, j: nat) {
    && k < |s| && s[k] == SLASH
    && if k + 1 == |s| then j == |s|
       else if s[k + 1] == SLASH then NEWLINE !in s[k + 2..] && j == |s|
       else if s[k + 1] != STAR then j == SkipWs(s, k + 1)
       else if NoClose(s[k + 2..]) then j == SkipWs(s, if k + 2 == |s| then |s| else |s| - 1)
       else k + 4 <= |s| && NoClose(s[k + 2..|s| - 2]) && s[|s| - 2] == STAR && s[|s| - 1] == SLASH && j == |s|
  }

  /** Gaps from i on, then a comment that breaks off and leaves the character at j next. */
  predicate BreaksAfter(s: bytes, m: Mode, i: nat, gs: seq<Gap>, j: nat) {
    m.Comments? && ValidGaps(m, gs) && Match(s, i, GapsText(gs)) && BreaksAt(s, i + |GapsText(gs)|, j)
  }

  ghost predicate Broken(s: bytes, m: Mode, i: nat, j: nat) {
    exists gs :: BreaksAfter(s, m, i, gs, j)
  }

  /** Nothing but gaps from i to the end of the text, the last of which may break off there. */
  ghost predicate RunsOut(s: bytes, m: Mode, i: nat) {
    || (exists gs :: ValidGaps(m, gs) && Match(s, i, GapsText(gs)) && i + |GapsText(gs)| == |s|)
    || Broken(s, m, i, |s|)
  }

  lemma LineBreaks(s: bytes, i: nat)
    requires i <= |s|
    ensures FindNewline(s, i) == |s| <==> NEWLINE !in s[i..]
  {
    var n := FindNewline(s, i);
    NewlineBody(s, i);
    if n < |s| {
      assert s[i..][n - i] == NEWLINE;
    } else {
      assert s[i..n] == s[i..];
    }
  }

  /** Where the block-comment loop stops when it finds no end. */
  lemma {:induction false} CloseStops(s: bytes, i: nat)
    requires 2 <= |s| && i <= |s| && FindClose(s, i) > |s| - 2
    ensures FindClose(s, i) == if i == |s| then |s| else |s| - 1
    decreases |s| - i
  {
    if i <= |s| - 2 {
      CloseStops(s, i + 1);
    }
  }

  lemma NoEndIff(s: bytes, i: nat)
    requires 2 <= |s| && i <= |s|
    ensures FindClose(s, i) > |s| - 2 <==> NoClose(s[i..])
  {
    hide FindClose;
    var n, t := FindClose(s, i), s[i..];
    CloseBody(s, i);
    assert forall k :: 0 <= k < |t| ==> t[k] == s[i + k];
    if n <= |s| - 2 {
      assert t[n - i] == STAR && t[n - i + 1] == SLASH;
    }
  }

  lemma EndAtEndIff(s: bytes, i: nat)
    requires 2 <= |s| && i + 2 <= |s| && s[|s| - 2] == STAR && s[|s| - 1] == SLASH
    ensures FindClose(s, i) + 2 == |s| <==> NoClose(s[i..|s| - 2])
  {
    hide FindClose;
    var n, t := FindClose(s, i), s[i..|s| - 2];
    CloseBody(s, i);
    assert forall k :: 0 <= k < |t| ==> t[k] == s[i + k];
    if n + 2 < |s| {
      assert n + 1 < |s| - 2;
      assert t[n - i] == STAR && t[n - i + 1] == SLASH;
    }
  }

  lemma EndIsEnd(s: bytes, i: nat)
    requires 2 <= |s| && i <= |s| && FindClose(s, i) + 2 == |s|
    ensures i + 2 <= |s| && s[|s| - 2] == STAR && s[|s| - 1] == SLASH
  {
    hide FindClose;
    CloseBody(s, i);
  }

  lemma BlockRejectedIff(s: bytes, c: Cursor, j: nat)
    requires c.i + 1 < |s| && s[c.i] == SLASH && s[c.i + 1] == STAR
    ensures BreaksAt(s, c.i, j) <==> !Comment(s, c).0 && j == SkipWs(s, Comment(s, c).1.i)
  {
    hide FindNewline, FindClose, NoClose, Advances;
    assert SkipWs(s, |s|) == |s|;
    NoEndIff(s, c.i + 2);
    if FindClose(s, c.i + 2) + 2 == |s| {
      EndIsEnd(s, c.i + 2);
    }
    if c.i + 4 <= |s| && s[|s| - 2] == STAR && s[|s| - 1] == SLASH {
      EndAtEndIff(s, c.i + 2);
    }
    if NoClose(s[c.i + 2..]) {
      CloseStops(s, c.i + 2);
    }
  }

  /** consume_comment rejects exactly these comments, in whatever state, and leaves that character next. */
  lemma RejectedIff(s: bytes, c: Cursor, j: nat)
    requires c.i <= |s|
    ensures BreaksAt(s, c.i, j) <==>
            At(s, c.i) == SLASH && !Comment(s, c).0 && j == SkipWs(s, Comment(s, c).1.i)
  {
    hide FindNewline, FindClose, NoClose, Advances;
    assert SkipWs(s, |s|) == |s|;
    if c.i + 1 < |s| && s[c.i] == SLASH {
      if s[c.i + 1] == STAR {
        BlockRejectedIff(s, c, j);
      } else {
        LineBreaks(s, c.i + 2);
      }
    }
  }

  /** Skipping over gaps that break off fails, and leaves that character next. */
  lemma BrokenSkipped(s: bytes, m: Mode, c: Cursor, gs: seq<Gap>, j: nat)
    requires BreaksAfter(s, m, c.i, gs, j)
    ensures Garbage(s, m, c).failed && Garbage(s, m, c).i == j
  {
    hide Comment, GapsText, ValidGaps, Match;
    GapsPassed(s, m, c, gs);
    var k := c.(i := c.i + |GapsText(gs)|);
    assert SkipWs(s, k.i) == k.i;
    RejectedIff(s, k, j);
  }

  lemma {:induction false} LoopBreaks(s: bytes, c: Cursor) returns (gs: seq<Gap>)
    requires c.i <= |s| && !c.failed && CommentLoop(s, c).failed && !IsWs(At(s, c.i))
    ensures BreaksAfter(s, Comments, c.i, gs, CommentLoop(s, c).i)
    decreases |s| - c.i
  {
    hide Comment, BreaksAt, Match, GapText;
    var (found, c1) := Comment(s, c);
    var c2 := c1.(i := SkipWs(s, c1.i));
    if found {
      var step := AcceptedStep(s, c);
      var rest := LoopBreaks(s, c2);
      GapsSplit(Comments, step, rest);
      gs := step + rest;
      MatchSelf(s, c.i, c2.i);
      MatchSplit(s, c.i, GapsText(step), GapsText(rest));
    } else {
      gs := [];
      MatchSelf(s, c.i, c.i);
      assert s[c.i..c.i] == [];
      FailsAtSlash(s, c);
      RejectedIff(s, c, c2.i);
    }
  }

  lemma FailsAtSlash(s: bytes, c: Cursor)
    requires c.i <= |s| && !c.failed && Comment(s, c).1.failed
    ensures At(s, c.i) == SLASH
  {
  }

  /** The converse: skipping that fails has met gaps that break off. */
  lemma GarbageBreaks(s: bytes, m: Mode, c: Cursor) returns (gs: seq<Gap>)
    requires c.i <= |s| && !c.failed && Garbage(s, m, c).failed
    ensures BreaksAfter(s, m, c.i, gs, Garbage(s, m, c).i)
  {
    hide CommentLoop, BreaksAt, Match, GapText;
    var c1 := c.(i := SkipWs(s, c.i));
    var ws := SkippedWs(s, m, c.i);
    var rest := LoopBreaks(s, c1);
    GapsSplit(m, ws, rest);
    gs := ws + rest;
    MatchSelf(s, c.i, c1.i);
    MatchSplit(s, c.i, GapsText(ws), GapsText(rest));
  }

  lemma BrokenIff(s: bytes, m: Mode, c: Cursor, j: nat)
    requires c.i <= |s| && !c.failed
    ensures Broken(s, m, c.i, j) <==> Garbage(s, m, c).failed && Garbage(s, m, c).i == j
  {
    hide Garbage, BreaksAfter;
    if gs :| BreaksAfter(s, m, c.i, gs, j) {
      BrokenSkipped(s, m, c, gs, j);
    }
    if Garbage(s, m, c).failed {
      var gs := GarbageBreaks(s, m, c);
    }
  }

  /** How far the skipping goes does not depend on whether the parse has failed before. */
  lemma {:induction false} LoopPosition(s: bytes, c: Cursor, d: Cursor)
    requires c.i == d.i <= |s|
    ensures CommentLoop(s, c).i == CommentLoop(s, d).i
    decreases |s| - c.i
  {
    hide SkipWs;
    SameComment(s, c, d);
    var (found, c1) := Comment(s, c);
    if found {
      LoopPosition(s, c1.(i := SkipWs(s, c1.i)), Comment(s, d).1.(i := SkipWs(s, c1.i)));
    }
  }

  lemma SameComment(s: bytes, c: Cursor, d: Cursor)
    requires c.i == d.i <= |s|
    ensures Comment(s, c).0 == Comment(s, d).0 && Comment(s, c).1.i == Comment(s, d).1.i
  {
    hide FindNewline, FindClose;
  }

  lemma SamePosition(s: bytes, m: Mode, c: Cursor, d: Cursor)
    requires c.i == d.i <= |s|
    ensures Garbage(s, m, c).i == Garbage(s, m, d).i
  {
    hide CommentLoop, SkipWs;
    LoopPosition(s, c.(i := SkipWs(s, c.i)), d.(i := SkipWs(s, d.i)));
  }

  /** Skipping reaches the end of the text, in whatever state, exactly when nothing but gaps is left. */
  lemma RunsOutIff(s: bytes, m: Mode, c: Cursor)
    requires c.i <= |s|
    ensures RunsOut(s, m, c.i) <==> Garbage(s, m, c).i == |s|
  {
    hide Garbage, GapsText, ValidGaps, Match, BreaksAfter, EndsInBlock;
    var d := c.(failed := false);
    SamePosition(s, m, c, d);
    BrokenIff(s, m, d, |s|);
    if gs :| ValidGaps(m, gs) && Match(s, c.i, GapsText(gs)) && c.i + |GapsText(gs)| == |s| {
      if EndsInBlock(gs) {
        BlocksAreComments(m, gs);
        FinalBlockRejected(s, d, gs);
      } else {
        GapsSkipped(s, m, d, gs);
      }
    }
    if Garbage(s, m, d).i == |s| && !Garbage(s, m, d).failed {
      var gs := AcceptedGarbage(s, m, d);
      MatchSelf(s, c.i, |s|);
    }
  }

  lemma {:induction false} BlocksAreComments(m: Mode, gs: seq<Gap>)
    requires ValidGaps(m, gs) && EndsInBlock(gs)
    ensures m.Comments?
  {
    if |gs| > 1 {
      BlocksAreComments(m, gs[1..]);
    }
  }
}
