/** Json::parse_multi on a run of JSON texts. */
module JsonMulti {
  import opened Bytes
  import opened JsonValue
  import opened JsonCursor
  import opened JsonGaps
  import opened JsonParse
  import opened JsonGrammar
  import opened JsonAccept
  import opened JsonText
  import opened JsonDump
  import opened JsonRoundTrip

  /** One text of the run and the gaps after it. */
  datatype Doc = Doc(t: Tree, after: seq<Gap>)

  function DocsText(docs: seq<Doc>): bytes {
    if docs == [] then [] else Print(docs[0].t) + (GapsText(docs[0].after) + DocsText(docs[1..]))
  }

  /** Texts within the nesting limit; gaps may be empty except where a number would run on into the next text. */
  predicate ValidDocs(m: Mode, docs: seq<Doc>) {
    docs == [] ||
    (var d := docs[0];
     && ValidTree(m, d.t) && Height(d.t) <= MAX_DEPTH && ValidGaps(m, d.after)
     && (if |docs| == 1 then !EndsInBlock(d.after)
         else d.after == [] ==> Ends(d.t, if Print(docs[1].t) == [] then 0 else Print(docs[1].t)[0]))
     && ValidDocs(m, docs[1..]))
  }

  function DocValues(m: Mode, docs: seq<Doc>): seq<Json>
    requires ValidDocs(m, docs)
  {
    if docs == [] then [] else [Value(m, docs[0].t)] + DocValues(m, docs[1..])
  }

  lemma DocsStart(m: Mode, docs: seq<Doc>)
    requires docs != [] && ValidDocs(m, docs)
    ensures Print(docs[0].t) != [] && DocsText(docs) != [] && DocsText(docs)[0] == Print(docs[0].t)[0]
    ensures TokenStart(m, DocsText(docs)[0])
  {
    hide Print, GapsText, ValidTree, ValidGaps, TokenStart;
    StartsToken(m, docs[0].t);
  }

  /** What follows the first text: a gap, the next text, or the end. */
  lemma DocEnds(s: bytes, m: Mode, i: nat, docs: seq<Doc>)
    requires docs != [] && ValidDocs(m, docs)
    requires Match(s, i, GapsText(docs[0].after) + DocsText(docs[1..]))
    requires i + |GapsText(docs[0].after) + DocsText(docs[1..])| == |s|
    ensures Ends(docs[0].t, At(s, i))
    ensures var j := i + |GapsText(docs[0].after)|;
            && Match(s, i, GapsText(docs[0].after)) && Match(s, j, DocsText(docs[1..]))
            && TokenStart(m, At(s, j)) && (j == |s| ==> !EndsInBlock(docs[0].after))
  {
    hide Match, Print, DocsText, ValidTree, Height, GapText;
    var gs, rest := docs[0].after, docs[1..];
    var text := GapsText(gs) + DocsText(rest);
    MatchSplit(s, i, GapsText(gs), DocsText(rest));
    assert rest == [] ==> DocsText(rest) == [] by {
      NoDocs();
    }
    if rest != [] {
      DocsStart(m, rest);
      MatchAt(s, i + |GapsText(gs)|, DocsText(rest), 0);
    }
    if gs != [] {
      GapEnds(s, m, i, gs);
    }
  }

  lemma NoDocs()
    ensures DocsText([]) == []
  {
  }

  lemma {:induction false} DocsParsed(s: bytes, m: Mode, c: Cursor, gs: seq<Gap>, docs: seq<Doc>, vs: seq<Json>)
    requires !c.failed && docs != [] && ValidGaps(m, gs) && ValidDocs(m, docs)
    requires Match(s, c.i, GapsText(gs) + DocsText(docs)) && c.i + |GapsText(gs) + DocsText(docs)| == |s|
    ensures ParseMultiFrom(s, m, c, vs) == (vs + DocValues(m, docs), c.(i := |s|))
    decreases |docs|
  {
    hide Match, ParseJson, Garbage, Print, GapsText, Value, ValidTree, ValidGaps, Height, TokenStart, Ends, EndsInBlock;
    var d, rest := docs[0], docs[1..];
    var text := GapsText(gs) + Print(d.t);
    var i := c.i + |text|;
    DocsStart(m, docs);
    assert GapsText(gs) + DocsText(docs) == text + (GapsText(d.after) + DocsText(rest));
    MatchSplit(s, c.i, text, GapsText(d.after) + DocsText(rest));
    DocEnds(s, m, i, docs);
    TreeRead(s, m, MAX_DEPTH, c, 0, gs, d.t);
    GapsSkipped(s, m, c.(i := i), d.after);
    var e := c.(i := i + |GapsText(d.after)|);
    assert vs + DocValues(m, docs) == vs + [Value(m, d.t)] + DocValues(m, rest);
    if rest == [] {
      NoDocs();
      assert DocValues(m, rest) == [];
      assert vs + DocValues(m, docs) == vs + [Value(m, d.t)];
    } else {
      NoGaps(m, DocsText(rest));
      DocsParsed(s, m, e, [], rest, vs + [Value(m, d.t)]);
    }
  }

  /** A run of texts, separated or not, is read as the list of their values. */
  lemma MultiParsed(m: Mode, gs: seq<Gap>, docs: seq<Doc>, err0: Error)
    requires docs != [] && ValidGaps(m, gs) && ValidDocs(m, docs)
    ensures var s := GapsText(gs) + DocsText(docs);
            ParseMulti(s, m, err0) == (DocValues(m, docs), Cursor(|s|, false, err0))
  {
    hide Match, GapsText, DocsText, ValidGaps, ValidDocs, DocValues;
    var s := GapsText(gs) + DocsText(docs);
    WholeMatches(s);
    DocsParsed(s, m, Cursor(0, false, err0), gs, docs, []);
    assert [] + DocValues(m, docs) == DocValues(m, docs);
  }

  /** The last number of a run must not be run on by what follows the run. */
  predicate RunEnds(docs: seq<Doc>, next: byte) {
    docs != [] && docs[|docs| - 1].after == [] ==> Ends(docs[|docs| - 1].t, next)
  }

  /** The loop over one text of a run, wherever the next one starts. */
  lemma DocPassed(s: bytes, m: Mode, c: Cursor, d: Doc, vs: seq<Json>)
    requires !c.failed && ValidTree(m, d.t) && Height(d.t) <= 200 && ValidGaps(m, d.after)
    requires Match(s, c.i, Print(d.t) + GapsText(d.after))
    requires var x := c.i + |Print(d.t) + GapsText(d.after)|;
             x < |s| && TokenStart(m, At(s, x)) && (d.after == [] ==> Ends(d.t, At(s, x)))
    ensures ParseMultiFrom(s, m, c, vs)
            == ParseMultiFrom(s, m, c.(i := c.i + |Print(d.t) + GapsText(d.after)|), vs + [Value(m, d.t)])
  {
    hide Match, ParseJson, Garbage, Print, GapsText, Value, ValidTree, ValidGaps, Height, TokenStart, EndsInBlock;
    var i := c.i + |Print(d.t)|;
    MatchSplit(s, c.i, Print(d.t), GapsText(d.after));
    NoGaps(m, Print(d.t));
    if d.after == [] {
      assert GapsText(d.after) == [];
    } else {
      GapEnds(s, m, i, d.after);
    }
    TreeRead(s, m, MAX_DEPTH, c, 0, [], d.t);
    GapsSkipped(s, m, c.(i := i), d.after);
  }

  /** Where parse_json fails behind a run of texts, parse_multi ends: with the values of the run and the failed one. */
  lemma {:induction false} MultiStops(s: bytes, m: Mode, c: Cursor, docs: seq<Doc>, vs: seq<Json>)
    requires !c.failed && ValidDocs(m, docs) && Match(s, c.i, DocsText(docs))
    requires var x := c.i + |DocsText(docs)|;
             && x < |s| && TokenStart(m, At(s, x)) && RunEnds(docs, At(s, x))
             && ParseJson(s, m, 200, c.(i := x), 0).1.failed
    ensures var (v, d) := ParseJson(s, m, 200, c.(i := c.i + |DocsText(docs)|), 0);
            var (r, end) := ParseMultiFrom(s, m, c, vs);
            r == vs + DocValues(m, docs) + [v] && end.failed && end.err == d.err
    decreases |docs|
  {
    hide Match, ParseJson, Garbage, Print, GapsText, Value, ValidTree, ValidGaps, Height, TokenStart, Ends, EndsInBlock;
    if docs == [] {
      assert vs + [] == vs;
    } else {
      var d, rest := docs[0], docs[1..];
      var text := Print(d.t) + GapsText(d.after);
      assert DocsText(docs) == text + DocsText(rest);
      MatchSplit(s, c.i, text, DocsText(rest));
      if rest == [] {
        NoDocs();
      } else {
        DocsStart(m, rest);
        MatchAt(s, c.i + |text|, DocsText(rest), 0);
      }
      DocPassed(s, m, c, d, vs);
      MultiStops(s, m, c.(i := c.i + |text|), rest, vs + [Value(m, d.t)]);
      assert vs + [Value(m, d.t)] + DocValues(m, rest) == vs + DocValues(m, docs);
    }
  }

  // ---- whitespace-separated dumps ----

  predicate IsBlank(w: bytes) {
    w == [] || (IsWs(w[0]) && IsBlank(w[1..]))
  }

  /** Each value's dump followed by its separator. */
  function DumpAll(vs: seq<Json>, seps: seq<bytes>): bytes
    requires PrintableSeq(vs) && |seps| == |vs|
  {
    if vs == [] then [] else Dump(vs[0]) + (seps[0] + DumpAll(vs[1..], seps[1..]))
  }

  predicate Fitting(vs: seq<Json>, seps: seq<bytes>) {
    && |seps| == |vs|
    && (vs != [] ==>
          && Nesting(vs[0]) <= 200 && IsBlank(seps[0]) && (|vs| > 1 ==> seps[0] != [])
          && Fitting(vs[1..], seps[1..]))
  }

  function BlankGaps(w: bytes): seq<Gap> {
    if w == [] then [] else [Ws(w[0])] + BlankGaps(w[1..])
  }

  lemma {:induction false} BlankIsGaps(m: Mode, w: bytes)
    requires IsBlank(w)
    ensures ValidGaps(m, BlankGaps(w)) && GapsText(BlankGaps(w)) == w && !EndsInBlock(BlankGaps(w))
    ensures BlankGaps(w) == [] <==> w == []
  {
    if w != [] {
      BlankIsGaps(m, w[1..]);
      assert BlankGaps(w)[1..] == BlankGaps(w[1..]);
    }
  }

  function DocsOf(vs: seq<Json>, seps: seq<bytes>): (docs: seq<Doc>)
    requires DumpableSeq(vs) && |seps| == |vs|
    ensures |docs| == |vs|
  {
    if vs == [] then [] else [Doc(TreeOf(vs[0]), BlankGaps(seps[0]))] + DocsOf(vs[1..], seps[1..])
  }

  lemma {:induction false} DumpsAreDocs(m: Mode, vs: seq<Json>, seps: seq<bytes>)
    requires DumpableSeq(vs) && PrintableSeq(vs) && Fitting(vs, seps)
    ensures ValidDocs(m, DocsOf(vs, seps)) && DocsText(DocsOf(vs, seps)) == DumpAll(vs, seps)
    ensures EqualSeq(DocValues(m, DocsOf(vs, seps)), NulledSeq(vs))
    decreases |vs|
  {
    hide Print, Dump, TreeOf, Value, ValidTree, ValidGaps, GapsText, Height, Nesting, Equal, IsBlank, BlankGaps;
    hide EndsInBlock;
    if vs != [] {
      DumpIsText(m, vs[0]);
      ReadBack(m, vs[0]);
      BlankIsGaps(m, seps[0]);
      DumpsAreDocs(m, vs[1..], seps[1..]);
      assert DocsOf(vs, seps)[1..] == DocsOf(vs[1..], seps[1..]);
    }
  }

  /**
   parse_multi on dumps separated by whitespace returns the list of values with their nulls, up to
   Json::operator==.
   */
  lemma MultiRoundTrip(m: Mode, vs: seq<Json>, seps: seq<bytes>, err0: Error)
    requires DumpableSeq(vs) && PrintableSeq(vs) && Fitting(vs, seps)
    ensures var s := DumpAll(vs, seps);
            var r := ParseMulti(s, m, err0);
            && EqualSeq(r.0, NulledSeq(vs)) && r.1 == Cursor(|s|, false, err0)
            && (EqualSeq(r.0, vs) <==> FiniteSeq(vs))
  {
    hide ParseMulti, DumpAll, DocsText, DocValues, ValidDocs, EqualSeq, DumpableSeq, NulledSeq, FiniteSeq;
    if vs == [] {
      NothingParsed(m, vs, seps, err0);
    } else {
      DumpsAreDocs(m, vs, seps);
      NothingInside(m);
      NoGaps(m, DumpAll(vs, seps));
      MultiParsed(m, [], DocsOf(vs, seps), err0);
    }
    EqualToBoth(Array(ParseMulti(DumpAll(vs, seps), m, err0).0), Array(vs));
  }

  lemma NothingParsed(m: Mode, vs: seq<Json>, seps: seq<bytes>, err0: Error)
    requires vs == [] && seps == []
    ensures DumpAll(vs, seps) == [] && ParseMulti([], m, err0) == ([], Cursor(0, false, err0))
    ensures EqualSeq([], NulledSeq(vs))
  {
  }
}
