/** When two values have the same dump: exactly when they are equal, nulls and signs of zeros considered. */
module JsonInjective {
  import opened Bytes
  import opened JsonValue
  import opened JsonCursor
  import opened JsonNumbers
  import opened JsonParse
  import opened JsonDump
  import opened JsonRoundTrip

  predicate IsNegZero(v: Json) {
    v.Number? && v.n.Dbl? && v.n.d.NegZero?
  }

  /** Wherever one value has a negative zero so has the other; Json::operator== does not look at the sign. */
  predicate SameZeroSigns(a: Json, b: Json)
    decreases a, 1
  {
    match (a, b)
    case (Array(xs), Array(ys)) => SameZeroSignsSeq(xs, ys)
    case (Object(fs), Object(gs)) => SameZeroSignsFields(fs, gs)
    case _ => IsNegZero(a) == IsNegZero(b)
  }

  predicate SameZeroSignsSeq(a: seq<Json>, b: seq<Json>)
    decreases a, 0
  {
    a == [] || b == [] || (SameZeroSigns(a[0], b[0]) && SameZeroSignsSeq(a[1..], b[1..]))
  }

  predicate SameZeroSignsFields(a: seq<Field>, b: seq<Field>)
    decreases a, 0
  {
    a == [] || b == [] || (SameZeroSigns(a[0].v, b[0].v) && SameZeroSignsFields(a[1..], b[1..]))
  }

  // ---- equal values print alike ----

  /** 5 as an int and 5 as a double are the same text. */
  lemma {:induction false} EqualDumps(a: Json, b: Json)
    requires Equal(Nulled(a), Nulled(b)) && SameZeroSigns(a, b)
    requires Dumpable(a) && Printable(a) && Dumpable(b) && Printable(b)
    ensures Dump(a) == Dump(b)
    decreases a, 1
  {
    hide NulledSeq, NulledFields, EqualSeq, EqualFields;
    match a {
      case Array(xs) => EqualItemsDump(xs, b.items, true);
      case Object(fs) => EqualFieldsDump(fs, b.fields, true);
      case _ =>
    }
  }

  lemma {:induction false} EqualItemsDump(a: seq<Json>, b: seq<Json>, first: bool)
    requires EqualSeq(NulledSeq(a), NulledSeq(b)) && SameZeroSignsSeq(a, b)
    requires DumpableSeq(a) && PrintableSeq(a) && DumpableSeq(b) && PrintableSeq(b)
    ensures DumpItems(a, first) == DumpItems(b, first)
    decreases a, 0
  {
    hide Dump, Nulled, Equal, SameZeroSigns;
    if a != [] {
      NulledTails(a, b);
      EqualDumps(a[0], b[0]);
      EqualItemsDump(a[1..], b[1..], false);
    }
  }

  lemma NulledTails(a: seq<Json>, b: seq<Json>)
    requires a != [] && EqualSeq(NulledSeq(a), NulledSeq(b))
    ensures |a| == |b| && Equal(Nulled(a[0]), Nulled(b[0])) && EqualSeq(NulledSeq(a[1..]), NulledSeq(b[1..]))
  {
    hide Equal, Nulled;
    assert NulledSeq(a)[1..] == NulledSeq(a[1..]) && |b| > 0 && NulledSeq(b)[1..] == NulledSeq(b[1..]);
  }

  lemma {:induction false} EqualFieldsDump(a: seq<Field>, b: seq<Field>, first: bool)
    requires EqualFields(NulledFields(a), NulledFields(b)) && SameZeroSignsFields(a, b)
    requires DumpableFields(a) && PrintableFields(a) && DumpableFields(b) && PrintableFields(b)
    ensures DumpFields(a, first) == DumpFields(b, first)
    decreases a, 0
  {
    hide Dump, DumpString, Nulled, Equal, SameZeroSigns;
    if a != [] {
      NulledFieldTails(a, b);
      EqualDumps(a[0].v, b[0].v);
      EqualFieldsDump(a[1..], b[1..], false);
    }
  }

  lemma NulledFieldTails(a: seq<Field>, b: seq<Field>)
    requires a != [] && EqualFields(NulledFields(a), NulledFields(b))
    ensures |a| == |b| && a[0].key == b[0].key && Equal(Nulled(a[0].v), Nulled(b[0].v))
    ensures EqualFields(NulledFields(a[1..]), NulledFields(b[1..]))
  {
    hide Equal, Nulled;
    assert NulledFields(a)[1..] == NulledFields(a[1..]) && |b| > 0 && NulledFields(b)[1..] == NulledFields(b[1..]);
  }

  // ---- values that print alike are equal ----

  predicate EndsValue(t: bytes) {
    t == [] || EndsNumber(t[0])
  }

  /** A text that begins with two dumps begins with one: the parser stops at the end of either. */
  lemma OneDump(a: Json, b: Json, x: bytes, y: bytes)
    requires Dumpable(a) && Printable(a) && Dumpable(b) && Printable(b)
    requires Dump(a) + x == Dump(b) + y && EndsValue(x) && EndsValue(y)
    ensures Dump(a) == Dump(b) && x == y && Equal(Nulled(a), Nulled(b))
  {
    hide Dump, Equal, ParseJson, Nesting, Nulled, FiniteNumbers, Dumpable, Printable, EndsNumber;
    var s, c, limit := Dump(a) + x, Cursor(0, false, NoError), Nesting(a) + Nesting(b);
    DumpStands(Dump(a), x);
    DumpStands(Dump(b), y);
    RoundTrip(s, Standard, limit, c, 0, a);
    RoundTrip(s, Standard, limit, c, 0, b);
    EqualTransfers(ParseJson(s, Standard, limit, c, 0).0, Nulled(a), Nulled(b));
    assert s[..|Dump(a)|] == Dump(a) && s[|Dump(a)|..] == x;
    assert s[..|Dump(b)|] == Dump(b) && s[|Dump(b)|..] == y;
  }

  lemma DumpStands(d: bytes, x: bytes)
    requires EndsValue(x)
    ensures Match(d + x, 0, d) && EndsNumber(At(d + x, |d|))
  {
    assert (d + x)[0..|d|] == d;
  }

  lemma {:induction false} SignsAgree(a: Json, b: Json)
    requires Dumpable(a) && Printable(a) && Dumpable(b) && Printable(b) && Dump(a) == Dump(b)
    ensures Equal(Nulled(a), Nulled(b)) && SameZeroSigns(a, b)
    decreases a, 1
  {
    hide NulledSeq, NulledFields, EqualSeq, EqualFields, IntText, DumpItems, DumpFields, DumpString;
    OneDump(a, b, [], []);
    match a {
      case Number(n) => ZeroSignShows(a, b);
      case Array(xs) =>
        DropBrackets(DumpItems(xs, true), DumpItems(b.items, true), LBRACKET, RBRACKET);
        ItemSignsAgree(xs, b.items, true);
      case Object(fs) =>
        DropBrackets(DumpFields(fs, true), DumpFields(b.fields, true), LBRACE, RBRACE);
        FieldSignsAgree(fs, b.fields, true);
      case _ => ZeroSignShows(a, b);
    }
  }

  lemma DropBrackets(x: bytes, y: bytes, open: byte, close: byte)
    requires [open] + (x + [close]) == [open] + (y + [close])
    ensures x == y
  {
    assert ([open] + (x + [close]))[1..] == x + [close] && ([open] + (y + [close]))[1..] == y + [close];
    assert (x + [close])[..|x|] == x && (y + [close])[..|y|] == y;
  }

  /** Only a negative zero prints as a minus sign and a zero. */
  lemma ZeroSignShows(a: Json, b: Json)
    requires Dumpable(a) && Printable(a) && Dumpable(b) && Printable(b) && Dump(a) == Dump(b)
    requires Equal(Nulled(a), Nulled(b)) && !a.Array? && !a.Object?
    ensures SameZeroSigns(a, b)
  {
    hide IntText, EscapeFrom;
    if a.Number? && IsFinite(a.n) {
      NoMinusZero(a.n);
      NoMinusZero(b.n);
    }
  }

  lemma NoMinusZero(n: Num)
    requires IsFinite(n) && Printable(Number(n))
    ensures DumpNum(n) == [MINUS, ZERO] <==> n.Dbl? && n.d.NegZero?
  {
    hide DigitsOf, DigitsValue;
    if !(n.Dbl? && n.d.NegZero?) {
      var i := if n.Int? then n.i else n.d.v.Floor;
      DigitsOfValue(if i < 0 then -i else i);
      assert i >= 0 ==> IsDigit(IntText(i)[0]);
      assert i < 0 ==> IntText(i)[1..] == DigitsOf(-i);
      assert [MINUS, ZERO][1..] == [ZERO];
      ZeroDigit();
    }
  }

  lemma ZeroDigit()
    ensures DigitsValue([ZERO]) == 0
  {
    assert DigitsValue([]) == 0;
  }

  lemma {:induction false} ItemSignsAgree(a: seq<Json>, b: seq<Json>, first: bool)
    requires DumpableSeq(a) && PrintableSeq(a) && DumpableSeq(b) && PrintableSeq(b)
    requires EqualSeq(NulledSeq(a), NulledSeq(b)) && DumpItems(a, first) == DumpItems(b, first)
    ensures SameZeroSignsSeq(a, b)
    decreases a, 0
  {
    hide Dump, Nulled, NulledSeq, Equal, EqualSeq, SameZeroSigns, Dumpable, Printable, EndsNumber;
    if a != [] {
      NulledTails(a, b);
      ItemsSplit(a, first);
      ItemsSplit(b, first);
      var sep := if first then [] else [COMMA, SPACE];
      var x, y := Dump(a[0]) + DumpItems(a[1..], false), Dump(b[0]) + DumpItems(b[1..], false);
      assert (sep + x)[|sep|..] == x && (sep + y)[|sep|..] == y;
      OneDump(a[0], b[0], DumpItems(a[1..], false), DumpItems(b[1..], false));
      SignsAgree(a[0], b[0]);
      ItemSignsAgree(a[1..], b[1..], false);
    }
  }

  lemma Joined(a: bytes, b: bytes, c: bytes)
    ensures a + b + c == a + (b + c)
  {
  }

  lemma ItemsSplit(a: seq<Json>, first: bool)
    requires a != [] && PrintableSeq(a)
    ensures DumpItems(a, first)
            == (if first then [] else [COMMA, SPACE]) + (Dump(a[0]) + DumpItems(a[1..], false))
    ensures EndsValue(DumpItems(a[1..], false))
  {
    hide Dump, Printable;
    Joined(if first then [] else [COMMA, SPACE], Dump(a[0]), DumpItems(a[1..], false));
    ItemsStart(a[1..]);
  }

  lemma ItemsStart(a: seq<Json>)
    requires PrintableSeq(a)
    ensures EndsValue(DumpItems(a, false))
  {
    hide Dump, Printable;
  }

  lemma {:induction false} FieldSignsAgree(a: seq<Field>, b: seq<Field>, first: bool)
    requires DumpableFields(a) && PrintableFields(a) && DumpableFields(b) && PrintableFields(b)
    requires EqualFields(NulledFields(a), NulledFields(b)) && DumpFields(a, first) == DumpFields(b, first)
    ensures SameZeroSignsFields(a, b)
    decreases a, 0
  {
    hide Dump, DumpString, Nulled, NulledFields, Equal, EqualFields, SameZeroSigns, Dumpable, Printable, EndsNumber;
    if a != [] {
      NulledFieldTails(a, b);
      FieldsSplit(a, first);
      FieldsSplit(b, first);
      var start := (if first then [] else [COMMA, SPACE]) + (DumpString(a[0].key) + [COLON, SPACE]);
      var x, y := Dump(a[0].v) + DumpFields(a[1..], false), Dump(b[0].v) + DumpFields(b[1..], false);
      assert (start + x)[|start|..] == x && (start + y)[|start|..] == y;
      OneDump(a[0].v, b[0].v, DumpFields(a[1..], false), DumpFields(b[1..], false));
      SignsAgree(a[0].v, b[0].v);
      FieldSignsAgree(a[1..], b[1..], false);
    }
  }

  lemma FieldsSplit(a: seq<Field>, first: bool)
    requires a != [] && PrintableFields(a)
    ensures DumpFields(a, first)
            == (if first then [] else [COMMA, SPACE]) + (DumpString(a[0].key) + [COLON, SPACE])
               + (Dump(a[0].v) + DumpFields(a[1..], false))
    ensures EndsValue(DumpFields(a[1..], false))
  {
    hide Dump, DumpString, Printable;
    var sep, key := if first then [] else [COMMA, SPACE], DumpString(a[0].key);
    Joined(sep, key, [COLON, SPACE]);
    Joined(sep + key + [COLON, SPACE], Dump(a[0].v), DumpFields(a[1..], false));
    FieldsStart(a[1..]);
  }

  lemma FieldsStart(a: seq<Field>)
    requires PrintableFields(a)
    ensures EndsValue(DumpFields(a, false))
  {
    hide Dump, DumpString, Printable;
  }

  // ---- the results ----

  /**
   Two values have the same dump exactly when Json::operator== holds between them, with null in place of
   infinities and NaN, and their zeros have the same signs, however deeply they nest.
   */
  lemma DumpsAlikeIff(a: Json, b: Json)
    requires Dumpable(a) && Printable(a) && Dumpable(b) && Printable(b)
    ensures Dump(a) == Dump(b) <==> Equal(Nulled(a), Nulled(b)) && SameZeroSigns(a, b)
  {
    hide Dump, Equal, Nulled, SameZeroSigns, Dumpable, Printable;
    if Dump(a) == Dump(b) {
      SignsAgree(a, b);
    }
    if Equal(Nulled(a), Nulled(b)) && SameZeroSigns(a, b) {
      EqualDumps(a, b);
    }
  }

  /**
   With finite numbers, values that print alike are equal, and equal values print alike but for the sign of a
   zero.
   */
  lemma DumpIsInjective(a: Json, b: Json)
    requires Dumpable(a) && Printable(a) && Dumpable(b) && Printable(b) && FiniteNumbers(a) && FiniteNumbers(b)
    ensures Dump(a) == Dump(b) ==> Equal(a, b)
    ensures Dump(a) == Dump(b) <==> Equal(a, b) && SameZeroSigns(a, b)
  {
    hide Dump, Equal, Nulled, SameZeroSigns, Dumpable, Printable, FiniteNumbers;
    DumpsAlikeIff(a, b);
    NulledEqualIff(a);
    NulledEqualIff(b);
    if Equal(Nulled(a), Nulled(b)) {
      EqualTransfers(Nulled(a), a, Nulled(b));
      EqualIsSymmetric(a, Nulled(b));
      EqualTransfers(Nulled(b), a, b);
    }
    if Equal(a, b) {
      EqualIsSymmetric(Nulled(a), a);
      EqualIsSymmetric(Nulled(b), b);
      EqualTransfers(a, Nulled(a), b);
      EqualIsSymmetric(Nulled(a), b);
      EqualTransfers(b, Nulled(a), Nulled(b));
    }
  }

  /** 0.0 and -0.0 are equal and do not print alike. */
  lemma ZerosPrintApart()
    ensures var a, b := Number(Dbl(Finite(0.0))), Number(Dbl(NegZero));
            && Equal(a, b) && !SameZeroSigns(a, b)
            && Dump(a) == [ZERO] && Dump(b) == [MINUS, ZERO]
  {
    assert DigitsOf(0) == [ZERO];
  }
}
