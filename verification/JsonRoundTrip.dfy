/** Printing a value and parsing it back, inside any surrounding text; and that printing is injective. */
module JsonRoundTrip {
  import opened Bytes
  import opened JsonValue
  import opened JsonOrder
  import opened JsonCursor
  import opened JsonGaps
  import opened JsonStrings
  import opened JsonNumbers
  import opened JsonParse
  import opened JsonGrammar
  import opened JsonAccept
  import opened JsonText
  import opened JsonDump

  /** The keys of a std::map: strictly increasing. */
  predicate SortedKeys(fs: seq<Field>) {
    forall j, k :: 0 <= j < k < |fs| ==> BytesLess(fs[j].key, fs[k].key)
  }

  /** The range of a 32-bit int. */
  predicate IsInt32(i: int) {
    -0x8000_0000 <= i < 0x8000_0000
  }

  /**
   A value json11 can hold and the model can print: 32-bit ints, finite doubles that are exact, sorted maps
   throughout.
   */
  predicate Dumpable(v: Json)
    decreases v, 1
  {
    match v
    case Number(n) => if n.Int? then IsInt32(n.i) else n.d.Finite? ==> IsExact(n.d)
    case Array(xs) => DumpableSeq(xs)
    case Object(fs) => SortedKeys(fs) && DumpableFields(fs)
    case _ => true
  }

  predicate DumpableSeq(xs: seq<Json>)
    decreases xs, 0
  {
    xs == [] || (Dumpable(xs[0]) && DumpableSeq(xs[1..]))
  }

  predicate DumpableFields(fs: seq<Field>)
    decreases fs, 0
  {
    fs == [] || (Dumpable(fs[0].v) && DumpableFields(fs[1..]))
  }

  lemma {:induction false} DumpableIsPrintable(v: Json)
    requires Dumpable(v)
    ensures Printable(v)
    decreases v, 1
  {
    match v {
      case Array(xs) => DumpableSeqIsPrintable(xs);
      case Object(fs) => DumpableFieldsIsPrintable(fs);
      case _ =>
    }
  }

  lemma {:induction false} DumpableSeqIsPrintable(xs: seq<Json>)
    requires DumpableSeq(xs)
    ensures PrintableSeq(xs)
    decreases xs, 0
  {
    if xs != [] {
      DumpableIsPrintable(xs[0]);
      DumpableSeqIsPrintable(xs[1..]);
    }
  }

  lemma {:induction false} DumpableFieldsIsPrintable(fs: seq<Field>)
    requires DumpableFields(fs)
    ensures PrintableFields(fs)
    decreases fs, 0
  {
    if fs != [] {
      DumpableIsPrintable(fs[0].v);
      DumpableFieldsIsPrintable(fs[1..]);
    }
  }

  // ---- infinities and NaN, which print as null ----

  predicate IsFinite(n: Num) {
    n.Int? || n.d.Finite? || n.d.NegZero?
  }

  /** No number anywhere inside is an infinity or a NaN. */
  predicate FiniteNumbers(v: Json)
    decreases v, 1
  {
    match v
    case Number(n) => IsFinite(n)
    case Array(xs) => FiniteSeq(xs)
    case Object(fs) => FiniteFields(fs)
    case _ => true
  }

  predicate FiniteSeq(xs: seq<Json>)
    decreases xs, 0
  {
    xs == [] || (FiniteNumbers(xs[0]) && FiniteSeq(xs[1..]))
  }

  predicate FiniteFields(fs: seq<Field>)
    decreases fs, 0
  {
    fs == [] || (FiniteNumbers(fs[0].v) && FiniteFields(fs[1..]))
  }

  /** The value with null in place of every infinity and NaN. */
  function Nulled(v: Json): Json
    decreases v, 1
  {
    match v
    case Number(n) => if IsFinite(n) then v else Null
    case Array(xs) => Array(NulledSeq(xs))
    case Object(fs) => Object(NulledFields(fs))
    case _ => v
  }

  function NulledSeq(xs: seq<Json>): (ys: seq<Json>)
    ensures |ys| == |xs|
    decreases xs, 0
  {
    if xs == [] then [] else [Nulled(xs[0])] + NulledSeq(xs[1..])
  }

  function NulledFields(fs: seq<Field>): (gs: seq<Field>)
    ensures |gs| == |fs|
    decreases fs, 0
  {
    if fs == [] then [] else [Field(fs[0].key, Nulled(fs[0].v))] + NulledFields(fs[1..])
  }

  /** Putting in the nulls changes a value, by Json::operator==, exactly when there was something to replace. */
  lemma {:induction false} NulledEqualIff(v: Json)
    ensures Equal(Nulled(v), v) <==> FiniteNumbers(v)
    ensures NanFree(Nulled(v))
    decreases v, 1
  {
    match v {
      case Array(xs) => NulledSeqEqualIff(xs);
      case Object(fs) => NulledFieldsEqualIff(fs);
      case _ =>
    }
  }

  lemma {:induction false} NulledSeqEqualIff(xs: seq<Json>)
    ensures EqualSeq(NulledSeq(xs), xs) <==> FiniteSeq(xs)
    ensures NanFreeSeq(NulledSeq(xs))
    decreases xs, 0
  {
    hide Equal, Nulled, FiniteNumbers, NanFree;
    if xs != [] {
      NulledEqualIff(xs[0]);
      NulledSeqEqualIff(xs[1..]);
      assert NulledSeq(xs)[1..] == NulledSeq(xs[1..]);
    }
  }

  lemma {:induction false} NulledFieldsEqualIff(fs: seq<Field>)
    ensures EqualFields(NulledFields(fs), fs) <==> FiniteFields(fs)
    ensures NanFreeFields(NulledFields(fs))
    decreases fs, 0
  {
    hide Equal, Nulled, FiniteNumbers, NanFree;
    if fs != [] {
      NulledEqualIff(fs[0].v);
      NulledFieldsEqualIff(fs[1..]);
      assert NulledFields(fs)[1..] == NulledFields(fs[1..]);
    }
  }

  /** Nesting height of a value: what parse_json's depth reaches while reading its dump. */
  function Nesting(v: Json): nat
    decreases v, 1
  {
    match v
    case Array(xs) => if xs == [] then 0 else 1 + NestingSeq(xs)
    case Object(fs) => if fs == [] then 0 else 1 + NestingFields(fs)
    case _ => 0
  }

  function NestingSeq(xs: seq<Json>): nat
    decreases xs, 0
  {
    if xs == [] then 0 else Max(Nesting(xs[0]), NestingSeq(xs[1..]))
  }

  function NestingFields(fs: seq<Field>): nat
    decreases fs, 0
  {
    if fs == [] then 0 else Max(Nesting(fs[0].v), NestingFields(fs[1..]))
  }

  function SpaceIf(b: bool): seq<Gap> {
    if b then [Ws(SPACE)] else []
  }

  /** The token a finite number is printed as. */
  function NumberTok(n: Num): NumTok
    requires IsFinite(n)
  {
    match n
    case Int(i) => IntTok(i)
    case Dbl(Finite(v)) => IntTok(v.Floor)
    case Dbl(NegZero) => NumTok(true, [ZERO], NoFrac, NoExp)
  }

  lemma NumberIsText(n: Num)
    requires IsFinite(n) && Dumpable(Number(n))
    ensures ValidNum(NumberTok(n)) && NumText(NumberTok(n)) == DumpNum(n)
    ensures Equal(TokenNumber(NumberTok(n)), Number(n))
  {
    hide IntTok, IntText, DigitsValue, AllDigits;
    if n.Int? {
      IntTextIsToken(n.i);
    } else if n.d.Finite? {
      IntTextIsToken(n.d.v.Floor);
    } else {
      ZeroToken();
    }
  }

  /** "-0" is the number zero, read back as an int. */
  lemma ZeroToken()
    ensures var n := NumTok(true, [ZERO], NoFrac, NoExp);
            ValidNum(n) && NumText(n) == [MINUS, ZERO] && TokenNumber(n) == Number(Int(0))
  {
    assert DigitsValue([]) == 0 && DigitsValue([ZERO]) == 0;
  }

  /** The syntax tree of a value's dump. */
  function TreeOf(v: Json): Tree
    requires Dumpable(v)
    decreases v, 1
  {
    match v
    case Null => Nul
    case Number(n) => if IsFinite(n) then Num(NumberTok(n)) else Nul
    case Bool(b) => if b then True else False
    case String(x) => Str(EscapeToks(x, 0))
    case Array(xs) => if xs == [] then EmptyArr([]) else Arr(ElemsOf(xs, true))
    case Object(fs) => if fs == [] then EmptyObj([]) else Obj(MembersOf(fs, true))
  }

  function ElemsOf(xs: seq<Json>, first: bool): (es: seq<Elem>)
    requires DumpableSeq(xs)
    ensures |es| == |xs|
    decreases xs, 0
  {
    if xs == [] then [] else [Elem(SpaceIf(!first), TreeOf(xs[0]), [])] + ElemsOf(xs[1..], false)
  }

  function MembersOf(fs: seq<Field>, first: bool): (ms: seq<Member>)
    requires DumpableFields(fs)
    ensures |ms| == |fs|
    decreases fs, 0
  {
    if fs == [] then []
    else [Member(SpaceIf(!first), EscapeToks(fs[0].key, 0), [], [Ws(SPACE)], TreeOf(fs[0].v), [])] +
         MembersOf(fs[1..], false)
  }

  /** The dump of a value is the text of its tree. */
  lemma {:induction false} DumpIsText(m: Mode, v: Json)
    requires Dumpable(v)
    ensures Printable(v) && ValidTree(m, TreeOf(v)) && Print(TreeOf(v)) == Dump(v) && Height(TreeOf(v)) == Nesting(v)
    decreases v, 2
  {
    hide DumpString, NumberTok, NumText, ValidNum, ElemsOf, MembersOf, EscapeToks, ToksText, GapsText, DumpItems;
    hide DumpFields, ElemsText, MembersText;
    DumpableIsPrintable(v);
    NothingInside(m);
    match v {
      case Number(n) => if IsFinite(n) { NumberIsText(n); }
      case String(x) => StringIsText(x);
      case Array(xs) => if xs != [] { ArrayIsText(m, xs); }
      case Object(fs) => if fs != [] { ObjectIsText(m, fs); }
      case _ =>
    }
  }

  lemma NothingInside(m: Mode)
    ensures ValidGaps(m, []) && GapsText([]) == [] && DumpItems([], true) == [] && DumpFields([], true) == []
  {
  }

  lemma StringIsText(x: bytes)
    ensures ValidToks(EscapeToks(x, 0)) && DumpString(x) == [QUOTE] + (ToksText(EscapeToks(x, 0)) + [QUOTE])
    ensures StringValue(EscapeToks(x, 0)) == x
  {
    hide EscapeToks, ToksText, StringValue, EscapeFrom;
    EscapeRoundTrip(x, 0);
    assert x[0..] == x;
  }

  lemma {:induction false} ArrayIsText(m: Mode, xs: seq<Json>)
    requires xs != [] && DumpableSeq(xs)
    ensures PrintableSeq(xs)
    ensures var es := ElemsOf(xs, true);
            && ValidElems(m, es) && GapsText(es[0].before) + ElemsText(es) == DumpItems(xs, true) + [RBRACKET]
            && ElemsHeight(es) == NestingSeq(xs)
    decreases xs, 1
  {
    ItemsAreText(m, xs, true);
    assert ElemsOf(xs, true)[0].before == [];
    NoGaps(m, ElemsText(ElemsOf(xs, true)));
  }

  lemma {:induction false} ItemsAreText(m: Mode, xs: seq<Json>, first: bool)
    requires xs != [] && DumpableSeq(xs)
    ensures PrintableSeq(xs)
    ensures var es := ElemsOf(xs, first);
            && ValidElems(m, es)
            && (if first then [] else [COMMA, SPACE]) + ElemsText(es) == DumpItems(xs, first) + [RBRACKET]
            && ElemsHeight(es) == NestingSeq(xs)
    decreases xs, 0
  {
    hide Print, Dump, ValidTree, TreeOf, Height, Nesting, GapsText, ElemsTail, Printable, Dumpable;
    var es, rest := ElemsOf(xs, first), ElemsOf(xs[1..], false);
    assert es[1..] == rest;
    DumpIsText(m, xs[0]);
    OneSpace(m);
    ElemsTailStarts(es);
    if |xs| > 1 {
      ItemsAreText(m, xs[1..], false);
      assert rest[0].before == [Ws(SPACE)];
      CommaSpace(ElemsText(rest));
    }
    assert ElemsTail(es) == DumpItems(xs[1..], false) + [RBRACKET];
    NoGaps(m, ElemsTail(es));
    Regroup(if first then [] else [COMMA, SPACE], Dump(xs[0]), DumpItems(xs[1..], false), [RBRACKET]);
  }

  lemma OneSpace(m: Mode)
    ensures GapsText([Ws(SPACE)]) == [SPACE] && ValidGaps(m, [Ws(SPACE)]) && ValidGaps(m, []) && GapsText([]) == []
  {
    assert GapsText([Ws(SPACE)]) == GapText(Ws(SPACE)) + GapsText([]);
  }

  lemma CommaSpace(t: bytes)
    ensures [COMMA] + ([SPACE] + t) == [COMMA, SPACE] + t
    ensures [COLON] + ([SPACE] + t) == [COLON, SPACE] + t
  {
  }

  lemma {:induction false} ObjectIsText(m: Mode, fs: seq<Field>)
    requires fs != [] && DumpableFields(fs)
    ensures PrintableFields(fs)
    ensures var ms := MembersOf(fs, true);
            && ValidMembers(m, ms) && GapsText(ms[0].before) + MembersText(ms) == DumpFields(fs, true) + [RBRACE]
            && MembersHeight(ms) == NestingFields(fs)
    decreases fs, 1
  {
    FieldsAreText(m, fs, true);
    assert MembersOf(fs, true)[0].before == [];
    NoGaps(m, MembersText(MembersOf(fs, true)));
  }

  lemma {:induction false} FieldsAreText(m: Mode, fs: seq<Field>, first: bool)
    requires fs != [] && DumpableFields(fs)
    ensures PrintableFields(fs)
    ensures var ms := MembersOf(fs, first);
            && ValidMembers(m, ms)
            && (if first then [] else [COMMA, SPACE]) + MembersText(ms) == DumpFields(fs, first) + [RBRACE]
            && MembersHeight(ms) == NestingFields(fs)
    decreases fs, 0
  {
    hide Print, Dump, DumpString, ValidTree, ValidToks, TreeOf, EscapeToks, ToksText, Height, Nesting, GapsText;
    hide MembersTail, Printable, Dumpable;
    var ms, rest := MembersOf(fs, first), MembersOf(fs[1..], false);
    assert ms[1..] == rest;
    DumpIsText(m, fs[0].v);
    StringIsText(fs[0].key);
    OneSpace(m);
    MembersTailStarts(ms);
    if |fs| > 1 {
      FieldsAreText(m, fs[1..], false);
      assert rest[0].before == [Ws(SPACE)];
      CommaSpace(MembersText(rest));
    }
    assert MembersTail(ms) == DumpFields(fs[1..], false) + [RBRACE];
    NoGaps(m, MembersTail(ms));
    NoGaps(m, [COLON] + MembersRest(ms));
    MemberRegroup(if first then [] else [COMMA, SPACE], ToksText(ms[0].key), Dump(fs[0].v), DumpFields(fs[1..], false));
  }

  lemma MemberRegroup(sep: bytes, key: bytes, v: bytes, rest: bytes)
    ensures sep + ([QUOTE] + ((key + [QUOTE]) + ([COLON] + (([SPACE] + v) + (rest + [RBRACE])))))
         == sep + ([QUOTE] + (key + [QUOTE])) + [COLON, SPACE] + v + rest + [RBRACE]
  {
  }

  // ---- reading a dump back ----

  /** Reading an entry with a key above all the keys so far appends it. */
  lemma {:induction false} InsertLast(data: seq<Field>, key: bytes, v: Json)
    requires forall j :: 0 <= j < |data| ==> BytesLess(data[j].key, key)
    ensures Insert(data, key, v) == data + [Field(key, v)]
  {
    if data != [] {
      assert BytesLess(data[0].key, key);
      BytesAgree(data[0].key, key);
      BytesAgree(key, data[0].key);
      InsertLast(data[1..], key, v);
    }
  }

  /** What is read back from a dump equals the value with its nulls, by Json::operator==. */
  lemma {:induction false} ReadBack(m: Mode, v: Json)
    requires Dumpable(v) && ValidTree(m, TreeOf(v))
    ensures Equal(Value(m, TreeOf(v)), Nulled(v))
    decreases v, 2
  {
    hide NumberTok, EscapeToks, StringValue, TokenNumber, ElemsOf, MembersOf, ElemValues, MemberValues, ValidNum;
    hide ValidElems, ValidMembers;
    match v {
      case Number(n) => if IsFinite(n) { NumberIsText(n); }
      case String(x) => StringIsText(x);
      case Array(xs) => if xs != [] { ReadBackSeq(m, xs, true); }
      case Object(fs) =>
        if fs != [] {
          assert KeysBelow([], fs);
          ReadBackFields(m, fs, [], [], true);
          assert [] + NulledFields(fs) == NulledFields(fs);
        }
      case _ =>
    }
  }

  lemma {:induction false} ReadBackSeq(m: Mode, xs: seq<Json>, first: bool)
    requires DumpableSeq(xs) && ValidElems(m, ElemsOf(xs, first))
    ensures EqualSeq(ElemValues(m, ElemsOf(xs, first)), NulledSeq(xs))
    decreases xs, 0
  {
    hide TreeOf, Value, ValidTree, ValidGaps, Equal, Nulled;
    if xs != [] {
      assert ElemsOf(xs, first)[1..] == ElemsOf(xs[1..], false);
      ReadBack(m, xs[0]);
      ReadBackSeq(m, xs[1..], false);
    }
  }

  /** Every key of data is below every key of fs. */
  predicate KeysBelow(data: seq<Field>, fs: seq<Field>) {
    forall j, k :: 0 <= j < |data| && 0 <= k < |fs| ==> BytesLess(data[j].key, fs[k].key)
  }

  lemma KeysStayBelow(data: seq<Field>, fs: seq<Field>, x: Field)
    requires fs != [] && SortedKeys(fs) && KeysBelow(data, fs) && x.key == fs[0].key
    ensures forall j :: 0 <= j < |data| ==> BytesLess(data[j].key, x.key)
    ensures KeysBelow(data + [x], fs[1..]) && SortedKeys(fs[1..])
  {
  }

  /** The object loop over the members of fs, with entries equal to done already in data. */
  lemma {:induction false} ReadBackFields(m: Mode, fs: seq<Field>, data: seq<Field>, done: seq<Field>, first: bool)
    requires DumpableFields(fs) && SortedKeys(fs) && ValidMembers(m, MembersOf(fs, first))
    requires KeysBelow(data, fs) && EqualFields(data, done)
    ensures EqualFields(MemberValues(m, MembersOf(fs, first), data), done + NulledFields(fs))
    decreases fs, 0
  {
    hide TreeOf, Value, ValidTree, ValidMembers, Equal, EqualFields, Insert, Nulled, KeysBelow, SortedKeys, Dumpable;
    hide MemberValues, MembersOf, NulledFields;
    if fs == [] {
      NothingRead(m, first, data, done);
    } else {
      var f := fs[0];
      FirstRead(m, fs, data, done, first);
      ReadBack(m, f.v);
      var x, y := Field(f.key, Value(m, TreeOf(f.v))), Field(f.key, Nulled(f.v));
      KeysStayBelow(data, fs, x);
      InsertLast(data, f.key, x.v);
      EqualFieldsAppend(data, done, x, y);
      ReadBackFields(m, fs[1..], data + [x], done + [y], false);
    }
  }

  lemma NothingRead(m: Mode, first: bool, data: seq<Field>, done: seq<Field>)
    ensures MemberValues(m, MembersOf([], first), data) == data && done + NulledFields([]) == done
  {
  }

  /** The first round of the loop, for the first member of fs. */
  lemma FirstRead(m: Mode, fs: seq<Field>, data: seq<Field>, done: seq<Field>, first: bool)
    requires fs != [] && DumpableFields(fs) && ValidMembers(m, MembersOf(fs, first))
    ensures Dumpable(fs[0].v) && ValidTree(m, TreeOf(fs[0].v)) && ValidMembers(m, MembersOf(fs[1..], false))
    ensures MemberValues(m, MembersOf(fs, first), data)
            == MemberValues(m, MembersOf(fs[1..], false), Insert(data, fs[0].key, Value(m, TreeOf(fs[0].v))))
    ensures done + NulledFields(fs) == done + [Field(fs[0].key, Nulled(fs[0].v))] + NulledFields(fs[1..])
  {
    hide TreeOf, Value, ValidTree, ValidGaps, ValidToks, EscapeToks, StringValue, Insert, Nulled, Dumpable;
    assert MembersOf(fs, first)[1..] == MembersOf(fs[1..], false);
    StringIsText(fs[0].key);
  }

  lemma {:induction false} EqualFieldsAppend(a: seq<Field>, b: seq<Field>, x: Field, y: Field)
    requires EqualFields(a, b) && x.key == y.key && Equal(x.v, y.v)
    ensures EqualFields(a + [x], b + [y])
  {
    hide Equal;
    if a != [] {
      EqualFieldsAppend(a[1..], b[1..], x, y);
      assert (a + [x])[1..] == a[1..] + [x] && (b + [y])[1..] == b[1..] + [y];
    }
  }

  /**
   Parsing a dump inside any surrounding text: the value comes back, null standing for every infinity and
   NaN in it, and the cursor stops exactly at the end of the dump when the nesting fits; the parse fails
   when it does not. So an equal value comes back exactly when all its numbers are finite.
   */
  lemma RoundTrip(s: bytes, m: Mode, limit: nat, c: Cursor, depth: nat, v: Json)
    requires Dumpable(v) && Printable(v) && !c.failed
    requires Match(s, c.i, Dump(v))
    requires v.Number? && IsFinite(v.n) ==> EndsNumber(At(s, c.i + |Dump(v)|))
    ensures var r := ParseJson(s, m, limit, c, depth);
            if depth + Nesting(v) <= limit then
              && Equal(r.0, Nulled(v)) && r.1 == c.(i := c.i + |Dump(v)|)
              && (Equal(r.0, v) <==> FiniteNumbers(v))
            else r.1.failed && r.1.err == TooDeep
  {
    hide ParseJson, Match, Dump, Value, ValidTree, Nesting, Height, Print, Equal, EndsNumber, Nulled, FiniteNumbers;
    var t := TreeOf(v);
    DumpIsText(m, v);
    NoGaps(m, Dump(v));
    TreeRead(s, m, limit, c, depth, [], t);
    ReadBack(m, v);
    EqualToBoth(Value(m, t), v);
  }

  /** A value that equals v with its nulls equals v exactly when nothing was replaced. */
  lemma EqualToBoth(r: Json, v: Json)
    requires Equal(r, Nulled(v))
    ensures Equal(r, v) <==> FiniteNumbers(v)
  {
    hide Equal, Nulled, FiniteNumbers;
    NulledEqualIff(v);
    if FiniteNumbers(v) {
      EqualIsSymmetric(r, Nulled(v));
      EqualTransfers(Nulled(v), r, v);
    }
    if Equal(r, v) {
      EqualTransfers(r, Nulled(v), v);
    }
  }

  /** Json::parse(v.dump()): the value with its nulls, no error, and the caller's error string untouched. */
  lemma ParseDump(v: Json, m: Mode, err0: Error)
    requires Dumpable(v) && Printable(v)
    ensures var r := Parse(Dump(v), m, err0);
            if Nesting(v) <= 200 then
              && Equal(r.0, Nulled(v)) && !r.1.failed && r.1.err == err0
              && (Equal(r.0, v) <==> FiniteNumbers(v))
            else r.1.failed && r.1.err == TooDeep
  {
    hide Parse, Dump, Value, ValidTree, Nesting, Height, Print, Equal, ValidGaps, Nulled, FiniteNumbers;
    var s := Dump(v);
    DumpIsText(m, v);
    NoGaps(m, s);
    assert s == GapsText([]) + s + GapsText([]) by {
      NothingInside(m);
    }
    TextParsed(s, m, err0, [], TreeOf(v), []);
    ReadBack(m, v);
    EqualToBoth(Value(m, TreeOf(v)), v);
  }

  /** An infinity does not come back: it is printed as null. */
  lemma InfinityIsLost(m: Mode, err0: Error)
    ensures var v := Number(Dbl(PosInf));
            && Dumpable(v) && Printable(v)
            && Equal(Parse(Dump(v), m, err0).0, Null) && !Equal(Parse(Dump(v), m, err0).0, v)
  {
    hide Parse;
    ParseDump(Number(Dbl(PosInf)), m, err0);
  }

  // ---- equality through a third value ----

  lemma EqualIsSymmetric(a: Json, b: Json)
    requires Equal(a, b)
    ensures Equal(b, a)
  {
    hide Equal;
    EqualIsNanFree(a, b);
    Trichotomy(a, b);
  }

  /** Two values that both equal a third one equal each other. */
  lemma EqualTransfers(r: Json, a: Json, b: Json)
    requires Equal(r, a) && Equal(r, b)
    ensures Equal(a, b)
  {
    hide Equal;
    EqualIsNanFree(r, a);
    EqualIsNanFree(r, b);
    EqualIsSymmetric(r, a);
    LessIsTransitive(a, r, b);
  }

  /** Equal values have no NaN inside. */
  lemma {:induction false} EqualIsNanFree(a: Json, b: Json)
    requires Equal(a, b)
    ensures NanFree(a) && NanFree(b)
    decreases a, 1
  {
    match a {
      case Array(xs) => EqualSeqIsNanFree(xs, b.items);
      case Object(fs) => EqualFieldsIsNanFree(fs, b.fields);
      case _ =>
    }
  }

  lemma {:induction false} EqualSeqIsNanFree(a: seq<Json>, b: seq<Json>)
    requires EqualSeq(a, b)
    ensures NanFreeSeq(a) && NanFreeSeq(b)
    decreases a, 0
  {
    if a != [] {
      EqualIsNanFree(a[0], b[0]);
      EqualSeqIsNanFree(a[1..], b[1..]);
    }
  }

  lemma {:induction false} EqualFieldsIsNanFree(a: seq<Field>, b: seq<Field>)
    requires EqualFields(a, b)
    ensures NanFreeFields(a) && NanFreeFields(b)
    decreases a, 0
  {
    if a != [] {
      EqualIsNanFree(a[0].v, b[0].v);
      EqualFieldsIsNanFree(a[1..], b[1..]);
    }
  }
}
