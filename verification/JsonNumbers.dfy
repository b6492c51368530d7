/**
 parse_number of json11.cpp against the number grammar of section 6 of RFC 8259. Decimal values are
 exact reals; rounding to double is not modelled.
 */
module JsonNumbers {
  import opened Bytes
  import opened JsonValue
  import opened JsonCursor

  /** std::numeric_limits<int>::digits10 for a 32-bit int. */
  const DIGITS10 := 9

  /** The end of a run of digits. */
  function SkipDigits(s: bytes, i: nat): (j: nat)
    requires i <= |s|
    ensures i <= j <= |s| && !IsDigit(At(s, j))
    decreases |s| - i
  {
    if IsDigit(At(s, i)) then SkipDigits(s, i + 1) else i
  }

  predicate IsE(b: byte) {
    b == 0x65 || b == 0x45
  }

  /** A number as the grammar splits it. */
  datatype NumTok = NumTok(neg: bool, whole: bytes, frac: Frac, exp: Exp)
  datatype Frac = NoFrac | Frac(digits: bytes)
  datatype Exp = NoExp | Exp(e: byte, sign: bytes, digits: bytes)

  predicate AllDigits(ds: bytes) {
    ds == [] || (IsDigit(ds[0]) && AllDigits(ds[1..]))
  }

  /** The grammar: no leading zero, and at least one digit in every part that is present. */
  predicate ValidNum(n: NumTok) {
    && n.whole != [] && AllDigits(n.whole) && (n.whole[0] == ZERO ==> |n.whole| == 1)
    && (n.frac.Frac? ==> n.frac.digits != [] && AllDigits(n.frac.digits))
    && ValidExp(n.exp)
  }

  predicate ValidExp(x: Exp) {
    x.Exp? ==>
      && x.digits != [] && AllDigits(x.digits)
      && IsE(x.e) && (x.sign == [] || x.sign == [PLUS] || x.sign == [MINUS])
  }

  function SignText(neg: bool): bytes {
    if neg then [MINUS] else []
  }

  function FracText(f: Frac): bytes {
    match f
    case NoFrac => []
    case Frac(ds) => [DOT] + ds
  }

  function ExpText(x: Exp): bytes {
    match x
    case NoExp => []
    case Exp(e, sign, ds) => [e] + sign + ds
  }

  function NumText(n: NumTok): bytes {
    SignText(n.neg) + n.whole + FracText(n.frac) + ExpText(n.exp)
  }

  function DigitValue(b: byte): nat {
    if b < ZERO then 0 else b - ZERO
  }

  /** A run of decimal digits as a number, most significant first. */
  function DigitsValue(ds: bytes): nat {
    if ds == [] then 0 else DigitsValue(ds[..|ds| - 1]) * 10 + DigitValue(ds[|ds| - 1])
  }

  function Pow10(k: nat): (p: real)
    ensures p > 0.0
  {
    if k == 0 then 1.0 else 10.0 * Pow10(k - 1)
  }

  function Scale(x: Exp): real {
    match x
    case NoExp => 1.0
    case Exp(_, sign, ds) => if sign == [MINUS] then 1.0 / Pow10(DigitsValue(ds)) else Pow10(DigitsValue(ds))
  }

  function WholeValue(n: NumTok): int {
    if n.neg then -(DigitsValue(n.whole) as int) else DigitsValue(n.whole)
  }

  /** The number a token denotes. */
  function Decimal(n: NumTok): real {
    var part := if n.frac.Frac? then DigitsValue(n.frac.digits) as real / Pow10(|n.frac.digits|) else 0.0;
    (WholeValue(n) as real + (if n.neg then -part else part)) * Scale(n.exp)
  }

  /** The double a token denotes: a minus sign on zero is kept. */
  function AsDouble(n: NumTok): Double {
    if n.neg && Decimal(n) == 0.0 then NegZero else Finite(Decimal(n))
  }

  /** The value the parser gives a token: an int when short and integral, else a double. */
  function TokenNumber(n: NumTok): Json {
    if n.frac.NoFrac? && n.exp.NoExp? && |NumText(n)| <= DIGITS10 then Number(Int(WholeValue(n)))
    else Number(Dbl(AsDouble(n)))
  }

  /** Where the exponent digits start, after the letter at i. */
  function ExpStart(s: bytes, i: nat): (k: nat)
    requires i < |s|
    ensures i < k <= |s|
  {
    if At(s, i + 1) == PLUS || At(s, i + 1) == MINUS then i + 2 else i + 1
  }

  /** What atoi and strtod see at a position: the longest number-shaped text there. */
  function Lex(s: bytes, i: nat): NumTok
    requires i <= |s|
  {
    var neg := At(s, i) == MINUS;
    var w := if neg then i + 1 else i;
    var we := SkipDigits(s, w);
    NumTok(neg, s[w..we], LexFrac(s, we), LexExp(s, FracEnd(s, we)))
  }

  function FracEnd(s: bytes, i: nat): (j: nat)
    requires i <= |s|
    ensures i <= j <= |s|
  {
    if At(s, i) == DOT then SkipDigits(s, i + 1) else i
  }

  function LexFrac(s: bytes, i: nat): Frac
    requires i <= |s|
  {
    if At(s, i) == DOT then Frac(s[i + 1..SkipDigits(s, i + 1)]) else NoFrac
  }

  function LexExp(s: bytes, i: nat): Exp
    requires i <= |s|
  {
    if IsE(At(s, i)) then
      var k := ExpStart(s, i);
      Exp(s[i], s[i + 1..k], s[k..SkipDigits(s, k)])
    else NoExp
  }

  function Atoi(s: bytes, i: nat): int
    requires i <= |s|
  {
    WholeValue(Lex(s, i))
  }

  function Strtod(s: bytes, i: nat): Double
    requires i <= |s|
  {
    AsDouble(Lex(s, i))
  }

  /** parse_number */
  function ParseNumber(s: bytes, c: Cursor): (r: (Json, Cursor))
    requires c.i <= |s|
    ensures Advances(s, c, r.1)
    ensures !r.1.failed ==> r.1.i > c.i
    ensures r.1.failed && !c.failed ==> r.0 == Null
  {
    var w := if At(s, c.i) == MINUS then c.i + 1 else c.i;
    if At(s, w) == ZERO then
      if IsDigit(At(s, w + 1)) then (Null, Fail(c.(i := w + 1), LeadingZero))
      else ParseFraction(s, c, w + 1)
    else if IsDigit(At(s, w)) then ParseFraction(s, c, SkipDigits(s, w + 1))
    else (Null, Fail(c.(i := w), InvalidNumber(At(s, w))))
  }

  /** parse_number after the integer part, which ends at i. */
  function ParseFraction(s: bytes, c: Cursor, i: nat): (r: (Json, Cursor))
    requires c.i < i <= |s|
    ensures Advances(s, c, r.1)
    ensures r.1.i > c.i
    ensures r.1.failed && !c.failed ==> r.0 == Null
  {
    if At(s, i) != DOT && !IsE(At(s, i)) && i - c.i <= DIGITS10 then
      (Number(Int(Atoi(s, c.i))), c.(i := i))
    else if At(s, i) == DOT then
      if !IsDigit(At(s, i + 1)) then (Null, Fail(c.(i := i + 1), NoFractionDigit))
      else ParseExponent(s, c, SkipDigits(s, i + 2))
    else ParseExponent(s, c, i)
  }

  /** parse_number after the fraction, which ends at i. */
  function ParseExponent(s: bytes, c: Cursor, i: nat): (r: (Json, Cursor))
    requires c.i < i <= |s|
    ensures Advances(s, c, r.1)
    ensures r.1.i > c.i
    ensures r.1.failed && !c.failed ==> r.0 == Null
  {
    if IsE(At(s, i)) then
      var k := ExpStart(s, i);
      if !IsDigit(At(s, k)) then (Null, Fail(c.(i := k), NoExponentDigit))
      else (Number(Dbl(Strtod(s, c.i))), c.(i := SkipDigits(s, k + 1)))
    else (Number(Dbl(Strtod(s, c.i))), c.(i := i))
  }

  /** The next character cannot continue a number. */
  predicate EndsNumber(b: byte) {
    !IsDigit(b) && b != DOT && !IsE(b)
  }

  lemma {:induction false} DigitsRun(s: bytes, i: nat, ds: bytes)
    requires AllDigits(ds) && Match(s, i, ds) && !IsDigit(At(s, i + |ds|))
    ensures SkipDigits(s, i) == i + |ds|
    decreases |ds|
  {
    if ds != [] {
      MatchAt(s, i, ds, 0);
      assert ds == [ds[0]] + ds[1..];
      MatchSplit(s, i, [ds[0]], ds[1..]);
      DigitsRun(s, i + 1, ds[1..]);
    }
  }

  lemma {:induction false} DigitsRunIsDigits(s: bytes, i: nat)
    requires i <= |s|
    ensures AllDigits(s[i..SkipDigits(s, i)])
    decreases |s| - i
  {
    if IsDigit(At(s, i)) {
      DigitsRunIsDigits(s, i + 1);
      assert s[i..SkipDigits(s, i)][1..] == s[i + 1..SkipDigits(s, i)];
    }
  }

  /** A digit run is where it starts plus its length. */
  lemma RunAt(s: bytes, i: nat, ds: bytes)
    requires AllDigits(ds) && Match(s, i, ds) && !IsDigit(At(s, i + |ds|))
    ensures SkipDigits(s, i) == i + |ds| && s[i..i + |ds|] == ds
    ensures ds != [] ==> IsDigit(At(s, i)) && At(s, i) == ds[0] && SkipDigits(s, i + 1) == i + |ds|
  {
    DigitsRun(s, i, ds);
    if ds != [] {
      MatchAt(s, i, ds, 0);
    }
  }

  lemma FracRead(s: bytes, i: nat, f: Frac)
    requires f.Frac? ==> f.digits != [] && AllDigits(f.digits)
    requires Match(s, i, FracText(f)) && !IsDigit(At(s, i + |FracText(f)|)) && At(s, i + |FracText(f)|) != DOT
    ensures LexFrac(s, i) == f && FracEnd(s, i) == i + |FracText(f)|
    ensures f.Frac? ==> At(s, i) == DOT && IsDigit(At(s, i + 1)) && SkipDigits(s, i + 2) == i + |FracText(f)|
  {
    if f.Frac? {
      MatchAt(s, i, FracText(f), 0);
      MatchSplit(s, i, [DOT], f.digits);
      RunAt(s, i + 1, f.digits);
    }
  }

  lemma ExpSignRead(s: bytes, i: nat, sign: bytes)
    requires i < |s| && Match(s, i + 1, sign) && IsDigit(At(s, i + 1 + |sign|))
    requires sign == [] || sign == [PLUS] || sign == [MINUS]
    ensures ExpStart(s, i) == i + 1 + |sign| && s[i + 1..i + 1 + |sign|] == sign
  {
    if sign != [] {
      MatchAt(s, i + 1, sign, 0);
    }
  }

  lemma ExpParts(s: bytes, i: nat, x: Exp)
    requires x.Exp? && x.digits != [] && Match(s, i, ExpText(x))
    ensures s[i] == x.e && Match(s, i + 1, x.sign) && Match(s, i + 1 + |x.sign|, x.digits)
    ensures |ExpText(x)| == 1 + |x.sign| + |x.digits|
  {
    MatchAt(s, i, ExpText(x), 0);
    assert ExpText(x) == [x.e] + (x.sign + x.digits);
    MatchSplit(s, i, [x.e], x.sign + x.digits);
    MatchSplit(s, i + 1, x.sign, x.digits);
  }

  lemma ExpRead(s: bytes, i: nat, x: Exp)
    requires ValidExp(x) && Match(s, i, ExpText(x)) && EndsNumber(At(s, i + |ExpText(x)|))
    ensures LexExp(s, i) == x
    ensures IsE(At(s, i)) <==> x.Exp?
    ensures x.Exp? ==>
              && ExpStart(s, i) < |s| && IsDigit(At(s, ExpStart(s, i)))
              && SkipDigits(s, ExpStart(s, i) + 1) == i + |ExpText(x)|
  {
    hide Match, AllDigits, SkipDigits, ExpStart;
    if x.Exp? {
      ExpParts(s, i, x);
      var k := i + 1 + |x.sign|;
      RunAt(s, k, x.digits);
      ExpSignRead(s, i, x.sign);
    }
  }

  /** The grammar's token, split at the boundaries the scanner stops at. */
  lemma NumberParts(s: bytes, i: nat, n: NumTok)
    requires Match(s, i, NumText(n))
    ensures var w := i + |SignText(n.neg)|;
            var f := w + |n.whole|;
            var x := f + |FracText(n.frac)|;
            && Match(s, i, SignText(n.neg)) && Match(s, w, n.whole) && Match(s, f, FracText(n.frac))
            && Match(s, x, ExpText(n.exp)) && x + |ExpText(n.exp)| == i + |NumText(n)|
  {
    hide Match, FracText, ExpText, SignText;
    var a, b, d, e := SignText(n.neg), n.whole, FracText(n.frac), ExpText(n.exp);
    MatchSplit(s, i, a + b + d, e);
    MatchSplit(s, i, a + b, d);
    MatchSplit(s, i, a, b);
  }

  lemma WholeRead(s: bytes, i: nat, n: NumTok)
    requires ValidNum(n) && Match(s, i, SignText(n.neg)) && Match(s, i + |SignText(n.neg)|, n.whole)
    requires !IsDigit(At(s, i + |SignText(n.neg)| + |n.whole|))
    ensures n.neg <==> At(s, i) == MINUS
    ensures var w := i + |SignText(n.neg)|;
            && SkipDigits(s, w) == w + |n.whole| && s[w..w + |n.whole|] == n.whole
            && IsDigit(At(s, w)) && SkipDigits(s, w + 1) == w + |n.whole|
            && (At(s, w) == ZERO ==> |n.whole| == 1)
  {
    RunAt(s, i + |SignText(n.neg)|, n.whole);
    if n.neg {
      MatchAt(s, i, [MINUS], 0);
    }
  }

  /** After the parts before it, the next character starts the next part or ends the number. */
  lemma PartStarts(s: bytes, n: NumTok, f: nat)
    requires ValidNum(n) && Match(s, f, FracText(n.frac))
    requires var x := f + |FracText(n.frac)|;
             Match(s, x, ExpText(n.exp)) && EndsNumber(At(s, x + |ExpText(n.exp)|))
    ensures !IsDigit(At(s, f)) && (n.frac.Frac? <==> At(s, f) == DOT)
    ensures var x := f + |FracText(n.frac)|;
            !IsDigit(At(s, x)) && At(s, x) != DOT && (n.exp.Exp? <==> IsE(At(s, x)))
  {
    if n.exp.Exp? {
      MatchAt(s, f + |FracText(n.frac)|, ExpText(n.exp), 0);
    }
    if n.frac.Frac? {
      MatchAt(s, f, FracText(n.frac), 0);
    }
  }

  /** What the scanner finds at the end f of the digits, x of the fraction and e of the exponent of token n. */
  predicate Boundaries(s: bytes, i: nat, f: nat, x: nat, e: nat, n: NumTok) {
    && i < f <= x <= e <= |s| && n == Lex(s, i)
    && (var w := if n.neg then i + 1 else i;
        && n.neg == (At(s, i) == MINUS)
        && IsDigit(At(s, w)) && w < |s| && SkipDigits(s, w + 1) == f && (At(s, w) == ZERO ==> f == w + 1))
    && !IsDigit(At(s, f)) && n.frac.Frac? == (At(s, f) == DOT)
    && (if n.frac.Frac? then f < |s| && IsDigit(At(s, f + 1)) && f + 1 < |s| && SkipDigits(s, f + 2) == x else x == f)
    && n.exp.Exp? == IsE(At(s, x))
    && (if n.exp.Exp? then
          x < |s| && ExpStart(s, x) < |s| && IsDigit(At(s, ExpStart(s, x))) && SkipDigits(s, ExpStart(s, x) + 1) == e
        else e == x)
    && e - i == |NumText(n)|
  }

  lemma ParsedAtBoundaries(s: bytes, c: Cursor, f: nat, x: nat, e: nat, n: NumTok)
    requires Boundaries(s, c.i, f, x, e, n)
    ensures ParseNumber(s, c) == (TokenNumber(n), c.(i := e)) && e == c.i + |NumText(n)|
  {
    hide Lex, NumText, AsDouble, WholeValue, SkipDigits, ExpStart;
  }

  lemma Located(s: bytes, i: nat, n: NumTok)
    requires ValidNum(n) && Match(s, i, NumText(n)) && EndsNumber(At(s, i + |NumText(n)|))
    ensures var f := i + |SignText(n.neg)| + |n.whole|;
            var x := f + |FracText(n.frac)|;
            Boundaries(s, i, f, x, x + |ExpText(n.exp)|, n)
  {
    hide Match, FracText, ExpText, AllDigits, SkipDigits, LexFrac, LexExp, FracEnd, ExpStart, SignText;
    var w := i + |SignText(n.neg)|;
    var f := w + |n.whole|;
    var x := f + |FracText(n.frac)|;
    NumberParts(s, i, n);
    PartStarts(s, n, f);
    WholeRead(s, i, n);
    FracRead(s, f, n.frac);
    ExpRead(s, x, n.exp);
    TextLengths(n);
  }

  lemma TextLengths(n: NumTok)
    ensures |SignText(n.neg)| == if n.neg then 1 else 0
    ensures n.frac.NoFrac? ==> |FracText(n.frac)| == 0
    ensures n.exp.NoExp? ==> |ExpText(n.exp)| == 0
  {
  }

  /** A token of the grammar, not continued by the next character, is read whole and given its value. */
  lemma NumberRead(s: bytes, c: Cursor, n: NumTok)
    requires ValidNum(n) && Match(s, c.i, NumText(n)) && EndsNumber(At(s, c.i + |NumText(n)|))
    ensures ParseNumber(s, c) == (TokenNumber(n), c.(i := c.i + |NumText(n)|))
  {
    hide Boundaries, ParseNumber, TokenNumber, FracText, ExpText, SignText, Match;
    Located(s, c.i, n);
    var f := c.i + |SignText(n.neg)| + |n.whole|;
    var x := f + |FracText(n.frac)|;
    ParsedAtBoundaries(s, c, f, x, x + |ExpText(n.exp)|, n);
  }

  /** When parse_number succeeds, what stands there is a token of the grammar. */
  lemma LexedIsToken(s: bytes, c: Cursor)
    requires c.i <= |s| && !c.failed && !ParseNumber(s, c).1.failed
    ensures var n := Lex(s, c.i);
            ValidNum(n) && Match(s, c.i, NumText(n))
  {
    hide Match, FracText, ExpText, AllDigits, LexFrac, LexExp, SignText, SkipDigits, ParseNumber, FracEnd;
    hide ExpStart, TokenNumber;
    var n := Lex(s, c.i);
    var w := if n.neg then c.i + 1 else c.i;
    var f := SkipDigits(s, w);
    PartsSucceed(s, c);
    WholeWritten(s, c.i);
    FracWritten(s, f);
    ExpWritten(s, FracEnd(s, f));
    TextLengths(n);
    NumberJoined(s, c.i, n);
    MatchSelf(s, w, f);
  }

  lemma LexFields(s: bytes, i: nat)
    requires i <= |s|
    ensures var n := Lex(s, i);
            var f := SkipDigits(s, if n.neg then i + 1 else i);
            && n.neg == (At(s, i) == MINUS) && n.frac == LexFrac(s, f) && n.exp == LexExp(s, FracEnd(s, f))
            && |n.whole| == f - (if n.neg then i + 1 else i)
            && |NumText(n)| == (if n.neg then 1 else 0) + |n.whole| + |FracText(n.frac)| + |ExpText(n.exp)|
  {
  }

  lemma LexedBoundaries(s: bytes, c: Cursor)
    requires c.i <= |s| && !c.failed && !ParseNumber(s, c).1.failed
    ensures var n := Lex(s, c.i);
            var f := SkipDigits(s, if n.neg then c.i + 1 else c.i);
            var x := FracEnd(s, f);
            Boundaries(s, c.i, f, x, x + |ExpText(n.exp)|, n)
  {
    hide Lex, LexFrac, LexExp, FracEnd, NumText, Match, AllDigits, ParseNumber, ExpStart, SkipDigits, ExpText, FracText;
    LexFields(s, c.i);
    var n := Lex(s, c.i);
    var w := if n.neg then c.i + 1 else c.i;
    var f := SkipDigits(s, w);
    PartsSucceed(s, c);
    FracWritten(s, f);
    ExpWritten(s, FracEnd(s, f));
    TextLengths(n);
  }

  /** The converse: when parse_number succeeds it has read a token of the grammar, and this is its value. */
  lemma NumberWritten(s: bytes, c: Cursor) returns (n: NumTok)
    requires c.i <= |s| && !c.failed && !ParseNumber(s, c).1.failed
    ensures ValidNum(n) && Match(s, c.i, NumText(n))
    ensures ParseNumber(s, c) == (TokenNumber(n), c.(i := c.i + |NumText(n)|))
  {
    hide Lex, Match, NumText, ExpText, TokenNumber, SkipDigits, FracEnd, ParseNumber, Boundaries, ValidNum;
    n := Lex(s, c.i);
    LexedIsToken(s, c);
    LexedBoundaries(s, c);
    var f := SkipDigits(s, if n.neg then c.i + 1 else c.i);
    var x := FracEnd(s, f);
    ParsedAtBoundaries(s, c, f, x, x + |ExpText(n.exp)|, n);
  }

  lemma NumberJoined(s: bytes, i: nat, n: NumTok)
    requires var w := i + |SignText(n.neg)|;
             var f := w + |n.whole|;
             var x := f + |FracText(n.frac)|;
             && Match(s, i, SignText(n.neg)) && Match(s, w, n.whole) && Match(s, f, FracText(n.frac))
             && Match(s, x, ExpText(n.exp))
    ensures Match(s, i, NumText(n))
  {
    hide Match, FracText, ExpText, SignText;
    var a, b, d, e := SignText(n.neg), n.whole, FracText(n.frac), ExpText(n.exp);
    MatchSplit(s, i, a, b);
    MatchSplit(s, i, a + b, d);
    MatchSplit(s, i, a + b + d, e);
  }

  /** parse_number succeeds only past a digit in every part it enters. */
  lemma PartsSucceed(s: bytes, c: Cursor)
    requires c.i <= |s| && !c.failed && !ParseNumber(s, c).1.failed
    ensures var w := if At(s, c.i) == MINUS then c.i + 1 else c.i;
            var f := SkipDigits(s, w);
            var x := FracEnd(s, f);
            && IsDigit(At(s, w)) && w < |s| && SkipDigits(s, w + 1) == f && (At(s, w) == ZERO ==> f == w + 1)
            && (At(s, f) == DOT ==> f + 1 < |s| && IsDigit(At(s, f + 1)) && x == SkipDigits(s, f + 2))
            && (IsE(At(s, x)) ==> ExpStart(s, x) < |s| && IsDigit(At(s, ExpStart(s, x))))
  {
    hide Atoi, Strtod, Advances;
    var w := if At(s, c.i) == MINUS then c.i + 1 else c.i;
    assert SkipDigits(s, w) == if At(s, w) == ZERO then w + 1 else SkipDigits(s, w + 1);
  }

  lemma WholeWritten(s: bytes, i: nat)
    requires i <= |s|
    ensures var w := if At(s, i) == MINUS then i + 1 else i;
            && Match(s, i, SignText(At(s, i) == MINUS)) && Match(s, w, s[w..SkipDigits(s, w)])
            && AllDigits(s[w..SkipDigits(s, w)])
  {
    hide AllDigits, SkipDigits, Match;
    var w := if At(s, i) == MINUS then i + 1 else i;
    DigitsRunIsDigits(s, w);
    MatchSelf(s, w, SkipDigits(s, w));
    MatchSelf(s, i, w);
    assert s[i..w] == SignText(At(s, i) == MINUS);
  }

  lemma FracWritten(s: bytes, f: nat)
    requires f <= |s|
    ensures var frac := LexFrac(s, f);
            && Match(s, f, FracText(frac)) && FracEnd(s, f) == f + |FracText(frac)|
            && (frac.Frac? ==> AllDigits(frac.digits) && (frac.digits != [] <==> IsDigit(At(s, f + 1))))
            && (frac.Frac? <==> At(s, f) == DOT)
            && (frac.Frac? && frac.digits != [] ==> FracEnd(s, f) == SkipDigits(s, f + 2))
  {
    if At(s, f) == DOT {
      DigitsRunIsDigits(s, f + 1);
      var ds := s[f + 1..SkipDigits(s, f + 1)];
      MatchSplit(s, f, [DOT], ds);
    }
  }

  lemma ExpWritten(s: bytes, x: nat)
    requires x <= |s|
    ensures var e := LexExp(s, x);
            && Match(s, x, ExpText(e))
            && (e.Exp? <==> IsE(At(s, x)))
            && (e.Exp? && IsDigit(At(s, ExpStart(s, x))) ==>
                  ValidExp(e) && SkipDigits(s, ExpStart(s, x) + 1) == x + |ExpText(e)|)
  {
    hide AllDigits, Match;
    MatchSelf(s, x, x);
    assert s[x..x] == [];
    if IsE(At(s, x)) {
      var k := ExpStart(s, x);
      DigitsRunIsDigits(s, k);
      var sign, ds := s[x + 1..k], s[k..SkipDigits(s, k)];
      MatchOne(s, x, s[x]);
      MatchSelf(s, x + 1, k);
      MatchSelf(s, k, SkipDigits(s, k));
      MatchSplit(s, x, [s[x]], sign);
      MatchSplit(s, x, [s[x]] + sign, ds);
      if At(s, x + 1) == PLUS || At(s, x + 1) == MINUS {
        assert sign == [s[x + 1]];
      } else {
        assert sign == [];
      }
    }
  }
}
