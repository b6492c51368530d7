/** The number a text denotes, by shifting the point: what parse_number returns against the digits that were written. */
module JsonDecimal {
  import opened Bytes
  import opened JsonValue
  import opened JsonCursor
  import opened JsonNumbers

  function FracDigits(n: NumTok): bytes {
    if n.frac.Frac? then n.frac.digits else []
  }

  /** All the digits before the exponent, read as one integer with the token's sign. */
  function Mantissa(n: NumTok): int {
    if n.neg then -(DigitsValue(n.whole + FracDigits(n)) as int) else DigitsValue(n.whole + FracDigits(n))
  }

  /** The digits after a digit string count as so many places. */
  lemma {:induction false} DigitsJoin(a: bytes, b: bytes)
    ensures DigitsValue(a + b) as real == DigitsValue(a) as real * Pow10(|b|) + DigitsValue(b) as real
    decreases |b|
  {
    hide DigitValue, DigitsValue, Pow10;
    NoPlaces();
    if b == [] {
      assert a + b == a;
    } else {
      var n := |b| - 1;
      assert (a + b)[..|a| + n] == a + b[..n] && (a + b)[|a| + n] == b[n];
      LastDigit(a + b);
      LastDigit(b);
      NextPower(n);
      DigitsJoin(a, b[..n]);
      OneMoreDigit(DigitsValue(a + b[..n]), DigitsValue(b[..n]), DigitValue(b[n]), DigitsValue(a) as real, Pow10(n));
    }
  }

  lemma LastDigit(ds: bytes)
    requires ds != []
    ensures DigitsValue(ds) == DigitsValue(ds[..|ds| - 1]) * 10 + DigitValue(ds[|ds| - 1])
  {
  }

  lemma NextPower(k: nat)
    ensures Pow10(k + 1) == 10.0 * Pow10(k)
  {
  }

  lemma OneMoreDigit(whole: nat, tail: nat, d: nat, head: real, p: real)
    requires whole as real == head * p + tail as real
    ensures (whole * 10 + d) as real == head * (10.0 * p) + (tail * 10 + d) as real
  {
    assert (whole * 10 + d) as real == whole as real * 10.0 + d as real;
    assert (tail * 10 + d) as real == tail as real * 10.0 + d as real;
    assert head * (10.0 * p) == 10.0 * (head * p);
  }

  /** The part of a number before its exponent, shifted past the point, is its digits as an integer. */
  lemma PointShift(n: NumTok)
    requires n.exp.NoExp?
    ensures Decimal(n) * Pow10(|FracDigits(n)|) == Mantissa(n) as real
  {
    hide DigitsValue, Pow10;
    var w, f, p := DigitsValue(n.whole) as real, DigitsValue(FracDigits(n)) as real, Pow10(|FracDigits(n)|);
    DigitsJoin(n.whole, FracDigits(n));
    if n.frac.NoFrac? {
      NoPlaces();
    } else {
      PartShift(w, f, p);
    }
  }

  lemma NoPlaces()
    ensures DigitsValue([]) == 0 && Pow10(0) == 1.0
  {
  }

  lemma PartShift(w: real, f: real, p: real)
    requires p > 0.0
    ensures (w + f / p) * p == w * p + f && (-w + -(f / p)) * p == -(w * p + f)
  {
    assert f / p * p == f;
  }

  /** An exponent k multiplies the number by ten to the k, or divides it when its sign is a minus. */
  lemma ExponentShift(n: NumTok)
    requires n.exp.Exp?
    ensures var k, base := DigitsValue(n.exp.digits), Decimal(n.(exp := NoExp));
            if n.exp.sign == [MINUS] then Decimal(n) * Pow10(k) == base else Decimal(n) == base * Pow10(k)
  {
    hide DigitsValue, Pow10;
    var base, p := Decimal(n.(exp := NoExp)), Pow10(DigitsValue(n.exp.digits));
    assert base * (1.0 / p) * p == base;
  }

  // ---- as properties of what parse_number returns ----

  predicate IsReal(v: Json) {
    v.Number? && (v.n.Dbl? ==> v.n.d.Finite? || v.n.d.NegZero?)
  }

  /** The number a JSON value holds. */
  function RealOf(v: Json): real
    requires IsReal(v)
  {
    match v.n
    case Int(i) => i as real
    case Dbl(Finite(x)) => x
    case Dbl(_) => 0.0
  }

  function Places(n: NumTok): nat {
    |FracDigits(n)| + if n.exp.Exp? && n.exp.sign == [MINUS] then DigitsValue(n.exp.digits) else 0
  }

  function Zeros(n: NumTok): nat {
    if n.exp.Exp? && n.exp.sign != [MINUS] then DigitsValue(n.exp.digits) else 0
  }

  /**
   A number read from a text is the integer its digits spell, with as many zeros added and as many places cut
   off as fraction and exponent say; it is an int exactly when it is written in at most nine characters without
   either, and otherwise a double, which is the negative zero exactly for a zero with a minus sign.
   */
  lemma NumberMeans(s: bytes, c: Cursor, n: NumTok)
    requires ValidNum(n) && Match(s, c.i, NumText(n)) && EndsNumber(At(s, c.i + |NumText(n)|))
    ensures var v := ParseNumber(s, c).0;
            && IsReal(v)
            && RealOf(v) * Pow10(Places(n)) == Mantissa(n) as real * Pow10(Zeros(n))
            && (v.n.Int? <==> n.frac.NoFrac? && n.exp.NoExp? && |NumText(n)| <= 9)
            && (v.n.Dbl? ==> (v.n.d.NegZero? <==> n.neg && Mantissa(n) == 0))
  {
    hide DigitsValue, ParseNumber, Match, NumText, Pow10, ValidNum, EndsNumber, Mantissa, Places, Zeros;
    NumberRead(s, c, n);
    DecimalMeans(n);
    ZeroMeans(n);
    TokenMeans(n);
  }

  lemma DecimalMeans(n: NumTok)
    ensures Decimal(n) * Pow10(Places(n)) == Mantissa(n) as real * Pow10(Zeros(n))
  {
    hide DigitsValue, Pow10, Decimal;
    var base := n.(exp := NoExp);
    PointShift(base);
    assert Mantissa(base) == Mantissa(n);
    NoPlaces();
    if n.exp.Exp? {
      ExponentShift(n);
      var k, f := DigitsValue(n.exp.digits), |FracDigits(n)|;
      if n.exp.sign == [MINUS] {
        PowAdd(f, k);
        Regroup(Decimal(n), Pow10(k), Pow10(f));
      } else {
        Regroup(Decimal(base), Pow10(k), Pow10(f));
      }
    }
  }

  lemma Regroup(x: real, p: real, q: real)
    ensures x * p * q == x * (q * p) && x * p * q == x * q * p
  {
  }

  lemma {:induction false} PowAdd(a: nat, b: nat)
    ensures Pow10(a + b) == Pow10(a) * Pow10(b)
  {
    if a > 0 {
      PowAdd(a - 1, b);
      assert 10.0 * Pow10(a - 1) * Pow10(b) == 10.0 * (Pow10(a - 1) * Pow10(b));
    }
  }

  lemma ZeroMeans(n: NumTok)
    ensures Decimal(n) == 0.0 <==> Mantissa(n) == 0
  {
    hide DigitsValue, Pow10, Decimal, Mantissa, Places, Zeros;
    DecimalMeans(n);
    ZeroFactor(Decimal(n), Pow10(Places(n)));
    ZeroFactor(Mantissa(n) as real, Pow10(Zeros(n)));
  }

  lemma ZeroFactor(x: real, p: real)
    requires p > 0.0
    ensures x * p == 0.0 <==> x == 0.0
  {
    if x > 0.0 {
      assert x * p > 0.0;
    } else if x < 0.0 {
      assert x * p < 0.0;
    }
  }

  lemma TokenMeans(n: NumTok)
    ensures var v := TokenNumber(n);
            && IsReal(v)
            && RealOf(v) == Decimal(n)
            && (v.n.Int? <==> n.frac.NoFrac? && n.exp.NoExp? && |NumText(n)| <= 9)
            && (v.n.Dbl? ==> (v.n.d.NegZero? <==> n.neg && Decimal(n) == 0.0))
  {
    hide DigitsValue, Pow10, NumText;
  }
}
