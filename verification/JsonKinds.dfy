/** Which way operator< points: between values of different kinds, and at the first difference within a kind. */
module JsonKinds {
  import opened Bytes
  import opened JsonValue
  import opened JsonDecimal

  predicate SameKind(a: Json, b: Json) {
    || (a.Null? && b.Null?) || (a.Number? && b.Number?) || (a.Bool? && b.Bool?)
    || (a.String? && b.String?) || (a.Array? && b.Array?) || (a.Object? && b.Object?)
  }

  /** Null, then numbers, then bools, strings, arrays and objects. */
  predicate KindBefore(a: Json, b: Json) {
    || (a.Null? && !b.Null?)
    || (a.Number? && (b.Bool? || b.String? || b.Array? || b.Object?))
    || (a.Bool? && (b.String? || b.Array? || b.Object?))
    || (a.String? && (b.Array? || b.Object?))
    || (a.Array? && b.Object?)
  }

  /** Values of different kinds are never equal, and the kinds alone decide which is less. */
  lemma KindsDecide(a: Json, b: Json)
    requires !SameKind(a, b)
    ensures !Equal(a, b) && (Less(a, b) <==> KindBefore(a, b))
  {
  }

  /** Null is one value, false is below true, and numbers compare by what they denote, infinities at the ends. */
  lemma SmallKinds(x: bool, y: bool, a: Json, b: Json)
    requires IsReal(a) && IsReal(b)
    ensures Equal(Null, Null) && !Less(Null, Null)
    ensures Less(Bool(x), Bool(y)) <==> !x && y
    ensures Equal(Bool(x), Bool(y)) <==> x == y
    ensures Less(a, b) <==> RealOf(a) < RealOf(b)
    ensures Equal(a, b) <==> RealOf(a) == RealOf(b)
    ensures Less(Number(Dbl(NegInf)), a) && Less(a, Number(Dbl(PosInf)))
    ensures Less(Number(Dbl(NegInf)), Number(Dbl(PosInf)))
    ensures Equal(Number(Dbl(NegInf)), Number(Dbl(NegInf))) && Equal(Number(Dbl(PosInf)), Number(Dbl(PosInf)))
  {
  }

  /** Strings by their first different byte, a proper prefix being below its extensions. */
  lemma {:induction false} StringsByFirstDifference(p: bytes, x: byte, y: byte, q: bytes, r: bytes)
    requires x < y
    ensures Less(String(p + [x] + q), String(p + [y] + r)) && !Less(String(p + [y] + r), String(p + [x] + q))
    ensures Less(String(p), String(p + [x] + q)) && !Less(String(p + [x] + q), String(p))
  {
    if p != [] {
      assert (p + [x] + q)[1..] == p[1..] + [x] + q && (p + [y] + r)[1..] == p[1..] + [y] + r;
      StringsByFirstDifference(p[1..], x, y, q, r);
    }
  }

  /** operator< is irreflexive, NaNs or not. */
  lemma {:induction false} NotLessThanItself(a: Json)
    ensures !Less(a, a)
    decreases a, 1
  {
    match a {
      case String(x) => BytesNotLess(x);
      case Array(xs) => SeqNotLess(xs);
      case Object(fs) => FieldsNotLess(fs);
      case _ =>
    }
  }

  lemma {:induction false} BytesNotLess(x: bytes)
    ensures !BytesLess(x, x)
  {
    if x != [] {
      BytesNotLess(x[1..]);
    }
  }

  lemma {:induction false} SeqNotLess(xs: seq<Json>)
    ensures !LessSeq(xs, xs)
    decreases xs, 0
  {
    if xs != [] {
      NotLessThanItself(xs[0]);
      SeqNotLess(xs[1..]);
    }
  }

  lemma {:induction false} FieldsNotLess(fs: seq<Field>)
    ensures !LessFields(fs, fs)
    decreases fs, 0
  {
    if fs != [] {
      BytesNotLess(fs[0].key);
      NotLessThanItself(fs[0].v);
      FieldsNotLess(fs[1..]);
    }
  }

  /** Arrays by their first different element, a proper prefix being below its extensions. */
  lemma {:induction false} ArraysByFirstDifference(p: seq<Json>, x: Json, y: Json, q: seq<Json>, r: seq<Json>)
    requires Less(x, y)
    ensures Less(Array(p + [x] + q), Array(p + [y] + r))
    ensures Less(Array(p), Array(p + [x] + q)) && !Less(Array(p + [x] + q), Array(p))
    decreases |p|
  {
    if p != [] {
      NotLessThanItself(p[0]);
      assert (p + [x] + q)[1..] == p[1..] + [x] + q && (p + [y] + r)[1..] == p[1..] + [y] + r;
      ArraysByFirstDifference(p[1..], x, y, q, r);
    }
  }

  /** Objects by their first different entry, keys before values, a proper prefix being below its extensions. */
  lemma {:induction false} ObjectsByFirstDifference(p: seq<Field>, x: Field, y: Field, q: seq<Field>, r: seq<Field>)
    requires BytesLess(x.key, y.key) || (x.key == y.key && Less(x.v, y.v))
    ensures Less(Object(p + [x] + q), Object(p + [y] + r))
    ensures Less(Object(p), Object(p + [x] + q)) && !Less(Object(p + [x] + q), Object(p))
    decreases |p|
  {
    BytesNotLess(x.key);
    if p != [] {
      BytesNotLess(p[0].key);
      NotLessThanItself(p[0].v);
      assert (p + [x] + q)[1..] == p[1..] + [x] + q && (p + [y] + r)[1..] == p[1..] + [y] + r;
      ObjectsByFirstDifference(p[1..], x, y, q, r);
    }
  }
}
