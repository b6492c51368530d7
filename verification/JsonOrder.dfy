/**
 Json::operator< is a strict total order that agrees with Json::operator==, on every value without
 a NaN. The reference is a three-way comparison that recurses once; the source's operator< calls
 itself in both directions.
 */
module JsonOrder {
  import opened Bytes
  import opened JsonValue

  function Sign(x: int): int {
    if x < 0 then -1 else if x == 0 then 0 else 1
  }

  function Rank(d: Double): int {
    match d
    case NegInf => 0
    case Finite(_) => 1
    case NegZero => 1
    case PosInf => 2
    case NaN => 3
  }

  function CompareDouble(a: Double, b: Double): int {
    var x, y := Compared(a), Compared(b);
    if x.Finite? && y.Finite? then
      if x.v < y.v then -1 else if x.v == y.v then 0 else 1
    else Sign(Rank(a) - Rank(b))
  }

  function CompareBytes(a: bytes, b: bytes): int {
    if a == [] then (if b == [] then 0 else -1)
    else if b == [] then 1
    else if a[0] != b[0] then (if a[0] < b[0] then -1 else 1)
    else CompareBytes(a[1..], b[1..])
  }

  function Compare(a: Json, b: Json): int
    decreases a, 1
  {
    if Tag(a) != Tag(b) then Sign(Tag(a) - Tag(b))
    else match a
      case Null => 0
      case Number(n) => CompareDouble(NumberValue(n), NumberValue(b.n))
      case Bool(x) => if x == b.b then 0 else if x then 1 else -1
      case String(x) => CompareBytes(x, b.str)
      case Array(xs) => CompareSeq(xs, b.items)
      case Object(fs) => CompareFields(fs, b.fields)
  }

  function CompareSeq(a: seq<Json>, b: seq<Json>): int
    decreases a, 0
  {
    if a == [] then (if b == [] then 0 else -1)
    else if b == [] then 1
    else
      var c := Compare(a[0], b[0]);
      if c != 0 then c else CompareSeq(a[1..], b[1..])
  }

  function CompareFields(a: seq<Field>, b: seq<Field>): int
    decreases a, 0
  {
    if a == [] then (if b == [] then 0 else -1)
    else if b == [] then 1
    else
      var k := CompareBytes(a[0].key, b[0].key);
      if k != 0 then k
      else
        var c := Compare(a[0].v, b[0].v);
        if c != 0 then c else CompareFields(a[1..], b[1..])
  }

  lemma {:induction false} BytesAgree(a: bytes, b: bytes)
    ensures BytesLess(a, b) <==> CompareBytes(a, b) < 0
    ensures a == b <==> CompareBytes(a, b) == 0
    ensures CompareBytes(b, a) == -CompareBytes(a, b)
  {
    if a != [] && b != [] {
      BytesAgree(a[1..], b[1..]);
      assert a == [a[0]] + a[1..] && b == [b[0]] + b[1..];
    }
  }

  lemma {:induction false} BytesTransitive(a: bytes, b: bytes, c: bytes)
    requires CompareBytes(a, b) <= 0 && CompareBytes(b, c) <= 0
    ensures CompareBytes(a, c) <= 0
    ensures CompareBytes(a, c) == 0 <==> CompareBytes(a, b) == 0 && CompareBytes(b, c) == 0
  {
    if a != [] && b != [] && c != [] && a[0] == b[0] == c[0] {
      BytesTransitive(a[1..], b[1..], c[1..]);
    }
  }

  /** The source's two operators are the two halves of the three-way comparison. */
  lemma {:induction false} OperatorsAgree(a: Json, b: Json)
    requires NanFree(a) && NanFree(b)
    ensures Less(a, b) <==> Compare(a, b) < 0
    ensures Equal(a, b) <==> Compare(a, b) == 0
    ensures Compare(b, a) == -Compare(a, b)
    decreases Size(a) + Size(b), 0
  {
    if Tag(a) == Tag(b) {
      match a {
        case String(x) => BytesAgree(x, b.str);
        case Array(xs) => OperatorsAgreeSeq(xs, b.items);
        case Object(fs) => OperatorsAgreeFields(fs, b.fields);
        case _ =>
      }
    }
  }

  lemma {:induction false} OperatorsAgreeSeq(a: seq<Json>, b: seq<Json>)
    requires NanFreeSeq(a) && NanFreeSeq(b)
    ensures LessSeq(a, b) <==> CompareSeq(a, b) < 0
    ensures EqualSeq(a, b) <==> CompareSeq(a, b) == 0
    ensures CompareSeq(b, a) == -CompareSeq(a, b)
    decreases SizeSeq(a) + SizeSeq(b), 1
  {
    if a != [] && b != [] {
      OperatorsAgree(a[0], b[0]);
      OperatorsAgree(b[0], a[0]);
      OperatorsAgreeSeq(a[1..], b[1..]);
      if |a| != |b| {
        LengthsDiffer(a, b);
      }
    }
  }

  lemma {:induction false} LengthsDiffer(a: seq<Json>, b: seq<Json>)
    requires |a| != |b|
    ensures CompareSeq(a, b) != 0
    decreases |a|
  {
    if a != [] && b != [] {
      LengthsDiffer(a[1..], b[1..]);
    }
  }

  lemma {:induction false} OperatorsAgreeFields(a: seq<Field>, b: seq<Field>)
    requires NanFreeFields(a) && NanFreeFields(b)
    ensures LessFields(a, b) <==> CompareFields(a, b) < 0
    ensures EqualFields(a, b) <==> CompareFields(a, b) == 0
    ensures CompareFields(b, a) == -CompareFields(a, b)
    decreases SizeFields(a) + SizeFields(b), 1
  {
    if a != [] && b != [] {
      BytesAgree(a[0].key, b[0].key);
      BytesAgree(b[0].key, a[0].key);
      OperatorsAgree(a[0].v, b[0].v);
      OperatorsAgree(b[0].v, a[0].v);
      OperatorsAgreeFields(a[1..], b[1..]);
      if |a| != |b| {
        FieldCountsDiffer(a, b);
      }
    }
  }

  lemma {:induction false} FieldCountsDiffer(a: seq<Field>, b: seq<Field>)
    requires |a| != |b|
    ensures CompareFields(a, b) != 0
    decreases |a|
  {
    if a != [] && b != [] {
      FieldCountsDiffer(a[1..], b[1..]);
    }
  }

  lemma {:induction false} CompareTransitive(a: Json, b: Json, c: Json)
    requires Compare(a, b) <= 0 && Compare(b, c) <= 0
    ensures Compare(a, c) <= 0
    ensures Compare(a, c) == 0 <==> Compare(a, b) == 0 && Compare(b, c) == 0
    decreases a, 1
  {
    if Tag(a) == Tag(b) == Tag(c) {
      match a {
        case String(x) => BytesTransitive(x, b.str, c.str);
        case Array(xs) => CompareSeqTransitive(xs, b.items, c.items);
        case Object(fs) => CompareFieldsTransitive(fs, b.fields, c.fields);
        case _ =>
      }
    }
  }

  lemma {:induction false} CompareSeqTransitive(a: seq<Json>, b: seq<Json>, c: seq<Json>)
    requires CompareSeq(a, b) <= 0 && CompareSeq(b, c) <= 0
    ensures CompareSeq(a, c) <= 0
    ensures CompareSeq(a, c) == 0 <==> CompareSeq(a, b) == 0 && CompareSeq(b, c) == 0
    decreases a, 0
  {
    if a != [] && b != [] && c != [] {
      CompareTransitive(a[0], b[0], c[0]);
      if Compare(a[0], b[0]) == 0 && Compare(b[0], c[0]) == 0 {
        CompareSeqTransitive(a[1..], b[1..], c[1..]);
      }
    }
  }

  lemma {:induction false} CompareFieldsTransitive(a: seq<Field>, b: seq<Field>, c: seq<Field>)
    requires CompareFields(a, b) <= 0 && CompareFields(b, c) <= 0
    ensures CompareFields(a, c) <= 0
    ensures CompareFields(a, c) == 0 <==> CompareFields(a, b) == 0 && CompareFields(b, c) == 0
    decreases a, 0
  {
    if a != [] && b != [] && c != [] {
      BytesTransitive(a[0].key, b[0].key, c[0].key);
      if CompareBytes(a[0].key, b[0].key) == 0 && CompareBytes(b[0].key, c[0].key) == 0 {
        CompareTransitive(a[0].v, b[0].v, c[0].v);
        if Compare(a[0].v, b[0].v) == 0 && Compare(b[0].v, c[0].v) == 0 {
          CompareFieldsTransitive(a[1..], b[1..], c[1..]);
        }
      }
    }
  }

  /** Exactly one of a < b, a == b, b < a, for any two values without a NaN. */
  lemma Trichotomy(a: Json, b: Json)
    requires NanFree(a) && NanFree(b)
    ensures Less(a, b) || Equal(a, b) || Less(b, a)
    ensures !(Less(a, b) && Equal(a, b)) && !(Less(a, b) && Less(b, a)) && !(Equal(a, b) && Less(b, a))
    ensures Equal(a, b) <==> Equal(b, a)
  {
    OperatorsAgree(a, b);
    OperatorsAgree(b, a);
  }

  /** operator< is transitive, and operator== may replace either side of it. */
  lemma LessIsTransitive(a: Json, b: Json, c: Json)
    requires NanFree(a) && NanFree(b) && NanFree(c)
    ensures Less(a, b) && Less(b, c) ==> Less(a, c)
    ensures Equal(a, b) && Equal(b, c) ==> Equal(a, c)
    ensures Less(a, b) && Equal(b, c) ==> Less(a, c)
    ensures Equal(a, b) && Less(b, c) ==> Less(a, c)
  {
    OperatorsAgree(a, b);
    OperatorsAgree(b, c);
    OperatorsAgree(a, c);
    if Compare(a, b) <= 0 && Compare(b, c) <= 0 {
      CompareTransitive(a, b, c);
    }
  }

  /** The derived operators are the order they are named after: <= is "less or equal", and so on. */
  lemma DerivedOperators(a: Json, b: Json)
    requires NanFree(a) && NanFree(b)
    ensures LessOrEqual(a, b) <==> Less(a, b) || Equal(a, b)
    ensures GreaterOrEqual(a, b) <==> Greater(a, b) || Equal(a, b)
    ensures NotEqual(a, b) <==> Less(a, b) || Greater(a, b)
  {
    Trichotomy(a, b);
  }

  /** A value equals itself exactly when it has no NaN inside, so the NaN condition cannot be dropped. */
  lemma {:induction false} ReflexiveIffNanFree(a: Json)
    ensures Equal(a, a) <==> NanFree(a)
    decreases a, 1
  {
    match a {
      case Array(xs) => ReflexiveSeqIffNanFree(xs);
      case Object(fs) => ReflexiveFieldsIffNanFree(fs);
      case _ =>
    }
  }

  lemma {:induction false} ReflexiveSeqIffNanFree(xs: seq<Json>)
    ensures EqualSeq(xs, xs) <==> NanFreeSeq(xs)
    decreases xs, 0
  {
    if xs != [] {
      ReflexiveIffNanFree(xs[0]);
      ReflexiveSeqIffNanFree(xs[1..]);
    }
  }

  lemma {:induction false} ReflexiveFieldsIffNanFree(fs: seq<Field>)
    ensures EqualFields(fs, fs) <==> NanFreeFields(fs)
    decreases fs, 0
  {
    if fs != [] {
      ReflexiveIffNanFree(fs[0].v);
      ReflexiveFieldsIffNanFree(fs[1..]);
    }
  }

  /** With a NaN on either side the order breaks down: none of a < b, a == b, b < a holds. */
  lemma NanBreaksTheOrder(x: Num)
    ensures var nan := Number(Dbl(NaN));
            !Less(nan, Number(x)) && !Equal(nan, Number(x)) && !Less(Number(x), nan)
  {
    assert forall d: Double :: !DoubleLess(d, NaN) && !DoubleLess(NaN, d) && !DoubleEqual(NaN, d);
  }
}
