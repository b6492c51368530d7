/** JSON values as json11 stores them, and the comparison operators of class Json. */
module JsonValue {
  import opened Bytes

  /** An IEEE double, finite values taken as exact reals; Finite(0.0) is the positive zero. */
  datatype Double = Finite(v: real) | NegZero | PosInf | NegInf | NaN

  /** The two number wrappers: JsonInt and JsonDouble. */
  datatype Num = Int(i: int) | Dbl(d: Double)

  datatype Json =
    | Null
    | Number(n: Num)
    | Bool(b: bool)
    | String(str: bytes)
    | Array(items: seq<Json>)
    | Object(fields: seq<Field>)

  /** One entry of a std::map<string, Json>; the map is its entries in key order. */
  datatype Field = Field(key: bytes, v: Json)

  /** The type tags of enum Type, in declaration order. */
  function Tag(a: Json): nat {
    match a
    case Null => 0
    case Number(_) => 1
    case Bool(_) => 2
    case String(_) => 3
    case Array(_) => 4
    case Object(_) => 5
  }

  function NumberValue(n: Num): Double {
    match n
    case Int(i) => Finite(i as real)
    case Dbl(d) => d
  }

  /** The two zeros compare as one. */
  function Compared(d: Double): Double {
    if d.NegZero? then Finite(0.0) else d
  }

  /** The IEEE == and < on doubles: a NaN is neither equal to nor below anything. */
  predicate DoubleEqual(a: Double, b: Double) {
    !a.NaN? && Compared(a) == Compared(b)
  }

  predicate DoubleLess(a: Double, b: Double) {
    match Compared(a)
    case NaN => false
    case NegInf => Compared(b).Finite? || b.PosInf?
    case PosInf => false
    case Finite(v) => b.PosInf? || (Compared(b).Finite? && v < Compared(b).v)
  }

  /** std::string's operator<: lexicographic by unsigned byte. */
  predicate BytesLess(a: bytes, b: bytes) {
    if b == [] then false
    else if a == [] then true
    else if a[0] < b[0] then true
    else if b[0] < a[0] then false
    else BytesLess(a[1..], b[1..])
  }

  /** Json::operator==. */
  predicate Equal(a: Json, b: Json)
    decreases a, 1
  {
    if Tag(a) != Tag(b) then false
    else match a
      case Null => true
      case Number(n) => DoubleEqual(NumberValue(n), NumberValue(b.n))
      case Bool(x) => x == b.b
      case String(x) => x == b.str
      case Array(xs) => EqualSeq(xs, b.items)
      case Object(fs) => EqualFields(fs, b.fields)
  }

  /** std::vector's operator==. */
  predicate EqualSeq(a: seq<Json>, b: seq<Json>)
    decreases a, 0
  {
    if |a| != |b| then false
    else a == [] || (Equal(a[0], b[0]) && EqualSeq(a[1..], b[1..]))
  }

  /** std::map's operator==. */
  predicate EqualFields(a: seq<Field>, b: seq<Field>)
    decreases a, 0
  {
    if |a| != |b| then false
    else a == [] || (a[0].key == b[0].key && Equal(a[0].v, b[0].v) && EqualFields(a[1..], b[1..]))
  }

  /** Node counts, the termination measure of operator<, which compares both ways round. */
  function Size(a: Json): nat
    decreases a, 1
  {
    1 + match a
        case Array(xs) => SizeSeq(xs)
        case Object(fs) => SizeFields(fs)
        case _ => 0
  }

  function SizeSeq(xs: seq<Json>): nat
    decreases xs, 0
  {
    if xs == [] then 0 else 1 + Size(xs[0]) + SizeSeq(xs[1..])
  }

  function SizeFields(fs: seq<Field>): nat
    decreases fs, 0
  {
    if fs == [] then 0 else 1 + Size(fs[0].v) + SizeFields(fs[1..])
  }

  /** Json::operator<. */
  predicate Less(a: Json, b: Json)
    decreases Size(a) + Size(b), 0
  {
    if Tag(a) != Tag(b) then Tag(a) < Tag(b)
    else match a
      case Null => false
      case Number(n) => DoubleLess(NumberValue(n), NumberValue(b.n))
      case Bool(x) => !x && b.b
      case String(x) => BytesLess(x, b.str)
      case Array(xs) => LessSeq(xs, b.items)
      case Object(fs) => LessFields(fs, b.fields)
  }

  /** std::vector's operator<: std::lexicographical_compare. */
  predicate LessSeq(a: seq<Json>, b: seq<Json>)
    decreases SizeSeq(a) + SizeSeq(b), 1
  {
    if b == [] then false
    else if a == [] then true
    else if Less(a[0], b[0]) then true
    else if Less(b[0], a[0]) then false
    else LessSeq(a[1..], b[1..])
  }

  /** std::map's operator<: std::lexicographical_compare over key/value pairs. */
  predicate LessFields(a: seq<Field>, b: seq<Field>)
    decreases SizeFields(a) + SizeFields(b), 1
  {
    if b == [] then false
    else if a == [] then true
    else if LessField(a[0], b[0]) then true
    else if LessField(b[0], a[0]) then false
    else LessFields(a[1..], b[1..])
  }

  /** std::pair's operator<. */
  predicate LessField(a: Field, b: Field)
    decreases Size(a.v) + Size(b.v), 2
  {
    BytesLess(a.key, b.key) || (!BytesLess(b.key, a.key) && Less(a.v, b.v))
  }

  /** The operators json11.hpp derives from == and <. */
  predicate NotEqual(a: Json, b: Json) { !Equal(a, b) }
  predicate LessOrEqual(a: Json, b: Json) { !Less(b, a) }
  predicate Greater(a: Json, b: Json) { Less(b, a) }
  predicate GreaterOrEqual(a: Json, b: Json) { !Less(a, b) }

  /** No number anywhere inside is a NaN. */
  predicate NanFree(a: Json)
    decreases a, 1
  {
    match a
    case Number(n) => !NumberValue(n).NaN?
    case Array(xs) => NanFreeSeq(xs)
    case Object(fs) => NanFreeFields(fs)
    case _ => true
  }

  predicate NanFreeSeq(xs: seq<Json>)
    decreases xs, 0
  {
    xs == [] || (NanFree(xs[0]) && NanFreeSeq(xs[1..]))
  }

  predicate NanFreeFields(fs: seq<Field>)
    decreases fs, 0
  {
    fs == [] || (NanFree(fs[0].v) && NanFreeFields(fs[1..]))
  }
}
