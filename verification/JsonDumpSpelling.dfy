/** What dump writes, spelled out in characters, and that its strings are safe to embed. */
module JsonDumpSpelling {
  import opened Bytes
  import opened Ascii
  import opened JsonValue
  import opened JsonCursor
  import opened JsonDump
  import opened JsonSpelling

  /** Pieces with a separator between them. */
  function Join(parts: seq<bytes>, sep: bytes): bytes {
    if parts == [] then []
    else if |parts| == 1 then parts[0]
    else parts[0] + sep + Join(parts[1..], sep)
  }

  function Dumps(xs: seq<Json>): (parts: seq<bytes>)
    requires PrintableSeq(xs)
    ensures |parts| == |xs|
  {
    if xs == [] then [] else [Dump(xs[0])] + Dumps(xs[1..])
  }

  function Entries(fs: seq<Field>): (parts: seq<bytes>)
    requires PrintableFields(fs)
    ensures |parts| == |fs|
  {
    if fs == [] then [] else [DumpString(fs[0].key) + Text(": ") + Dump(fs[0].v)] + Entries(fs[1..])
  }

  lemma Separators()
    ensures Text(", ") == [COMMA, SPACE] && Text(": ") == [COLON, SPACE]
  {
  }

  lemma {:induction false} ItemsSpelled(xs: seq<Json>, first: bool)
    requires PrintableSeq(xs)
    ensures DumpItems(xs, first) == (if first || xs == [] then [] else Text(", ")) + Join(Dumps(xs), Text(", "))
    decreases |xs|
  {
    hide Text, Dump, Printable, Join;
    Separators();
    JoinNone(Text(", "));
    if xs != [] {
      ItemsSpelled(xs[1..], false);
      JoinFirst(Dump(xs[0]), Dumps(xs[1..]), Text(", "));
      Appended(if first then [] else Text(", "), Dump(xs[0]), Text(", "), Join(Dumps(xs[1..]), Text(", ")));
    }
  }

  lemma JoinNone(sep: bytes)
    ensures Join([], sep) == []
  {
  }

  lemma JoinFirst(part: bytes, parts: seq<bytes>, sep: bytes)
    ensures Join([part] + parts, sep) == if parts == [] then part else part + sep + Join(parts, sep)
  {
    assert ([part] + parts)[1..] == parts;
  }

  lemma Entry(sep: bytes, key: bytes, colon: bytes, v: bytes)
    ensures sep + key + colon + v == sep + (key + colon + v)
  {
  }

  lemma Appended(a: bytes, b: bytes, c: bytes, d: bytes)
    ensures a + b + (c + d) == a + (b + c + d) && a + b + ([] + []) == a + b
  {
  }

  lemma {:induction false} FieldsSpelled(fs: seq<Field>, first: bool)
    requires PrintableFields(fs)
    ensures DumpFields(fs, first) == (if first || fs == [] then [] else Text(", ")) + Join(Entries(fs), Text(", "))
    decreases |fs|
  {
    hide Text, Dump, DumpString, Printable, Join;
    Separators();
    JoinNone(Text(", "));
    if fs != [] {
      FieldsSpelled(fs[1..], false);
      var sep, e := if first then [] else Text(", "), DumpString(fs[0].key) + Text(": ") + Dump(fs[0].v);
      JoinFirst(e, Entries(fs[1..]), Text(", "));
      Entry(sep, DumpString(fs[0].key), Text(": "), Dump(fs[0].v));
      Appended(sep, e, Text(", "), Join(Entries(fs[1..]), Text(", ")));
    }
  }

  /** Every kind of value but numbers: names, quotes, brackets, and separators with a blank after them. */
  lemma DumpSpelled(v: Json)
    requires Printable(v)
    ensures v == Null ==> Dump(v) == Text("null")
    ensures v.Bool? ==> Dump(v) == if v.b then Text("true") else Text("false")
    ensures v.String? ==> Dump(v) == Text("\"") + EscapeFrom(v.str, 0) + Text("\"")
    ensures v.Array? ==> Dump(v) == Text("[") + Join(Dumps(v.items), Text(", ")) + Text("]")
    ensures v.Object? ==> Dump(v) == Text("{") + Join(Entries(v.fields), Text(", ")) + Text("}")
    ensures v.Number? && v.n.Int? ==> Dump(v) == IntText(v.n.i)
    ensures v.Number? && v.n.Dbl? && v.n.d.Finite? ==> Dump(v) == IntText(v.n.d.v.Floor)
    ensures v.Number? && v.n.Dbl? && (v.n.d.NaN? || v.n.d.PosInf? || v.n.d.NegInf?) ==> Dump(v) == Text("null")
    ensures v.Number? && v.n.Dbl? && v.n.d.NegZero? ==> Dump(v) == Text("-0")
  {
    hide Text, DumpItems, DumpFields, EscapeFrom, IntText;
    Punctuation();
    MinusZero();
    match v {
      case Array(xs) => ItemsSpelled(xs, true);
      case Object(fs) => FieldsSpelled(fs, true);
      case _ =>
    }
  }

  lemma MinusZero()
    ensures Text("-0") == [MINUS, ZERO]
  {
  }

  /** An integer is its decimal digits, most significant first, behind a minus sign when it is negative. */
  lemma {:induction false} DigitsSpell(n: nat)
    ensures n < 10 ==> DigitsOf(n) == [Ch("0123456789"[n])]
    ensures n >= 10 ==> DigitsOf(n) == DigitsOf(n / 10) + [Ch("0123456789"[n % 10])]
    ensures IntText(n) == DigitsOf(n) && (n > 0 ==> IntText(-(n as int)) == Text("-") + DigitsOf(n))
  {
    hide DigitsOf;
    assert Text("-") == [MINUS];
    DigitsStep(n);
  }

  lemma DigitsStep(n: nat)
    ensures DigitsOf(n) == if n < 10 then [ZERO + n] else DigitsOf(n / 10) + [ZERO + n % 10]
  {
  }

  /** One round of the string dump. */
  lemma EscapeSpelled(x: bytes, i: nat)
    requires i < |x|
    ensures var b := x[i];
            Escape(x, i)
            == if b == Ch('"') then Text("\\\"")
               else if b == Ch('\\') then Text("\\\\")
               else if b == 8 then Text("\\b")
               else if b == 12 then Text("\\f")
               else if b == Ch('\n') then Text("\\n")
               else if b == Ch('\r') then Text("\\r")
               else if b == Ch('\t') then Text("\\t")
               else if b < 32 then Text("\\u00") + [Ch("01"[b / 16]), Ch("0123456789abcdef"[b % 16])]
               else if [0xE2, 0x80, 0xA8] <= x[i..] then Text("\\u2028")
               else if [0xE2, 0x80, 0xA9] <= x[i..] then Text("\\u2029")
               else [b]
  {
  }

  // ---- safety of dumped strings ----

  /** No control character, and neither U+2028 nor U+2029 in UTF-8. */
  predicate Safe(t: bytes) {
    && (forall k :: 0 <= k < |t| ==> t[k] >= 0x20)
    && (forall k :: 0 <= k < |t| - 2 ==> !StartsSeparator(t[k..]))
  }

  predicate StartsSeparator(t: bytes) {
    |t| >= 3 && t[0] == 0xE2 && t[1] == 0x80 && (t[2] == 0xA8 || t[2] == 0xA9)
  }

  /** A dumped byte that starts no escape is the byte of the string itself, and the dump goes on behind it. */
  lemma FirstByte(x: bytes, i: nat)
    requires i < |x| && EscapeFrom(x, i) != [] && EscapeFrom(x, i)[0] != BACKSLASH
    ensures EscapeFrom(x, i) == [x[i]] + EscapeFrom(x, i + 1) && x[i] >= 0x20 && !IsLineSeparator(x, i)
  {
    hide Escape, IsLineSeparator;
    EscapeShape(x, i);
    assert EscapeFrom(x, i) == Escape(x, i) + EscapeFrom(x, i + Used(x, i));
    UsedOne(x, i);
  }

  lemma UsedOne(x: bytes, i: nat)
    requires i < |x|
    ensures !IsLineSeparator(x, i) ==> Used(x, i) == 1
  {
  }

  lemma EscapeShape(x: bytes, i: nat)
    requires i < |x|
    ensures Escape(x, i) != []
    ensures Escape(x, i)[0] == BACKSLASH || (Escape(x, i) == [x[i]] && x[i] >= 0x20 && !IsLineSeparator(x, i))
  {
    hide HexChar;
  }

  lemma EscapeStarts(x: bytes, i: nat)
    requires i < |x|
    ensures EscapeFrom(x, i) != [] && Escape(x, i) != []
    ensures forall k :: 0 <= k < |Escape(x, i)| ==> Escape(x, i)[k] >= 0x20 && (k > 0 ==> Escape(x, i)[k] < 0x80)
  {
    hide HexChar, EscapeFrom;
    assert EscapeFrom(x, i) != [] by {
      NotEmpty(x, i);
    }
    if x[i] <= 0x1F {
      HexIsAscii(x[i] / 16);
      HexIsAscii(x[i] % 16);
    }
  }

  lemma NotEmpty(x: bytes, i: nat)
    requires i < |x|
    ensures EscapeFrom(x, i) != []
  {
  }

  lemma HexIsAscii(d: nat)
    requires d < 16
    ensures 0x20 <= HexChar(d) < 0x80
  {
  }

  /** No separator starts at the beginning of what is still to be dumped. */
  lemma NoSeparatorHere(x: bytes, i: nat)
    requires i <= |x|
    ensures !StartsSeparator(EscapeFrom(x, i))
  {
    hide Escape, IsLineSeparator;
    if i < |x| {
      EscapeStarts(x, i);
      var t := EscapeFrom(x, i);
      if StartsSeparator(t) {
        FirstByte(x, i);
        SecondBytes(x, i);
      }
    }
  }

  lemma SecondBytes(x: bytes, i: nat)
    requires i < |x| && EscapeFrom(x, i) == [x[i]] + EscapeFrom(x, i + 1)
    requires !IsLineSeparator(x, i)
    ensures !StartsSeparator(EscapeFrom(x, i))
  {
    hide Escape;
    var t := EscapeFrom(x, i);
    if StartsSeparator(t) {
      var u := EscapeFrom(x, i + 1);
      assert u == t[1..] && u[0] == 0x80 && u[1] == t[2];
      FirstByte(x, i + 1);
      var v := EscapeFrom(x, i + 2);
      assert v == u[1..] && v[0] == t[2];
      FirstByte(x, i + 2);
    }
  }

  /** Every dumped string is safe: it holds no raw control character and no raw line separator. */
  lemma {:induction false} DumpedStringIsSafe(x: bytes, i: nat)
    requires i <= |x|
    ensures Safe(EscapeFrom(x, i))
    decreases |x| - i
  {
    hide Escape, IsLineSeparator, StartsSeparator;
    if i < |x| {
      var t, p, rest := EscapeFrom(x, i), Escape(x, i), EscapeFrom(x, i + Used(x, i));
      EscapeStarts(x, i);
      DumpedStringIsSafe(x, i + Used(x, i));
      NoSeparatorHere(x, i);
      forall k | 0 <= k < |t| - 2 ensures !StartsSeparator(t[k..]) {
        if k == 0 {
          assert t[0..] == t;
        } else if k < |p| {
          AsciiStart(t, k);
        } else {
          assert t[k..] == rest[k - |p|..];
        }
      }
    }
  }

  lemma AsciiStart(t: bytes, k: nat)
    requires k < |t| && t[k] < 0x80
    ensures !StartsSeparator(t[k..])
  {
  }
}
