/** The state of struct JsonParser and the text primitives every scanning function shares. */
module JsonCursor {
  import opened Bytes

  const NEWLINE: byte := 0x0A
  const QUOTE: byte := 0x22     // "
  const STAR: byte := 0x2A      // *
  const PLUS: byte := 0x2B      // +
  const COMMA: byte := 0x2C     // ,
  const MINUS: byte := 0x2D     // -
  const DOT: byte := 0x2E       // .
  const SLASH: byte := 0x2F     // /
  const ZERO: byte := 0x30      // 0
  const COLON: byte := 0x3A     // :
  const LBRACKET: byte := 0x5B  // [
  const BACKSLASH: byte := 0x5C // \
  const RBRACKET: byte := 0x5D  // ]
  const LBRACE: byte := 0x7B    // {
  const RBRACE: byte := 0x7D    // }

  /** enum JsonParse */
  datatype Mode = Standard | Comments

  /** One constructor per call of fail(); the wording of the messages is not modelled. */
  datatype Error =
    | NoError
    | CommentEnd
    | CommentMalformed
    | InputEnd
    | StringEnd
    | Unescaped(ch: byte)
    | BadHexEscape
    | InvalidEscape(ch: byte)
    | LeadingZero
    | InvalidNumber(ch: byte)
    | NoFractionDigit
    | NoExponentDigit
    | BadLiteral
    | TooDeep
    | ExpectedKey(ch: byte)
    | ExpectedColon(ch: byte)
    | ExpectedObjectComma(ch: byte)
    | ExpectedListComma(ch: byte)
    | ExpectedValue(ch: byte)
    | Trailing(ch: byte)

  /** The mutable fields of JsonParser; err is the caller's string. */
  datatype Cursor = Cursor(i: nat, failed: bool, err: Error)

  /** fail(): only the first message is kept. */
  function Fail(c: Cursor, e: Error): Cursor {
    if c.failed then c else c.(failed := true, err := e)
  }

  /** What any parsing step may do to the state: move forward inside s, and fail once and for all. */
  predicate Advances(s: bytes, c: Cursor, d: Cursor) {
    && c.i <= d.i <= |s|
    && (c.failed ==> d.failed && d.err == c.err)
    && (!d.failed ==> d.err == c.err)
  }

  /** str[i] of a std::string, which yields NUL at i == size() and is undefined beyond. */
  function At(s: bytes, i: nat): byte
    requires i <= |s|
  {
    if i < |s| then s[i] else 0
  }

  /** The text t stands in s at position i. */
  predicate Match(s: bytes, i: nat, t: bytes)
    ensures Match(s, i, t) ==> i + |t| <= |s|
  {
    i + |t| <= |s| && s[i..i + |t|] == t
  }

  lemma MatchAt(s: bytes, i: nat, t: bytes, k: nat)
    requires Match(s, i, t) && k < |t|
    ensures At(s, i + k) == s[i + k] == t[k]
  {
    assert s[i..i + |t|][k] == s[i + k];
  }

  lemma MatchSplit(s: bytes, i: nat, a: bytes, b: bytes)
    ensures Match(s, i, a + b) <==> Match(s, i, a) && Match(s, i + |a|, b)
  {
    if i + |a| + |b| <= |s| {
      var t := s[i..i + |a| + |b|];
      assert s[i..i + |a|] == t[..|a|];
      assert s[i + |a|..i + |a| + |b|] == t[|a|..];
      assert (a + b)[..|a|] == a && (a + b)[|a|..] == b;
      assert t == t[..|a|] + t[|a|..];
    }
  }

  /** All but the last byte. */
  function Chop(t: bytes): (r: bytes)
    requires t != []
    ensures |r| == |t| - 1
  {
    t[..|t| - 1]
  }

  lemma ChopJoin(a: bytes, b: bytes)
    requires b != []
    ensures Chop(a + b) == a + Chop(b) && (a + b)[|a + b| - 1] == b[|b| - 1]
  {
  }

  lemma MatchChop(s: bytes, i: nat, t: bytes)
    requires t != []
    ensures Match(s, i, t) <==> Match(s, i, Chop(t)) && i + |t| <= |s| && s[i + |t| - 1] == t[|t| - 1]
  {
    assert t == Chop(t) + [t[|t| - 1]];
    MatchSplit(s, i, Chop(t), [t[|t| - 1]]);
  }

  lemma MatchSlice(s: bytes, i: nat, t: bytes)
    requires Match(s, i, t)
    ensures s[i..i + |t|] == t
  {
  }

  lemma MatchSelf(s: bytes, i: nat, j: nat)
    requires i <= j <= |s|
    ensures Match(s, i, s[i..j])
    ensures i < j ==> s[i..j] != [] && s[i..j][0] == s[i]
  {
  }

  lemma MatchOne(s: bytes, i: nat, b: byte)
    requires i < |s| && s[i] == b
    ensures Match(s, i, [b])
  {
  }

  lemma MatchTwo(s: bytes, i: nat, a: byte, b: byte)
    requires i + 1 < |s| && s[i] == a && s[i + 1] == b
    ensures Match(s, i, [a, b])
  {
  }

  lemma SliceJoin(s: bytes, i: nat, j: nat, k: nat)
    requires i <= j <= k <= |s|
    ensures s[i..j] + s[j..k] == s[i..k]
  {
  }

  predicate IsWs(b: byte) {
    b == 0x20 || b == 0x0D || b == NEWLINE || b == 0x09
  }

  predicate IsDigit(b: byte) {
    ZERO <= b <= ZERO + 9
  }
}
