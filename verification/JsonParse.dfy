/**
 The recursive-descent parser of json11.cpp as functions of the text and the parser state. The
 nesting limit is a parameter; the source fixes it at MAX_DEPTH.
 */
module JsonParse {
  import opened Bytes
  import opened JsonValue
  import opened JsonCursor
  import opened JsonGaps
  import opened JsonStrings
  import opened JsonNumbers

  /** max_depth */
  const MAX_DEPTH := 200

  const TRUE_TEXT: bytes := [0x74, 0x72, 0x75, 0x65]
  const FALSE_TEXT: bytes := [0x66, 0x61, 0x6C, 0x73, 0x65]
  const NULL_TEXT: bytes := [0x6E, 0x75, 0x6C, 0x6C]

  /** operator[] followed by assignment on a std::map: replace the entry, or insert it in key order. */
  function Insert(fs: seq<Field>, key: bytes, v: Json): seq<Field> {
    if fs == [] then [Field(key, v)]
    else if key == fs[0].key then [Field(key, v)] + fs[1..]
    else if BytesLess(key, fs[0].key) then [Field(key, v)] + fs
    else [fs[0]] + Insert(fs[1..], key, v)
  }

  /** expect: the word must stand where the character just read stands. */
  function Expect(s: bytes, c: Cursor, word: bytes, v: Json): (r: (Json, Cursor))
    requires 0 < c.i <= |s| && word != []
    ensures r.1.i >= c.i - 1 && r.1.i <= |s| && (!r.1.failed ==> r.1.i >= c.i)
    ensures c.failed ==> r.1.failed && r.1.err == c.err
    ensures !r.1.failed ==> r.1.err == c.err
    ensures r.1.failed && !c.failed ==> r.0 == Null
  {
    var c1 := c.(i := c.i - 1);
    if Match(s, c1.i, word) then (v, c1.(i := c1.i + |word|)) else (Null, Fail(c1, BadLiteral))
  }

  function Left(limit: nat, depth: nat): nat {
    if depth > limit then 0 else limit + 1 - depth
  }

  /** parse_json */
  function ParseJson(s: bytes, m: Mode, limit: nat, c: Cursor, depth: nat): (r: (Json, Cursor))
    requires c.i <= |s|
    ensures Advances(s, c, r.1)
    ensures !r.1.failed ==> r.1.i > c.i
    decreases Left(limit, depth), |s| - c.i, 2
  {
    if depth > limit then (Null, Fail(c, TooDeep))
    else
      var (ch, d) := NextToken(s, m, c);
      if d.failed then (Null, d) else ParseValue(s, m, limit, ch, d, depth)
  }

  /** parse_json once the first character ch of the value has been read. */
  function ParseValue(s: bytes, m: Mode, limit: nat, ch: byte, c: Cursor, depth: nat): (r: (Json, Cursor))
    requires 0 < c.i <= |s| && !c.failed && depth <= limit
    ensures c.i - 1 <= r.1.i <= |s|
    ensures !r.1.failed ==> r.1.i >= c.i && r.1.err == c.err
    decreases Left(limit, depth), |s| - c.i, 1
  {
    if ch == MINUS || IsDigit(ch) then ParseNumber(s, c.(i := c.i - 1))
    else if ch == TRUE_TEXT[0] then Expect(s, c, TRUE_TEXT, Bool(true))
    else if ch == FALSE_TEXT[0] then Expect(s, c, FALSE_TEXT, Bool(false))
    else if ch == NULL_TEXT[0] then Expect(s, c, NULL_TEXT, Null)
    else if ch == QUOTE then
      var (str, d) := ParseString(s, c);
      (String(str), d)
    else if ch == LBRACE then
      var (first, d) := NextToken(s, m, c);
      if first == RBRACE then (Object([]), d) else ParseMembers(s, m, limit, first, d, depth, [])
    else if ch == LBRACKET then
      var (first, d) := NextToken(s, m, c);
      if first == RBRACKET then (Array([]), d) else ParseElems(s, m, limit, d, depth, [])
    else (Null, Fail(c, ExpectedValue(ch)))
  }

  /** The object loop, with the character ch that should open the next key already read. */
  function ParseMembers(s: bytes, m: Mode, limit: nat, ch: byte, c: Cursor, depth: nat,
                        data: seq<Field>): (r: (Json, Cursor))
    requires c.i <= |s| && depth <= limit
    ensures Advances(s, c, r.1)
    decreases Left(limit, depth), |s| - c.i, 0
  {
    if ch != QUOTE then (Null, Fail(c, ExpectedKey(ch)))
    else
      var (key, c1) := ParseString(s, c);
      if c1.failed then (Null, c1)
      else
        var (colon, c2) := NextToken(s, m, c1);
        if colon != COLON then (Null, Fail(c2, ExpectedColon(colon)))
        else AfterColon(s, m, limit, key, c2, depth, data)
  }

  /** The object loop, with a key and its colon already read. */
  function AfterColon(s: bytes, m: Mode, limit: nat, key: bytes, c: Cursor, depth: nat,
                      data: seq<Field>): (r: (Json, Cursor))
    requires c.i <= |s| && depth <= limit
    ensures Advances(s, c, r.1)
    decreases Left(limit, depth), |s| - c.i, 0
  {
    var (v, c1) := ParseJson(s, m, limit, c, depth + 1);
    if c1.failed then (Null, c1)
    else
      var (next, c2) := NextToken(s, m, c1);
      if next == RBRACE then (Object(Insert(data, key, v)), c2)
      else if next != COMMA then (Null, Fail(c2, ExpectedObjectComma(next)))
      else
        var (open, c3) := NextToken(s, m, c2);
        ParseMembers(s, m, limit, open, c3, depth, Insert(data, key, v))
  }

  /** The array loop, with the first character of the next element already read. */
  function ParseElems(s: bytes, m: Mode, limit: nat, c: Cursor, depth: nat, data: seq<Json>): (r: (Json, Cursor))
    requires 0 < c.i <= |s| && depth <= limit
    ensures Advances(s, c.(i := c.i - 1), r.1)
    ensures !r.1.failed ==> r.1.i > c.i
    decreases Left(limit, depth), |s| - c.i, 0
  {
    var (v, c1) := ParseJson(s, m, limit, c.(i := c.i - 1), depth + 1);
    if c1.failed then (Null, c1)
    else
      var (next, c2) := NextToken(s, m, c1);
      if next == RBRACKET then (Array(data + [v]), c2)
      else if next != COMMA then (Null, Fail(c2, ExpectedListComma(next)))
      else
        var (_, c3) := NextToken(s, m, c2);
        ParseElems(s, m, limit, c3, depth, data + [v])
  }

  /** Json::parse; err0 is what the caller's error string held before. */
  function Parse(s: bytes, m: Mode, err0: Error): (r: (Json, Cursor))
    ensures Advances(s, Cursor(0, false, err0), r.1)
    ensures !r.1.failed ==> r.1.i == |s|
  {
    var (v, c) := ParseJson(s, m, MAX_DEPTH, Cursor(0, false, err0), 0);
    var d := Garbage(s, m, c);
    if d.i != |s| then (Null, Fail(d, Trailing(s[d.i]))) else (v, d)
  }

  /** The loop of Json::parse_multi. */
  function ParseMultiFrom(s: bytes, m: Mode, c: Cursor, vs: seq<Json>): (r: (seq<Json>, Cursor))
    requires c.i <= |s|
    ensures Advances(s, c, r.1)
    ensures !r.1.failed ==> r.1.i == |s|
    decreases if c.failed then 0 else 1, |s| - c.i
  {
    if c.i == |s| || c.failed then (vs, c)
    else
      var (v, d) := ParseJson(s, m, MAX_DEPTH, c, 0);
      ParseMultiFrom(s, m, Garbage(s, m, d), vs + [v])
  }

  /** Json::parse_multi */
  function ParseMulti(s: bytes, m: Mode, err0: Error): (r: (seq<Json>, Cursor))
    ensures Advances(s, Cursor(0, false, err0), r.1)
    ensures !r.1.failed ==> r.1.i == |s|
  {
    ParseMultiFrom(s, m, Cursor(0, false, err0), [])
  }
}
