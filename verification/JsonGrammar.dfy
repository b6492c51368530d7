/**
 The grammar of JSON texts: a syntax tree keeps everything that was written, gaps and spellings
 included. Print is the text of a tree, Value the JSON value it stands for.
 */
module JsonGrammar {
  import opened Bytes
  import opened JsonValue
  import opened JsonCursor
  import opened JsonGaps
  import opened JsonStrings
  import opened JsonNumbers
  import opened JsonParse

  datatype Tree =
    | True
    | False
    | Nul
    | Num(n: NumTok)
    | Str(toks: seq<Tok>)
    | EmptyArr(gap: seq<Gap>)
    | Arr(elems: seq<Elem>)
    | EmptyObj(gap: seq<Gap>)
    | Obj(members: seq<Member>)

  /** An array element with the gaps around it. */
  datatype Elem = Elem(before: seq<Gap>, v: Tree, after: seq<Gap>)

  /** An object member: gap, key, gap, colon, gap, value, gap. */
  datatype Member = Member(before: seq<Gap>, key: seq<Tok>, colon: seq<Gap>, start: seq<Gap>, v: Tree, after: seq<Gap>)

  predicate IsContainer(t: Tree) {
    t.EmptyArr? || t.Arr? || t.EmptyObj? || t.Obj?
  }

  predicate ValidTree(m: Mode, t: Tree)
    decreases t, 1
  {
    match t
    case Num(n) => ValidNum(n)
    case Str(toks) => ValidToks(toks)
    case EmptyArr(g) => ValidGaps(m, g)
    case EmptyObj(g) => ValidGaps(m, g)
    case Arr(elems) => elems != [] && ValidElems(m, elems)
    case Obj(members) => members != [] && ValidMembers(m, members)
    case _ => true
  }

  predicate ValidElems(m: Mode, elems: seq<Elem>)
    decreases elems, 0
  {
    elems == [] ||
    (ValidGaps(m, elems[0].before) && ValidTree(m, elems[0].v) &&
     ValidGaps(m, elems[0].after) && ValidElems(m, elems[1..]))
  }

  predicate ValidMembers(m: Mode, members: seq<Member>)
    decreases members, 0
  {
    members == [] ||
    (var e := members[0];
     && ValidGaps(m, e.before) && ValidToks(e.key) && ValidGaps(m, e.colon) && ValidGaps(m, e.start)
     && ValidTree(m, e.v) && ValidGaps(m, e.after) && ValidMembers(m, members[1..]))
  }

  /** The text of a tree. */
  function Print(t: Tree): bytes
    decreases t, 1
  {
    match t
    case True => TRUE_TEXT
    case False => FALSE_TEXT
    case Nul => NULL_TEXT
    case Num(n) => NumText(n)
    case Str(toks) => [QUOTE] + (ToksText(toks) + [QUOTE])
    case EmptyArr(g) => [LBRACKET] + (GapsText(g) + [RBRACKET])
    case EmptyObj(g) => [LBRACE] + (GapsText(g) + [RBRACE])
    case Arr(elems) => [LBRACKET] + (if elems == [] then [] else GapsText(elems[0].before) + ElemsText(elems))
    case Obj(members) => [LBRACE] + (if members == [] then [] else GapsText(members[0].before) + MembersText(members))
  }

  /** From the start of an element's value to the closing bracket. */
  function ElemsText(elems: seq<Elem>): (t: bytes)
    requires elems != []
    ensures t != []
    decreases elems, 1
  {
    Print(elems[0].v) + (GapsText(elems[0].after) + ElemsTail(elems))
  }

  /** What follows the first element: the closing bracket, or a comma and the other elements. */
  function ElemsTail(elems: seq<Elem>): (t: bytes)
    requires elems != []
    ensures t != []
    decreases elems, 0
  {
    if |elems| == 1 then [RBRACKET]
    else [COMMA] + (GapsText(elems[1].before) + ElemsText(elems[1..]))
  }

  /** From the opening quote of a member's key to the closing brace. */
  function MembersText(members: seq<Member>): (t: bytes)
    requires members != []
    ensures t != []
    decreases members, 2
  {
    [QUOTE] + ((ToksText(members[0].key) + [QUOTE]) + (GapsText(members[0].colon) + ([COLON] + MembersRest(members))))
  }

  /** From just after a member's colon to the closing brace. */
  function MembersRest(members: seq<Member>): (t: bytes)
    requires members != []
    ensures t != []
    decreases members, 1
  {
    (GapsText(members[0].start) + Print(members[0].v)) + (GapsText(members[0].after) + MembersTail(members))
  }

  /** What follows the first member: the closing brace, or a comma and the other members. */
  function MembersTail(members: seq<Member>): (t: bytes)
    requires members != []
    ensures t != []
    decreases members, 0
  {
    if |members| == 1 then [RBRACE]
    else [COMMA] + (GapsText(members[1].before) + MembersText(members[1..]))
  }

  /** The value of a tree: gaps leave no trace, and the last member with a given key wins. */
  function Value(m: Mode, t: Tree): Json
    requires ValidTree(m, t)
    decreases t, 1
  {
    match t
    case True => Bool(true)
    case False => Bool(false)
    case Nul => Null
    case Num(n) => TokenNumber(n)
    case Str(toks) => String(StringValue(toks))
    case EmptyArr(_) => Array([])
    case EmptyObj(_) => Object([])
    case Arr(elems) => Array(ElemValues(m, elems))
    case Obj(members) => Object(MemberValues(m, members, []))
  }

  function ElemValues(m: Mode, elems: seq<Elem>): seq<Json>
    requires ValidElems(m, elems)
    decreases elems, 0
  {
    if elems == [] then [] else [Value(m, elems[0].v)] + ElemValues(m, elems[1..])
  }

  function MemberValues(m: Mode, members: seq<Member>, data: seq<Field>): seq<Field>
    requires ValidMembers(m, members)
    decreases members, 0
  {
    if members == [] then data
    else MemberValues(m, members[1..], Insert(data, StringValue(members[0].key), Value(m, members[0].v)))
  }

  /** How many brackets are open at the deepest value; an empty bracket pair opens no further level. */
  function Height(t: Tree): nat
    decreases t, 1
  {
    match t
    case Arr(elems) => 1 + ElemsHeight(elems)
    case Obj(members) => 1 + MembersHeight(members)
    case _ => 0
  }

  function Max(a: nat, b: nat): nat {
    if a < b then b else a
  }

  function ElemsHeight(elems: seq<Elem>): nat
    decreases elems, 0
  {
    if elems == [] then 0 else Max(Height(elems[0].v), ElemsHeight(elems[1..]))
  }

  function MembersHeight(members: seq<Member>): nat
    decreases members, 0
  {
    if members == [] then 0 else Max(Height(members[0].v), MembersHeight(members[1..]))
  }

  /** A number must not be run on by what follows it. */
  predicate Ends(t: Tree, next: byte) {
    t.Num? ==> EndsNumber(next)
  }
}
