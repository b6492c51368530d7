/**
 What the parser puts into the values it returns: maps in key order where the last duplicate wins, and 32-bit
 ints.
 */
module JsonMembers {
  import opened Options
  import opened Bytes
  import opened JsonValue
  import opened JsonOrder
  import opened JsonCursor
  import opened JsonGaps
  import opened JsonStrings
  import opened JsonNumbers
  import opened JsonParse
  import opened JsonGrammar
  import opened JsonText
  import opened JsonRoundTrip

  /** std::map::find */
  function Lookup(fs: seq<Field>, key: bytes): Option<Json> {
    if fs == [] then None else if fs[0].key == key then Some(fs[0].v) else Lookup(fs[1..], key)
  }

  /** Every key of fs is above key. */
  predicate Above(key: bytes, fs: seq<Field>) {
    forall j :: 0 <= j < |fs| ==> BytesLess(key, fs[j].key)
  }

  lemma SortedSplit(fs: seq<Field>)
    requires fs != []
    ensures SortedKeys(fs) <==> Above(fs[0].key, fs[1..]) && SortedKeys(fs[1..])
  {
    if Above(fs[0].key, fs[1..]) && SortedKeys(fs[1..]) {
      forall j, k | 0 <= j < k < |fs| ensures BytesLess(fs[j].key, fs[k].key) {
        assert fs[k] == fs[1..][k - 1];
        assert j > 0 ==> fs[j] == fs[1..][j - 1];
      }
    }
  }

  lemma AboveTransfers(low: bytes, key: bytes, fs: seq<Field>)
    requires BytesLess(low, key) && Above(key, fs)
    ensures Above(low, fs)
  {
    forall j | 0 <= j < |fs| ensures BytesLess(low, fs[j].key) {
      BytesAgree(low, key);
      BytesAgree(key, fs[j].key);
      BytesAgree(low, fs[j].key);
      BytesTransitive(low, key, fs[j].key);
    }
  }

  lemma KeysDiffer(a: bytes, b: bytes)
    ensures a == b || BytesLess(a, b) || BytesLess(b, a)
    ensures !(BytesLess(a, b) && BytesLess(b, a)) && !BytesLess(a, a)
  {
    BytesAgree(a, b);
    BytesAgree(b, a);
    BytesAgree(a, a);
  }

  /** Inserting keeps the map in order, and a bound below it. */
  lemma {:induction false} InsertKeepsSorted(fs: seq<Field>, key: bytes, v: Json)
    requires SortedKeys(fs)
    ensures SortedKeys(Insert(fs, key, v))
    ensures forall low :: Above(low, fs) && BytesLess(low, key) ==> Above(low, Insert(fs, key, v))
  {
    if fs == [] {
    } else {
      var r := Insert(fs, key, v);
      SortedSplit(fs);
      SortedSplit(r);
      KeysDiffer(key, fs[0].key);
      InsertKeepsSorted(fs[1..], key, v);
      if key == fs[0].key {
        assert r[1..] == fs[1..];
      } else if BytesLess(key, fs[0].key) {
        assert r[1..] == fs;
        AboveTransfers(key, fs[0].key, fs[1..]);
      } else {
        assert r[1..] == Insert(fs[1..], key, v);
      }
    }
  }

  /** Insert is a map update: the new value under its key, every other key as before. */
  lemma {:induction false} LookupInsert(fs: seq<Field>, key: bytes, v: Json, k: bytes)
    requires SortedKeys(fs)
    ensures Lookup(Insert(fs, key, v), k) == if k == key then Some(v) else Lookup(fs, k)
  {
    if fs != [] {
      var r := Insert(fs, key, v);
      SortedSplit(fs);
      LookupInsert(fs[1..], key, v, k);
      if key == fs[0].key {
        assert r[1..] == fs[1..];
      } else if BytesLess(key, fs[0].key) {
        assert r[1..] == fs;
      } else {
        assert r[1..] == Insert(fs[1..], key, v);
      }
    }
  }

  /** The last member written with a key. */
  function LastMember(m: Mode, members: seq<Member>, key: bytes): Option<Json>
    requires ValidMembers(m, members)
  {
    if members == [] then None
    else
      var later := LastMember(m, members[1..], key);
      if later.Some? then later
      else if StringValue(members[0].key) == key then Some(Value(m, members[0].v))
      else None
  }

  /** An object text stands for the map in which, key by key, the last member wins. */
  lemma {:induction false} LastMemberWins(m: Mode, members: seq<Member>, data: seq<Field>, key: bytes)
    requires ValidMembers(m, members) && SortedKeys(data)
    ensures var fs := MemberValues(m, members, data);
            && SortedKeys(fs)
            && Lookup(fs, key) ==
               (var last := LastMember(m, members, key); if last.Some? then last else Lookup(data, key))
    decreases |members|
  {
    hide Value, StringValue, ValidTree, SortedKeys, Insert, Lookup;
    if members != [] {
      var k, v := StringValue(members[0].key), Value(m, members[0].v);
      InsertKeepsSorted(data, k, v);
      LookupInsert(data, k, v, key);
      LastMemberWins(m, members[1..], Insert(data, k, v), key);
    }
  }

  // ---- the range of an int ----

  function Ten(k: nat): (p: nat)
    ensures p >= 1
  {
    if k == 0 then 1 else 10 * Ten(k - 1)
  }

  lemma {:induction false} DigitsBound(ds: bytes)
    requires AllDigits(ds)
    ensures DigitsValue(ds) < Ten(|ds|)
    decreases |ds|
  {
    if ds != [] {
      var n := |ds| - 1;
      DigitsPrefix(ds, n);
      DigitsBound(ds[..n]);
    }
  }

  lemma {:induction false} DigitsPrefix(ds: bytes, n: nat)
    requires AllDigits(ds) && n < |ds|
    ensures AllDigits(ds[..n]) && IsDigit(ds[n])
  {
    if n > 0 {
      DigitsPrefix(ds[1..], n - 1);
      assert ds[..n][1..] == ds[1..][..n - 1];
    }
  }

  lemma {:induction false} TenGrows(a: nat, b: nat)
    requires a <= b
    ensures Ten(a) <= Ten(b)
  {
    if a < b {
      TenGrows(a, b - 1);
    }
  }

  /** The texts that go to atoi denote numbers an int holds. */
  lemma ShortTokensFit(n: NumTok)
    requires ValidNum(n)
    ensures TokenNumber(n).Number? && (TokenNumber(n).n.Int? ==> IsInt32(TokenNumber(n).n.i))
  {
    hide DigitsValue, AllDigits, Decimal;
    DigitsBound(n.whole);
    if |n.whole| <= 9 {
      TenGrows(|n.whole|, 9);
      NineDigits();
    }
  }

  lemma NineDigits()
    ensures Ten(9) == 1_000_000_000
  {
    assert Ten(4) == 10000;
    assert Ten(5) == 100000;
  }

  // ---- every value the parser returns ----

  /** A value json11 can hold: ints of 32 bits, maps in key order. */
  predicate Storable(v: Json)
    decreases v, 1
  {
    match v
    case Number(n) => n.Int? ==> IsInt32(n.i)
    case Array(xs) => StorableSeq(xs)
    case Object(fs) => SortedKeys(fs) && StorableFields(fs)
    case _ => true
  }

  predicate StorableSeq(xs: seq<Json>)
    decreases xs, 0
  {
    forall k :: 0 <= k < |xs| ==> Storable(xs[k])
  }

  predicate StorableFields(fs: seq<Field>)
    decreases fs, 0
  {
    forall k :: 0 <= k < |fs| ==> Storable(fs[k].v)
  }

  lemma {:induction false} ValuesAreStorable(m: Mode, t: Tree)
    requires ValidTree(m, t)
    ensures Storable(Value(m, t))
    decreases t, 1
  {
    hide TokenNumber, StringValue, ElemValues, MemberValues, IsInt32;
    match t {
      case Num(n) => ShortTokensFit(n);
      case Arr(elems) => ElemsAreStorable(m, elems);
      case Obj(members) =>
        LastMemberWins(m, members, [], []);
        MembersAreStorable(m, members, []);
      case _ =>
    }
  }

  lemma {:induction false} ElemsAreStorable(m: Mode, elems: seq<Elem>)
    requires ValidElems(m, elems)
    ensures StorableSeq(ElemValues(m, elems))
    decreases elems, 0
  {
    hide Storable, Value, ValidTree, ValidGaps;
    if elems != [] {
      ValuesAreStorable(m, elems[0].v);
      ElemsAreStorable(m, elems[1..]);
    }
  }

  lemma {:induction false} MembersAreStorable(m: Mode, members: seq<Member>, data: seq<Field>)
    requires ValidMembers(m, members) && StorableFields(data)
    ensures StorableFields(MemberValues(m, members, data))
    decreases members, 0
  {
    hide Storable, Value, ValidTree, ValidGaps, Insert, StorableFields;
    if members != [] {
      var k, v := StringValue(members[0].key), Value(m, members[0].v);
      ValuesAreStorable(m, members[0].v);
      InsertStorable(data, k, v);
      MembersAreStorable(m, members[1..], Insert(data, k, v));
    }
  }

  lemma {:induction false} InsertStorable(fs: seq<Field>, key: bytes, v: Json)
    requires StorableFields(fs) && Storable(v)
    ensures StorableFields(Insert(fs, key, v))
  {
    hide Storable;
    if fs != [] {
      InsertStorable(fs[1..], key, v);
    }
  }

  /** Every accepted text yields a value with sorted, duplicate-free maps and 32-bit ints throughout. */
  lemma ParsedIsStorable(s: bytes, m: Mode, err0: Error)
    requires !Parse(s, m, err0).1.failed
    ensures Storable(Parse(s, m, err0).0)
  {
    hide Parse, Value, ValidTree, Storable;
    var gs, t, trail := AcceptedIsText(s, m, err0);
    ValuesAreStorable(m, t);
  }
}
