/** template List of Template.h. The buffer always holds exactly num items, so it is a sequence. */
module Lists {

  function Removed<T>(s: seq<T>, i: nat): seq<T>
    requires i < |s|
  {
    s[..i] + s[i + 1..]
  }

  function Inserted<T>(s: seq<T>, i: nat, x: T): seq<T>
    requires i <= |s|
  {
    s[..i] + [x] + s[i..]
  }

  /** Taking the item at i out and putting it back at j. */
  function Moved<T>(s: seq<T>, i: nat, j: nat): seq<T>
    requires i < |s| && j < |s|
  {
    Inserted(Removed(s, i), j, s[i])
  }

  /** memmove: n items from position src to position dst of the same buffer. */
  function Copied<T>(s: seq<T>, dst: nat, src: nat, n: nat): (r: seq<T>)
    requires dst + n <= |s| && src + n <= |s|
    ensures |r| == |s|
    ensures forall k :: 0 <= k < |s| ==> r[k] == if dst <= k < dst + n then s[src + (k - dst)] else s[k]
  {
    s[..dst] + s[src..src + n] + s[dst + n..]
  }

  /** The first occurrence of every item, in order. */
  function Firsts<T(==)>(s: seq<T>): seq<T> {
    if s == [] then []
    else
      var n := |s| - 1;
      if s[n] in s[..n] then Firsts(s[..n]) else Firsts(s[..n]) + [s[n]]
  }

  predicate Distinct<T(==)>(s: seq<T>) {
    forall j, k :: 0 <= j < k < |s| ==> s[j] != s[k]
  }

  class List<T(==)> {
    var items: seq<T>

    constructor ()
      ensures items == []
    {
      items := [];
    }

    method Add(val: T) returns (index: nat)
      modifies this
      ensures items == old(items) + [val] && index == |old(items)|
    {
      items := items + [val];
      index := |items| - 1;
    }

    /** An index past the end is ignored. */
    method Insert(index: nat, val: T)
      modifies this
      ensures items == if index <= |old(items)| then Inserted(old(items), index, val) else old(items)
    {
      if index > |items| {
        return;
      }
      if |items| == 0 && index == 0 {
        var at := Add(val);
        return;
      }
      var moveCount := |items| - index;
      items := items + [val];
      if moveCount != 0 {
        items := Copied(items, index + 1, index, moveCount);
      }
      items := items[index := val];
    }

    method Remove(index: nat)
      modifies this
      ensures items == if index < |old(items)| then Removed(old(items), index) else old(items)
    {
      if index >= |items| {
        return;
      }
      var num := |items| - 1;
      if num == 0 {
        items := [];
        return;
      }
      items := Copied(items, index, index + 1, num - index)[..num];
    }

    method Clear()
      modifies this
      ensures items == []
    {
      items := [];
    }

    method RemoveRange(start: nat, end: nat)
      modifies this
      ensures items == if start < end <= |old(items)| then old(items)[..start] + old(items)[end..] else old(items)
    {
      if start > |items| || end > |items| || end <= start {
        return;
      }
      var count := end - start;
      if count == 1 {
        Remove(start);
        return;
      } else if count == |items| {
        Clear();
        return;
      }
      var num := |items| - count;
      var cutoffCount := num - start;
      if cutoffCount != 0 {
        items := Copied(items, start, end, cutoffCount);
      }
      items := items[..num];
    }

    method MoveItem(id: nat, newID: nat)
      modifies this
      ensures items == if id < |old(items)| && newID < |old(items)| then Moved(old(items), id, newID) else old(items)
    {
      hide Moved, Copied;
      var last := |items| - 1;
      if newID == id || id > last || newID > last {
        StaysPut(items, id);
        return;
      }
      ShiftIsMove(items, id, newID);
      var val := items[id];
      if newID < id {
        items := Copied(items, newID + 1, newID, id - newID);
      } else if id < newID {
        items := Copied(items, id, id + 1, newID - id);
      }
      items := items[newID := val];
    }

    method MoveToFront(id: nat)
      modifies this
      ensures items == if id < |old(items)| then Moved(old(items), id, 0) else old(items)
    {
      hide Moved, Copied;
      var last := |items| - 1;
      if id > last || id == 0 {
        StaysPut(items, id);
        return;
      }
      ShiftIsMove(items, id, 0);
      var val := items[id];
      items := Copied(items, 1, 0, id);
      items := items[0 := val];
    }

    method MoveToEnd(id: nat)
      modifies this
      ensures items == if id < |old(items)| then Moved(old(items), id, |old(items)| - 1) else old(items)
    {
      hide Moved, Copied;
      var last := |items| - 1;
      if id >= last {
        StaysPut(items, id);
        return;
      }
      ShiftIsMove(items, id, last);
      var val := items[id];
      items := Copied(items, id, id + 1, last - id);
      items := items[last := val];
    }

    method RemoveDupes()
      modifies this
      ensures items == Firsts(old(items)) && Distinct(items)
    {
      hide Firsts;
      var i := 0;
      while i < |items|
        invariant i <= |items| && Firsts(items) == Firsts(old(items))
        invariant forall j, k :: 0 <= j < i && j < k < |items| ==> items[j] != items[k]
        decreases |items| - i
      {
        ghost var size := |items|;
        var val1 := items[i];
        var j := i + 1;
        while j < |items|
          invariant i < j <= |items| <= size && items[i] == val1 && Firsts(items) == Firsts(old(items))
          invariant forall j, k :: 0 <= j < i && j < k < |items| ==> items[j] != items[k]
          invariant forall k :: i < k < j ==> items[k] != val1
          decreases |items| - j
        {
          var val2 := items[j];
          if val1 == val2 {
            InPrefix(items, j, i);
            LaterDuplicate(items, j);
            ghost var before := items;
            RemovedAt(before, j);
            Remove(j);
            assert forall k :: 0 <= k < |items| ==> items[k] == if k < j then before[k] else before[k + 1];
            j := j - 1;
          }
          j := j + 1;
        }
        i := i + 1;
      }
      DistinctFirsts(items);
    }
  }

  /** Shifting the items in between by one place and writing the item is a move. */
  lemma ShiftIsMove<T>(s: seq<T>, i: nat, j: nat)
    requires i < |s| && j < |s| && i != j
    ensures (if j < i then Copied(s, j + 1, j, i - j) else Copied(s, i, i + 1, j - i))[j := s[i]] == Moved(s, i, j)
  {
    RemovedAt(s, i);
    InsertedAt(Removed(s, i), j, s[i]);
    var c, m := (if j < i then Copied(s, j + 1, j, i - j) else Copied(s, i, i + 1, j - i))[j := s[i]], Moved(s, i, j);
    assert |c| == |m|;
    forall k | 0 <= k < |c| ensures c[k] == m[k] {
      if j < i && j < k <= i {
        assert c[k] == s[k - 1];
      } else if i <= k < j {
        assert c[k] == s[k + 1];
      }
    }
  }

  lemma RemovedAt<T>(s: seq<T>, i: nat)
    requires i < |s|
    ensures |Removed(s, i)| == |s| - 1
    ensures forall k :: 0 <= k < |s| - 1 ==> Removed(s, i)[k] == if k < i then s[k] else s[k + 1]
  {
  }

  lemma InsertedAt<T>(s: seq<T>, i: nat, x: T)
    requires i <= |s|
    ensures |Inserted(s, i, x)| == |s| + 1
    ensures forall k :: 0 <= k <= |s| ==> Inserted(s, i, x)[k] == if k < i then s[k] else if k == i then x else s[k - 1]
  {
  }

  lemma StaysPut<T>(s: seq<T>, i: nat)
    ensures i < |s| ==> Moved(s, i, i) == s
  {
    if i < |s| {
      assert Removed(s, i)[..i] == s[..i] && Removed(s, i)[i..] == s[i + 1..];
    }
  }

  /** Removing an item that occurs earlier does not change the first occurrences. */
  lemma {:induction false} LaterDuplicate<T>(s: seq<T>, j: nat)
    requires j < |s| && s[j] in s[..j]
    ensures Firsts(Removed(s, j)) == Firsts(s)
    decreases |s|
  {
    var n := |s| - 1;
    var r := Removed(s, j);
    if j < n {
      LaterDuplicate(s[..n], j);
      assert s[..n][..j] == s[..j];
      assert r[..n - 1] == Removed(s[..n], j) && r[n - 1] == s[n];
      SameItems(s[..n], j);
    } else {
      assert r == s[..n];
    }
  }

  lemma SameItems<T>(s: seq<T>, j: nat)
    requires j < |s| && s[j] in s[..j]
    ensures forall x :: x in Removed(s, j) <==> x in s
  {
    forall x | x in s ensures x in Removed(s, j) {
      var k :| 0 <= k < |s| && s[k] == x;
      if k > j {
        assert Removed(s, j)[k - 1] == x;
      } else if k < j {
        assert Removed(s, j)[k] == x;
      } else {
        var m :| 0 <= m < j && s[..j][m] == x;
        assert Removed(s, j)[m] == x;
      }
    }
  }

  lemma {:induction false} DistinctFirsts<T>(s: seq<T>)
    requires Distinct(s)
    ensures Firsts(s) == s
    decreases |s|
  {
    if s != [] {
      DistinctFirsts(s[..|s| - 1]);
    }
  }

  function FirstIndex<T(==)>(s: seq<T>, x: T): (i: nat)
    requires x in s
    ensures i < |s| && s[i] == x && x !in s[..i]
  {
    if s[0] == x then 0 else
      assert s == [s[0]] + s[1..];
      var i := 1 + FirstIndex(s[1..], x);
      assert s[..i] == [s[0]] + s[1..][..i - 1];
      i
  }

  /** And it keeps them in the order they first occurred. */
  lemma {:induction false} FirstsInOrder<T>(s: seq<T>, a: nat, b: nat)
    requires a < b < |Firsts(s)|
    ensures Firsts(s)[a] in s && Firsts(s)[b] in s && FirstIndex(s, Firsts(s)[a]) < FirstIndex(s, Firsts(s)[b])
    decreases |s|
  {
    hide FirstIndex;
    var n := |s| - 1;
    SameMembers(s, Firsts(s)[a]);
    SameMembers(s, Firsts(s)[b]);
    SameMembers(s[..n], Firsts(s)[a]);
    IndexInPrefix(s, n, Firsts(s)[a]);
    if b < |Firsts(s[..n])| {
      SameMembers(s[..n], Firsts(s)[b]);
      IndexInPrefix(s, n, Firsts(s)[b]);
      FirstsInOrder(s[..n], a, b);
    }
  }

  lemma {:induction false} FirstIndexUnique<T>(s: seq<T>, x: T, i: nat)
    requires i < |s| && s[i] == x && x !in s[..i]
    ensures FirstIndex(s, x) == i
  {
    if i > 0 {
      assert s[..i][0] == s[0] && s[1..][..i - 1] == s[..i][1..];
      FirstIndexUnique(s[1..], x, i - 1);
    }
  }

  lemma InPrefix<T>(s: seq<T>, n: nat, i: nat)
    requires i < n <= |s|
    ensures s[i] in s[..n]
  {
    assert s[..n][i] == s[i];
  }

  lemma IndexInPrefix<T>(s: seq<T>, n: nat, x: T)
    requires n <= |s|
    ensures x in s[..n] ==> x in s && FirstIndex(s, x) == FirstIndex(s[..n], x)
    ensures x in s && FirstIndex(s, x) < n ==> x in s[..n]
  {
    if x in s[..n] {
      var j := FirstIndex(s[..n], x);
      assert s[..n][..j] == s[..j];
      FirstIndexUnique(s, x, j);
    }
    if x in s && FirstIndex(s, x) < n {
      InPrefix(s, n, FirstIndex(s, x));
    }
  }

  lemma {:induction false} SameMembers<T>(s: seq<T>, x: T)
    ensures x in Firsts(s) <==> x in s
    decreases |s|
  {
    if s != [] {
      var n := |s| - 1;
      SameMembers(s[..n], x);
      assert s == s[..n] + [s[n]];
    }
  }

  lemma {:induction false} FirstsAreDistinct<T>(s: seq<T>)
    ensures Distinct(Firsts(s))
    decreases |s|
  {
    if s != [] {
      var n := |s| - 1;
      FirstsAreDistinct(s[..n]);
      SameMembers(s[..n], s[n]);
    }
  }

  /** RemoveDupes leaves each item once and loses none. */
  lemma FirstOccurrences<T>(s: seq<T>)
    ensures Distinct(Firsts(s)) && (forall x :: x in Firsts(s) <==> x in s)
  {
    FirstsAreDistinct(s);
    forall x ensures x in Firsts(s) <==> x in s {
      SameMembers(s, x);
    }
  }

  /** A move puts its item where it is told, and leaves the others in their order. */
  lemma OthersKeepOrder<T>(s: seq<T>, i: nat, j: nat)
    requires i < |s| && j < |s|
    ensures Moved(s, i, j)[j] == s[i] && Removed(Moved(s, i, j), j) == Removed(s, i)
    ensures forall k :: 0 <= k < |s| - 1 ==> Removed(s, i)[k] == if k < i then s[k] else s[k + 1]
  {
    InsertRemove(Removed(s, i), j, s[i]);
    RemovedAt(s, i);
  }

  /** Moving keeps every item, and moving back undoes it. */
  lemma MoveIsPermutation<T>(s: seq<T>, i: nat, j: nat)
    requires i < |s| && j < |s|
    ensures |Moved(s, i, j)| == |s| && multiset(Moved(s, i, j)) == multiset(s)
    ensures Moved(Moved(s, i, j), j, i) == s
  {
    var r, m := Removed(s, i), Moved(s, i, j);
    assert s == s[..i] + [s[i]] + s[i + 1..];
    assert r == r[..j] + r[j..];
    assert multiset(s) == multiset(r) + multiset{s[i]};
    assert m == r[..j] + [s[i]] + r[j..];
    assert multiset(m) == multiset(r[..j]) + multiset{s[i]} + multiset(r[j..]);
    InsertRemove(r, j, s[i]);
    InsertRemove(s, i, s[i]);
  }

  /** Insert and Remove undo each other. */
  lemma InsertRemove<T>(s: seq<T>, i: nat, x: T)
    requires i <= |s|
    ensures Removed(Inserted(s, i, x), i) == s
    ensures i < |s| ==> Inserted(Removed(s, i), i, s[i]) == s
  {
  }

  function RemovedTimes<T>(s: seq<T>, i: nat, n: nat): seq<T>
    requires i + n <= |s|
    decreases n
  {
    if n == 0 then s else RemovedTimes(Removed(s, i), i, n - 1)
  }

  /** RemoveRange is Remove at the same place, as often as the range is long. */
  lemma {:induction false} RangeIsRepeatedRemove<T>(s: seq<T>, start: nat, end: nat)
    requires start <= end <= |s|
    ensures RemovedTimes(s, start, end - start) == s[..start] + s[end..]
    decreases end - start
  {
    if start < end {
      var r := Removed(s, start);
      RangeIsRepeatedRemove(r, start, end - 1);
      assert r[..start] == s[..start] && r[end - 1..] == s[end..];
    }
  }
}
