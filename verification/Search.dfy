/** The one binary search the tools keep writing: over the function set, the stub
    table and the dispatch table. */
module Search {

  predicate Sorted(keys: seq<nat>) {
    forall i, j :: 0 <= i < j < |keys| ==> keys[i] < keys[j]
  }

  /** In order, duplicates allowed. */
  predicate Ordered(keys: seq<nat>) {
    forall i, j :: 0 <= i < j < |keys| ==> keys[i] <= keys[j]
  }

  /** `fs_has` and `vm_find_stub`: where `key` stands, or `|keys|` if nowhere. */
  method Find(keys: seq<nat>, key: nat) returns (at: nat)
    requires Ordered(keys)
    ensures if key in keys then at < |keys| && keys[at] == key else at == |keys|
  {
    var lo, hi := 0, |keys|;
    while lo < hi
      invariant 0 <= lo <= hi <= |keys|
      invariant forall i :: 0 <= i < |keys| && keys[i] == key ==> lo <= i < hi
    {
      var mid := lo + (hi - lo) / 2;
      if keys[mid] == key {
        return mid;
      }
      if keys[mid] < key {
        lo := mid + 1;
      } else {
        hi := mid;
      }
    }
    at := |keys|;
  }

  predicate Distinct(v: seq<nat>) {
    forall i, j :: 0 <= i < j < |v| ==> v[i] != v[j]
  }

  // ----- qsort by a key

  predicate SortedBy<T(!new)>(key: T -> nat, v: seq<T>) {
    forall i, j :: 0 <= i < j < |v| ==> key(v[i]) < key(v[j])
  }

  function Insert<T(!new)>(key: T -> nat, v: seq<T>, x: T): (r: seq<T>)
    ensures |r| == |v| + 1
  {
    if v == [] || key(x) < key(v[0]) then [x] + v else [v[0]] + Insert(key, v[1..], x)
  }

  function Sort<T(!new)>(key: T -> nat, v: seq<T>): (r: seq<T>)
    ensures |r| == |v|
  {
    if v == [] then [] else Insert(key, Sort(key, v[1..]), v[0])
  }

  lemma {:induction false} InsertKeeps<T(!new)>(key: T -> nat, v: seq<T>, x: T)
    ensures forall y :: y in Insert(key, v, x) <==> y in v || y == x
    ensures SortedBy(key, v) && (forall y :: y in v ==> key(y) != key(x)) ==> SortedBy(key, Insert(key, v, x))
    decreases v
  {
    if v == [] || key(x) < key(v[0]) {
      forall k | 0 <= k < |v| ensures v[k] in v {}
    } else {
      InsertKeeps(key, v[1..], x);
      assert v == [v[0]] + v[1..];
      if SortedBy(key, v) && (forall y :: y in v ==> key(y) != key(x)) {
        InsertBelow(key, v, x);
      }
    }
  }

  lemma {:induction false} InsertAdds<T(!new)>(key: T -> nat, v: seq<T>, x: T)
    ensures multiset(Insert(key, v, x)) == multiset(v) + multiset{x}
    decreases v
  {
    if v != [] && key(x) >= key(v[0]) {
      InsertAdds(key, v[1..], x);
      assert v == [v[0]] + v[1..];
    }
  }

  lemma InsertBelow<T(!new)>(key: T -> nat, v: seq<T>, x: T)
    requires v != [] && key(x) > key(v[0]) && SortedBy(key, v)
    requires SortedBy(key, Insert(key, v[1..], x))
    requires forall y :: y in Insert(key, v[1..], x) <==> y in v[1..] || y == x
    ensures SortedBy(key, [v[0]] + Insert(key, v[1..], x))
  {
    var tail := Insert(key, v[1..], x);
    forall k | 0 <= k < |tail| ensures key(v[0]) < key(tail[k]) {
      assert tail[k] in tail;
    }
  }

  lemma {:induction false} SortPermutes<T(!new)>(key: T -> nat, v: seq<T>)
    ensures multiset(Sort(key, v)) == multiset(v)
    decreases v
  {
    hide Insert;
    if v != [] {
      SortPermutes(key, v[1..]);
      InsertAdds(key, Sort(key, v[1..]), v[0]);
      assert v == [v[0]] + v[1..];
    }
  }

  lemma {:induction false} SortStrictly<T(!new)>(key: T -> nat, v: seq<T>)
    requires forall i, j :: 0 <= i < j < |v| ==> key(v[i]) != key(v[j])
    ensures SortedBy(key, Sort(key, v))
    decreases v
  {
    hide Insert;
    if v != [] {
      var tail := Sort(key, v[1..]);
      SortStrictly(key, v[1..]);
      SortPermutes(key, v[1..]);
      forall y | y in tail ensures key(y) != key(v[0]) {
        assert y in multiset(tail) && y in multiset(v[1..]);
        var k :| 0 <= k < |v[1..]| && v[1..][k] == y;
        assert v[k + 1] == y;
      }
      InsertKeeps(key, tail, v[0]);
    }
  }

  /** Sorting permutes, and orders strictly when no two keys agree. */
  lemma SortKeeps<T(!new)>(key: T -> nat, v: seq<T>)
    ensures multiset(Sort(key, v)) == multiset(v)
    ensures forall y :: y in Sort(key, v) <==> y in v
    ensures (forall i, j :: 0 <= i < j < |v| ==> key(v[i]) != key(v[j])) ==> SortedBy(key, Sort(key, v))
  {
    hide Sort, SortedBy;
    SortPermutes(key, v);
    forall y ensures y in Sort(key, v) <==> y in v {
      assert y in multiset(Sort(key, v)) <==> y in multiset(v);
    }
    if forall i, j :: 0 <= i < j < |v| ==> key(v[i]) != key(v[j]) {
      SortStrictly(key, v);
    }
  }

  predicate OrderedBy<T(!new)>(key: T -> nat, v: seq<T>) {
    forall i, j :: 0 <= i < j < |v| ==> key(v[i]) <= key(v[j])
  }

  lemma {:induction false} InsertOrders<T(!new)>(key: T -> nat, v: seq<T>, x: T)
    requires OrderedBy(key, v)
    ensures OrderedBy(key, Insert(key, v, x))
    decreases v
  {
    if v != [] && key(x) >= key(v[0]) {
      InsertOrders(key, v[1..], x);
      InsertKeeps(key, v[1..], x);
      var tail := Insert(key, v[1..], x);
      forall k | 0 <= k < |tail| ensures key(v[0]) <= key(tail[k]) {
        assert tail[k] in tail;
      }
    }
  }

  /** Sorting orders, whatever the keys. */
  lemma {:induction false} SortOrders<T(!new)>(key: T -> nat, v: seq<T>)
    ensures OrderedBy(key, Sort(key, v))
    decreases v
  {
    if v != [] {
      SortOrders(key, v[1..]);
      InsertOrders(key, Sort(key, v[1..]), v[0]);
    }
  }

  function Itself(x: nat): nat {
    x
  }

  function SortAddrs(v: seq<nat>): seq<nat> {
    Sort(Itself, v)
  }

  lemma SortAddrsKeeps(v: seq<nat>)
    ensures forall y :: y in SortAddrs(v) <==> y in v
    ensures Distinct(v) ==> Sorted(SortAddrs(v))
  {
    SortKeeps(Itself, v);
    if Distinct(v) {
      assert SortedBy(Itself, SortAddrs(v));
    }
  }
}
