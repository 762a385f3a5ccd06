/**
 * The display order of the listing: `getRepositorySortingKey` and the
 * descending comparator handed to `Array.prototype.sort`, which is stable.
 * The sort is modelled as a stable insertion sort over (key, item) pairs;
 * the lemmas show it is the one arrangement such a sort may produce.
 */
module Ordering {
  import opened Wrappers
  import opened Runs

  /**
   * `getRepositorySortingKey`: the run's update time, else its creation
   * time, else 0. The start time is not consulted.
   */
  function SortingKey(status: Option<RunStatus>): int {
    if status.Some? then
      if status.value.runUpdatedDate.Some? then status.value.runUpdatedDate.value
      else if status.value.runCreatedDate.Some? then status.value.runCreatedDate.value
      else 0
    else 0
  }

  /** The comparator of `updateRepository`: later keys sort first. */
  function Compare(keyA: int, keyB: int): int {
    if keyA < keyB then 1 else if keyA > keyB then -1 else 0
  }

  /** Every pair of positions is in an order the comparator accepts. */
  predicate Ordered<T>(s: seq<(int, T)>) {
    forall i, j :: 0 <= i < j < |s| ==> Compare(s[i].0, s[j].0) <= 0
  }

  /** The entries with key `k`, in their order in `s`. */
  function WithKey<T>(s: seq<(int, T)>, k: int): seq<(int, T)> {
    if s == [] then [] else (if s[0].0 == k then [s[0]] else []) + WithKey(s[1..], k)
  }

  /** Insert `x` before the first entry with a smaller key. */
  function Insert<T>(x: (int, T), s: seq<(int, T)>): seq<(int, T)> {
    if s == [] || x.0 >= s[0].0 then [x] + s else [s[0]] + Insert(x, s[1..])
  }

  /** Stable sort, largest key first. */
  function SortDesc<T>(s: seq<(int, T)>): seq<(int, T)> {
    if s == [] then [] else Insert(s[0], SortDesc(s[1..]))
  }

  function Items<T>(s: seq<(int, T)>): (r: seq<T>)
    ensures |r| == |s| && forall i :: 0 <= i < |s| ==> r[i] == s[i].1
  {
    if s == [] then [] else [s[0].1] + Items(s[1..])
  }

  ghost predicate DistinctItems<T>(s: seq<(int, T)>) {
    forall i, j :: 0 <= i < j < |s| ==> s[i].1 != s[j].1
  }

  lemma {:induction false} InsertPermutation<T>(x: (int, T), s: seq<(int, T)>)
    ensures multiset(Insert(x, s)) == multiset{x} + multiset(s)
  {
    if s != [] && x.0 < s[0].0 {
      InsertPermutation(x, s[1..]);
      assert s == [s[0]] + s[1..];
    }
  }

  /** The sorted list holds the same entries, each as often, as the input. */
  lemma {:induction false} SortDescPermutation<T>(s: seq<(int, T)>)
    ensures multiset(SortDesc(s)) == multiset(s)
  {
    if s != [] {
      SortDescPermutation(s[1..]);
      InsertPermutation(s[0], SortDesc(s[1..]));
      assert s == [s[0]] + s[1..];
    }
  }

  lemma {:induction false} InsertOrdered<T>(x: (int, T), s: seq<(int, T)>)
    requires Ordered(s)
    ensures Ordered(Insert(x, s))
  {
    if s != [] && x.0 < s[0].0 {
      InsertOrdered(x, s[1..]);
      var t := Insert(x, s[1..]);
      InsertPermutation(x, s[1..]);
      forall j | 0 <= j < |t| ensures s[0].0 >= t[j].0 {
        assert t[j] in multiset(t);
        assert t[j] == x || t[j] in multiset(s[1..]);
      }
    }
  }

  /** Keys in the sorted list never increase. */
  lemma {:induction false} SortDescOrdered<T>(s: seq<(int, T)>)
    ensures Ordered(SortDesc(s))
    ensures forall i, j :: 0 <= i < j < |SortDesc(s)| ==> SortDesc(s)[i].0 >= SortDesc(s)[j].0
  {
    if s != [] {
      SortDescOrdered(s[1..]);
      InsertOrdered(s[0], SortDesc(s[1..]));
    }
  }

  lemma WithKeyPrepend<T>(x: (int, T), s: seq<(int, T)>, k: int)
    ensures WithKey([x] + s, k) == (if x.0 == k then [x] else []) + WithKey(s, k)
  {
    assert ([x] + s)[1..] == s;
  }

  lemma {:induction false} InsertWithKey<T>(x: (int, T), s: seq<(int, T)>, k: int)
    ensures WithKey(Insert(x, s), k) == (if x.0 == k then [x] else []) + WithKey(s, k)
  {
    if s == [] || x.0 >= s[0].0 {
      WithKeyPrepend(x, s, k);
    } else {
      var t := Insert(x, s[1..]);
      InsertWithKey(x, s[1..], k);
      WithKeyPrepend(s[0], t, k);
      if x.0 == k {
        assert WithKey(s, k) == WithKey(s[1..], k);
      } else {
        assert WithKey(t, k) == WithKey(s[1..], k);
      }
    }
  }

  /** Entries with equal keys keep their relative order: the sort is stable. */
  lemma {:induction false} SortDescStable<T>(s: seq<(int, T)>, k: int)
    ensures WithKey(SortDesc(s), k) == WithKey(s, k)
  {
    if s != [] {
      SortDescStable(s[1..], k);
      InsertWithKey(s[0], SortDesc(s[1..]), k);
    }
  }

  lemma {:induction false} WithKeyNonEmpty<T>(s: seq<(int, T)>, k: int)
    requires WithKey(s, k) != []
    ensures exists i :: 0 <= i < |s| && s[i].0 == k
  {
    if s[0].0 != k {
      WithKeyNonEmpty(s[1..], k);
      var i :| 0 <= i < |s[1..]| && s[1..][i].0 == k;
      assert s[i + 1].0 == k;
    }
  }

  /** A list is empty exactly when it has no entries under any key. */
  lemma {:induction false} WithKeyEmpty<T>(s: seq<(int, T)>)
    ensures s == [] <==> forall k :: WithKey(s, k) == []
  {
    if s != [] {
      WithKeyPrepend(s[0], s[1..], s[0].0);
      assert [s[0]] + s[1..] == s;
      assert WithKey(s, s[0].0) != [];
    }
  }

  /** The entries under the first entry's key start with that entry. */
  lemma WithKeyHead<T>(s: seq<(int, T)>)
    requires s != []
    ensures WithKey(s, s[0].0) != [] && WithKey(s, s[0].0)[0] == s[0]
  {
    WithKeyPrepend(s[0], s[1..], s[0].0);
    assert [s[0]] + s[1..] == s;
  }

  /** In an ordered list the first key is at least every key that has an entry. */
  lemma OrderedHeadMax<T>(s: seq<(int, T)>, k: int)
    requires Ordered(s) && WithKey(s, k) != []
    ensures s[0].0 >= k
  {
    WithKeyNonEmpty(s, k);
    var i :| 0 <= i < |s| && s[i].0 == k;
    assert i == 0 || Compare(s[0].0, s[i].0) <= 0;
  }

  /**
   * Two non-empty ordered lists with the same entries under every key, in
   * the same order, start with the same entry.
   */
  lemma OrderedSameHead<T>(a: seq<(int, T)>, b: seq<(int, T)>)
    requires Ordered(a) && Ordered(b) && a != [] && b != []
    requires forall k :: WithKey(a, k) == WithKey(b, k)
    ensures a[0] == b[0]
  {
    WithKeyHead(a);
    WithKeyHead(b);
    OrderedHeadMax(b, a[0].0);
    OrderedHeadMax(a, b[0].0);
    assert WithKey(a, a[0].0) == WithKey(b, b[0].0);
  }

  /** Lists with the same first entry and the same entries under every key agree after it too. */
  lemma SameHeadTails<T>(a: seq<(int, T)>, b: seq<(int, T)>)
    requires a != [] && b != [] && a[0] == b[0]
    requires forall k :: WithKey(a, k) == WithKey(b, k)
    ensures forall k :: WithKey(a[1..], k) == WithKey(b[1..], k)
  {
    forall k ensures WithKey(a[1..], k) == WithKey(b[1..], k) {
      assert a == [a[0]] + a[1..];
      assert b == [b[0]] + b[1..];
      WithKeyPrepend(a[0], a[1..], k);
      WithKeyPrepend(b[0], b[1..], k);
      var p := if a[0].0 == k then [a[0]] else [];
      assert WithKey(a, k) == p + WithKey(a[1..], k);
      assert WithKey(b, k) == p + WithKey(b[1..], k);
      assert (p + WithKey(a[1..], k))[|p|..] == WithKey(a[1..], k);
      assert (p + WithKey(b[1..], k))[|p|..] == WithKey(b[1..], k);
    }
  }

  /**
   * Two ordered lists with the same entries under every key, in the same
   * order, are equal: a stable sort with this comparator has one result.
   */
  lemma {:induction false} OrderedStableUnique<T>(a: seq<(int, T)>, b: seq<(int, T)>)
    requires Ordered(a) && Ordered(b)
    requires forall k :: WithKey(a, k) == WithKey(b, k)
    ensures a == b
    decreases |a|
  {
    if a == [] || b == [] {
      WithKeyEmpty(a);
      WithKeyEmpty(b);
    } else {
      OrderedSameHead(a, b);
      SameHeadTails(a, b);
      OrderedStableUnique(a[1..], b[1..]);
      assert a == [a[0]] + a[1..];
      assert b == [b[0]] + b[1..];
    }
  }

  /**
   * Any list that is ordered by the comparator and keeps the input order
   * among equal keys is the insertion sort's result.
   */
  lemma SortDescIsTheStableSort<T>(s: seq<(int, T)>, r: seq<(int, T)>)
    requires Ordered(r)
    requires forall k :: WithKey(r, k) == WithKey(s, k)
    ensures r == SortDesc(s)
  {
    SortDescOrdered(s);
    forall k ensures WithKey(r, k) == WithKey(SortDesc(s), k) {
      SortDescStable(s, k);
    }
    OrderedStableUnique(r, SortDesc(s));
  }

  lemma {:induction false} InsertDistinctItems<T>(x: (int, T), s: seq<(int, T)>)
    requires DistinctItems(s)
    requires forall i :: 0 <= i < |s| ==> s[i].1 != x.1
    ensures DistinctItems(Insert(x, s))
  {
    if s != [] && x.0 < s[0].0 {
      InsertDistinctItems(x, s[1..]);
      var t := Insert(x, s[1..]);
      InsertPermutation(x, s[1..]);
      forall j | 0 <= j < |t| ensures s[0].1 != t[j].1 {
        assert t[j] in multiset(t);
        assert t[j] == x || t[j] in multiset(s[1..]);
      }
      assert Insert(x, s) == [s[0]] + t;
    }
  }

  /** Sorting never makes two positions hold the same item. */
  lemma {:induction false} SortDescDistinctItems<T>(s: seq<(int, T)>)
    requires DistinctItems(s)
    ensures DistinctItems(SortDesc(s))
  {
    if s != [] {
      SortDescDistinctItems(s[1..]);
      SortDescPermutation(s[1..]);
      var t := SortDesc(s[1..]);
      forall i | 0 <= i < |t| ensures t[i].1 != s[0].1 {
        assert t[i] in multiset(s[1..]);
      }
      InsertDistinctItems(s[0], t);
    }
  }

  /** Sorting keeps the items: the same ones, and distinct ones stay distinct. */
  lemma SortDescItems<T>(t: seq<(int, T)>)
    ensures forall x :: x in Items(SortDesc(t)) <==> x in Items(t)
    ensures DistinctItems(t) ==> DistinctItems(SortDesc(t))
  {
    var s := SortDesc(t);
    SortDescPermutation(t);
    if DistinctItems(t) {
      SortDescDistinctItems(t);
    }
    forall x | x in Items(s) ensures x in Items(t) {
      var i :| 0 <= i < |s| && Items(s)[i] == x;
      assert s[i] in multiset(t);
      var j :| 0 <= j < |t| && t[j] == s[i];
      assert Items(t)[j] == x;
    }
    forall x | x in Items(t) ensures x in Items(s) {
      var j :| 0 <= j < |t| && Items(t)[j] == x;
      assert t[j] in multiset(s);
      var i :| 0 <= i < |s| && s[i] == t[j];
      assert Items(s)[i] == x;
    }
  }
}
