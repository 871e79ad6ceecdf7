/** `Array.prototype.sort` with a comparator `(a, b) => key(b) - key(a)`,
    as the source uses it to put the newest item first. ECMAScript
    requires the sort to be stable (section 23.1.3.30 of ECMA-262), so
    the model is a stable insertion sort on a descending integer key. */
module Sorting {

  /** Non-increasing by `key`. */
  ghost predicate SortedDesc<T>(s: seq<T>, key: T -> int) {
    forall i, j :: 0 <= i < j < |s| ==> key(s[i]) >= key(s[j])
  }

  /** Puts `x` after every element whose key is at least `key(x)`, so
      that equal keys keep their relative order. */
  function InsertDesc<T>(sorted: seq<T>, x: T, key: T -> int): (r: seq<T>)
    ensures |r| == |sorted| + 1
    ensures multiset(r) == multiset(sorted) + multiset{x}
    ensures SortedDesc(sorted, key) ==> SortedDesc(r, key)
  {
    if |sorted| == 0 || key(sorted[|sorted| - 1]) >= key(x) then
      assert sorted + [x] == sorted[..|sorted|] + [x];
      sorted + [x]
    else
      var init := sorted[..|sorted| - 1];
      var last := sorted[|sorted| - 1];
      assert sorted == init + [last];
      var m := InsertDesc(init, x, key);
      InsertStep(init, last, m, x, key);
      m + [last]
  }

  /** The last element goes back behind the others when `x` has a larger
      key: every element of the insertion is then at least its key. */
  lemma InsertStep<T>(init: seq<T>, last: T, m: seq<T>, x: T, key: T -> int)
    requires key(last) < key(x)
    requires SortedDesc(init, key) ==> SortedDesc(m, key)
    requires multiset(m) == multiset(init) + multiset{x}
    ensures SortedDesc(init + [last], key) ==> SortedDesc(m + [last], key)
  {
    var sorted := init + [last];
    if !SortedDesc(sorted, key) {
      return;
    }
    assert SortedDesc(init, key) by {
      forall i, j | 0 <= i < j < |init| ensures key(init[i]) >= key(init[j]) {
        assert sorted[i] == init[i] && sorted[j] == init[j];
      }
    }
    forall i | 0 <= i < |m| ensures key(m[i]) >= key(last) {
      assert m[i] in multiset(m);
      if m[i] != x {
        assert m[i] in multiset(init);
        var k :| 0 <= k < |init| && init[k] == m[i];
        assert sorted[k] == init[k] && sorted[|init|] == last;
      }
    }
    var r := m + [last];
    forall i, j | 0 <= i < j < |r| ensures key(r[i]) >= key(r[j]) {
      assert r[i] == m[i];
      if j < |m| {
        assert r[j] == m[j];
      }
    }
  }

  /** The sort itself: insert the elements one by one, left to right. */
  function SortDesc<T>(s: seq<T>, key: T -> int): (r: seq<T>)
    ensures |r| == |s|
    ensures multiset(r) == multiset(s)
    ensures SortedDesc(r, key)
  {
    if |s| == 0 then []
    else
      assert s == s[..|s| - 1] + [s[|s| - 1]];
      InsertDesc(SortDesc(s[..|s| - 1], key), s[|s| - 1], key)
  }

  lemma {:induction false} InsertAfterSmallerKey<T>(sorted: seq<T>, x: T, key: T -> int)
    requires |sorted| == 0 || key(sorted[|sorted| - 1]) >= key(x)
    ensures InsertDesc(sorted, x, key) == sorted + [x]
  {
  }

  /** A list that is already newest-first comes back unchanged: the sort
      never reorders elements it does not have to (a consequence of its
      stability). */
  lemma {:induction false} SortDescOfSorted<T>(s: seq<T>, key: T -> int)
    requires SortedDesc(s, key)
    ensures SortDesc(s, key) == s
  {
    if |s| > 0 {
      var init, last := s[..|s| - 1], s[|s| - 1];
      SortedInit(s, key);
      SortDescOfSorted(init, key);
      SortDescLast(s, key);
      InsertAfterSmallerKey(init, last, key);
      assert init + [last] == s;
    }
  }

  /** The sort of a non-empty list inserts its last element into the
      sort of the others. */
  lemma SortDescLast<T>(s: seq<T>, key: T -> int)
    requires |s| > 0
    ensures SortDesc(s, key) == InsertDesc(SortDesc(s[..|s| - 1], key), s[|s| - 1], key)
  {
  }

  /** Dropping the last element keeps a list sorted, and the last element
      is no larger than the one before it. */
  lemma SortedInit<T>(s: seq<T>, key: T -> int)
    requires |s| > 0 && SortedDesc(s, key)
    ensures SortedDesc(s[..|s| - 1], key)
    ensures |s| > 1 ==> key(s[..|s| - 1][|s| - 2]) >= key(s[|s| - 1])
  {
    var init := s[..|s| - 1];
    forall i, j | 0 <= i < j < |init| ensures key(init[i]) >= key(init[j]) {
      assert init[i] == s[i] && init[j] == s[j];
    }
  }
}
