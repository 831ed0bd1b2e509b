/** A stable ascending sort by a string key, as Collections.sort performs it with a
    comparator that compares the keys with String.compareTo; and Collections.reverse. */
module StableSort {
  import opened JavaStrings

  /** Ascending by key: no element's key is above a later element's key. */
  ghost predicate SortedBy<T>(s: seq<T>, key: T -> string)
  {
    forall i, j :: 0 <= i < j < |s| ==> LexLessEq(key(s[i]), key(s[j]))
  }

  /** The elements of `s` whose key is `k`, in the order of `s`. */
  function WithKey<T>(s: seq<T>, key: T -> string, k: string): seq<T>
    decreases |s|
  {
    if s == [] then []
    else WithKey(s[..|s| - 1], key, k) + (if key(s[|s| - 1]) == k then [s[|s| - 1]] else [])
  }

  /** `x` inserted into `s` behind every element whose key is not above key(x). */
  function Insert<T>(s: seq<T>, x: T, key: T -> string): seq<T>
    decreases |s|
  {
    if s != [] && LexLess(key(x), key(s[|s| - 1])) then Insert(s[..|s| - 1], x, key) + [s[|s| - 1]]
    else s + [x]
  }

  /** Insertion adds `x` and loses nothing. */
  lemma {:induction false} InsertPermutes<T>(s: seq<T>, x: T, key: T -> string)
    ensures multiset(Insert(s, x, key)) == multiset(s) + multiset{x}
    decreases |s|
  {
    if s != [] && LexLess(key(x), key(s[|s| - 1])) {
      var init, last := s[..|s| - 1], s[|s| - 1];
      InsertPermutes(init, x, key);
      assert Insert(s, x, key) == Insert(init, x, key) + [last];
      assert s == init + [last];
      assert multiset(Insert(s, x, key)) == multiset(Insert(init, x, key)) + multiset{last};
    }
  }

  /** Insertion sort: each element in turn inserted into the sorted prefix before it. */
  function SortByKey<T>(s: seq<T>, key: T -> string): seq<T>
    decreases |s|
  {
    if s == [] then [] else Insert(SortByKey(s[..|s| - 1], key), s[|s| - 1], key)
  }

  lemma SortedSnoc<T>(s: seq<T>, x: T, key: T -> string)
    requires SortedBy(s, key)
    requires forall y :: y in s ==> LexLessEq(key(y), key(x))
    ensures SortedBy(s + [x], key)
  {
    var t := s + [x];
    forall i, j | 0 <= i < j < |t| ensures LexLessEq(key(t[i]), key(t[j])) {
      if j == |s| {
        assert t[i] in s;
      }
    }
  }

  /** Inserting into a sorted sequence keeps it sorted. */
  lemma {:induction false} InsertSorted<T>(s: seq<T>, x: T, key: T -> string)
    requires SortedBy(s, key)
    ensures SortedBy(Insert(s, x, key), key)
    decreases |s|
  {
    if s != [] && LexLess(key(x), key(s[|s| - 1])) {
      var init, last := s[..|s| - 1], s[|s| - 1];
      InsertSorted(init, x, key);
      var r := Insert(init, x, key);
      InsertPermutes(init, x, key);
      forall y | y in r ensures LexLessEq(key(y), key(last)) {
        assert y in multiset(r);
        if y != x {
          var k :| 0 <= k < |init| && init[k] == y;
          assert s[k] == y;
        }
      }
      SortedSnoc(r, last, key);
    } else if s != [] {
      var last := s[|s| - 1];
      NotLessMeansAtLeast(key(x), key(last));
      forall y | y in s ensures LexLessEq(key(y), key(x)) {
        var k :| 0 <= k < |s| && s[k] == y;
        LexLessEqTransitive(key(y), key(last), key(x));
      }
      SortedSnoc(s, x, key);
    }
  }

  lemma WithKeySnoc<T>(s: seq<T>, y: T, key: T -> string, k: string)
    ensures WithKey(s + [y], key, k) == WithKey(s, key, k) + (if key(y) == k then [y] else [])
  {
    assert (s + [y])[..|s|] == s;
  }

  /** Inserting `x` puts it behind every element with the same key. */
  lemma {:induction false} InsertWithKey<T>(s: seq<T>, x: T, key: T -> string, k: string)
    ensures WithKey(Insert(s, x, key), key, k) == WithKey(s, key, k) + (if key(x) == k then [x] else [])
    decreases |s|
  {
    if s != [] && LexLess(key(x), key(s[|s| - 1])) {
      var init, last := s[..|s| - 1], s[|s| - 1];
      var r := Insert(init, x, key);
      var xk := if key(x) == k then [x] else [];
      var lk := if key(last) == k then [last] else [];
      InsertWithKey(init, x, key, k);
      WithKeySnoc(r, last, key, k);
      assert s == init + [last];
      WithKeySnoc(init, last, key, k);
      assert key(x) != key(last) by { LexLessIrreflexive(key(x)); }
      if key(x) == k {
        assert lk == [];
        assert WithKey(Insert(s, x, key), key, k) == WithKey(init, key, k) + xk;
      } else {
        assert xk == [];
        assert WithKey(Insert(s, x, key), key, k) == WithKey(init, key, k) + lk;
      }
    } else {
      WithKeySnoc(s, x, key, k);
    }
  }

  /** The sort is a permutation that is ascending by key and keeps elements with
      equal keys in their input order. */
  lemma SortByKeyCorrect<T>(s: seq<T>, key: T -> string)
    ensures multiset(SortByKey(s, key)) == multiset(s)
    ensures SortedBy(SortByKey(s, key), key)
    ensures forall k :: WithKey(SortByKey(s, key), key, k) == WithKey(s, key, k)
  {
    SortByKeyPermutes(s, key);
    SortByKeySorted(s, key);
    forall k ensures WithKey(SortByKey(s, key), key, k) == WithKey(s, key, k) {
      SortByKeyStable(s, key, k);
    }
  }

  lemma {:induction false} SortByKeyPermutes<T>(s: seq<T>, key: T -> string)
    ensures multiset(SortByKey(s, key)) == multiset(s)
    decreases |s|
  {
    if s != [] {
      var init, last := s[..|s| - 1], s[|s| - 1];
      SortByKeyPermutes(init, key);
      InsertPermutes(SortByKey(init, key), last, key);
      assert s == init + [last];
    }
  }

  lemma {:induction false} SortByKeySorted<T>(s: seq<T>, key: T -> string)
    ensures SortedBy(SortByKey(s, key), key)
    decreases |s|
  {
    if s != [] {
      SortByKeySorted(s[..|s| - 1], key);
      InsertSorted(SortByKey(s[..|s| - 1], key), s[|s| - 1], key);
    }
  }

  lemma {:induction false} SortByKeyStable<T>(s: seq<T>, key: T -> string, k: string)
    ensures WithKey(SortByKey(s, key), key, k) == WithKey(s, key, k)
    decreases |s|
  {
    if s != [] {
      var init, last := s[..|s| - 1], s[|s| - 1];
      SortByKeyStable(init, key, k);
      InsertWithKey(SortByKey(init, key), last, key, k);
    }
  }

  /** The in-place insertion sort (each element moved left past the greater keys). */
  method SortInPlace<T>(a: array<T>, key: T -> string)
    modifies a
    ensures a[..] == SortByKey(old(a[..]), key)
  {
    ghost var input := a[..];
    for i := 0 to a.Length
      invariant a[..i] == SortByKey(input[..i], key)
      invariant a[i..] == input[i..]
    {
      assert input[..i + 1][..i] == input[..i];
      assert a[i] == input[i];
      InsertNext(a, i, key);
    }
    assert input[..a.Length] == input;
  }

  /** During one insertion step: the sorted prefix `sorted` with a gap at `j`, its
      elements from `j` on moved one place right, and `rest` behind them. */
  ghost predicate Shifted<T>(cur: seq<T>, sorted: seq<T>, j: nat, rest: seq<T>)
  {
    && j <= |sorted|
    && |cur| == |sorted| + 1 + |rest|
    && cur[..j] == sorted[..j]
    && cur[j + 1..|sorted| + 1] == sorted[j..]
    && cur[|sorted| + 1..] == rest
  }

  /** One step of the insertion sort: a[i] moved into the sorted prefix a[..i]. */
  method InsertNext<T>(a: array<T>, i: nat, key: T -> string)
    requires i < a.Length
    modifies a
    ensures a[..i + 1] == Insert(old(a[..i]), old(a[i]), key)
    ensures a[i + 1..] == old(a[i + 1..])
  {
    ghost var sorted := a[..i];
    ghost var rest := a[i + 1..];
    var x := a[i];
    var j := i;
    assert Shifted(a[..], sorted, j, rest) by {
      assert a[..][..i] == a[..i] && a[..][i + 1..] == a[i + 1..];
    }
    assert sorted[..j] == sorted && sorted[j..] == [];
    while j > 0 && LexLess(key(x), key(a[j - 1]))
      invariant 0 <= j <= i
      invariant Shifted(a[..], sorted, j, rest)
      invariant Insert(sorted, x, key) == Insert(sorted[..j], x, key) + sorted[j..]
    {
      assert a[j - 1] == a[..][..j][j - 1];
      InsertShift(sorted, x, key, j);
      ghost var before := a[..];
      a[j] := a[j - 1];
      assert a[..] == before[j := before[j - 1]];
      ShiftStep(before, sorted, j, rest);
      j := j - 1;
    }
    ghost var before := a[..];
    a[j] := x;
    assert a[..] == before[j := x];
    InsertStop(sorted, x, key, j);
    PlaceStep(before, sorted, j, rest, x);
  }

  /** Moving the element before the gap into it moves the gap one place left. */
  lemma ShiftStep<T>(cur: seq<T>, sorted: seq<T>, j: nat, rest: seq<T>)
    requires 0 < j && Shifted(cur, sorted, j, rest)
    ensures Shifted(cur[j := cur[j - 1]], sorted, j - 1, rest)
  {
    var next := cur[j := cur[j - 1]];
    var n := |sorted|;
    assert next[..j - 1] == cur[..j - 1] == sorted[..j - 1] by {
      assert cur[..j][..j - 1] == cur[..j - 1] && sorted[..j][..j - 1] == sorted[..j - 1];
    }
    assert next[j..n + 1] == [sorted[j - 1]] + sorted[j..] by {
      assert cur[..j][j - 1] == sorted[..j][j - 1];
      assert next[j + 1..n + 1] == cur[j + 1..n + 1];
    }
    assert sorted[j - 1..] == [sorted[j - 1]] + sorted[j..];
    assert next[n + 1..] == cur[n + 1..];
  }

  /** Filling the gap with `x` gives the prefix with `x` inserted at `j`. */
  lemma PlaceStep<T>(cur: seq<T>, sorted: seq<T>, j: nat, rest: seq<T>, x: T)
    requires Shifted(cur, sorted, j, rest)
    ensures cur[j := x][..|sorted| + 1] == sorted[..j] + [x] + sorted[j..]
    ensures cur[j := x][|sorted| + 1..] == rest
  {
    var next := cur[j := x];
    var n := |sorted|;
    assert next[..j] == cur[..j];
    assert next[j + 1..n + 1] == cur[j + 1..n + 1];
    assert next[..n + 1] == next[..j] + [x] + next[j + 1..n + 1];
  }

  /** The scan moves left past an element whose key is above key(x). */
  lemma InsertShift<T>(sorted: seq<T>, x: T, key: T -> string, j: nat)
    requires 0 < j <= |sorted|
    requires LexLess(key(x), key(sorted[j - 1]))
    ensures Insert(sorted[..j], x, key) + sorted[j..] == Insert(sorted[..j - 1], x, key) + sorted[j - 1..]
  {
    var p := sorted[..j];
    assert p[..|p| - 1] == sorted[..j - 1] && p[|p| - 1] == sorted[j - 1];
    assert Insert(p, x, key) == Insert(sorted[..j - 1], x, key) + [sorted[j - 1]];
    assert sorted[j - 1..] == [sorted[j - 1]] + sorted[j..];
  }

  /** The scan stops at the front or behind an element whose key is not above key(x). */
  lemma InsertStop<T>(sorted: seq<T>, x: T, key: T -> string, j: nat)
    requires j <= |sorted|
    requires j == 0 || !LexLess(key(x), key(sorted[j - 1]))
    ensures Insert(sorted[..j], x, key) == sorted[..j] + [x]
  {
  }

  /** `s` back to front. */
  function Reversed<T>(s: seq<T>): (r: seq<T>)
    ensures |r| == |s|
  {
    seq(|s|, k requires 0 <= k < |s| => s[|s| - 1 - k])
  }

  /** Collections.reverse: swaps from both ends towards the middle. */
  method ReverseInPlace<T>(a: array<T>)
    modifies a
    ensures a[..] == Reversed(old(a[..]))
  {
    var lo, hi := 0, a.Length - 1;
    while lo < hi
      invariant 0 <= lo <= a.Length && hi == a.Length - 1 - lo
      invariant forall k :: 0 <= k < lo ==> a[k] == old(a[a.Length - 1 - k]) && a[a.Length - 1 - k] == old(a[k])
      invariant forall k :: lo <= k < a.Length - lo ==> a[k] == old(a[k])
    {
      a[lo], a[hi] := a[hi], a[lo];
      lo, hi := lo + 1, hi - 1;
    }
  }
}
