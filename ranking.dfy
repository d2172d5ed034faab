/**
  Ranking by a numeric key in non-increasing order with a stable sort, as a
  sort with `reverse=True` does it: elements with equal keys keep their input
  order. The sort is an insertion sort; the lemmas show that its result is
  sorted, a permutation of the input, keeps every group of equal keys in input
  order, and is the only arrangement with those properties.
 */
module Ranking {

  /** Keys never increase from left to right. */
  predicate SortedDesc<T>(s: seq<T>, key: T -> real) {
    forall i, j :: 0 <= i < j < |s| ==> key(s[i]) >= key(s[j])
  }

  /** The elements of `s` whose key is `k`, in their order in `s`. */
  function WithKey<T>(s: seq<T>, key: T -> real, k: real): (r: seq<T>)
    ensures |r| <= |s|
    ensures forall y :: y in r ==> y in s && key(y) == k
  {
    if s == [] then []
    else (if key(s[0]) == k then [s[0]] else []) + WithKey(s[1..], key, k)
  }

  /** Inserts `x` in front of the first element whose key is not larger than its own. */
  function Insert<T>(x: T, s: seq<T>, key: T -> real): (r: seq<T>)
    ensures |r| == |s| + 1
    ensures multiset(r) == multiset(s) + multiset{x}
    ensures forall y :: y in r ==> y == x || y in s
    ensures SortedDesc(s, key) ==> SortedDesc(r, key)
  {
    if s == [] || key(x) >= key(s[0]) then [x] + s
    else
      var rest := Insert(x, s[1..], key);
      assert s == [s[0]] + s[1..];
      assert SortedDesc(s, key) ==> forall y :: y in rest ==> key(y) <= key(s[0]);
      [s[0]] + rest
  }

  /** Stable sort in non-increasing key order. */
  function SortDesc<T>(s: seq<T>, key: T -> real): (r: seq<T>)
    ensures |r| == |s|
    ensures multiset(r) == multiset(s)
    ensures SortedDesc(r, key)
  {
    if s == [] then []
    else
      assert s == [s[0]] + s[1..];
      Insert(s[0], SortDesc(s[1..], key), key)
  }

  lemma WithKeyCons<T>(x: T, s: seq<T>, key: T -> real, k: real)
    ensures WithKey([x] + s, key, k) == (if key(x) == k then [x] else []) + WithKey(s, key, k)
  {
    assert ([x] + s)[1..] == s;
  }

  /** Inserting never moves an element past one with an equal key. */
  lemma {:induction false} InsertKeepsTies<T>(x: T, s: seq<T>, key: T -> real, k: real)
    ensures WithKey(Insert(x, s, key), key, k) == WithKey([x] + s, key, k)
  {
    if s == [] || key(x) >= key(s[0]) {
    } else {
      var tail := s[1..];
      assert s == [s[0]] + tail;
      InsertKeepsTies(x, tail, key, k);
      WithKeyCons(s[0], Insert(x, tail, key), key, k);
      WithKeyCons(x, tail, key, k);
      WithKeyCons(x, s, key, k);
      WithKeyCons(s[0], tail, key, k);
    }
  }

  /** Stability: for every key, the elements with that key appear in the sorted result in input order. */
  lemma {:induction false} SortKeepsTies<T>(s: seq<T>, key: T -> real, k: real)
    ensures WithKey(SortDesc(s, key), key, k) == WithKey(s, key, k)
  {
    if s != [] {
      var tail := s[1..];
      assert s == [s[0]] + tail;
      SortKeepsTies(tail, key, k);
      InsertKeepsTies(s[0], SortDesc(tail, key), key, k);
      WithKeyCons(s[0], SortDesc(tail, key), key, k);
      WithKeyCons(s[0], tail, key, k);
    }
  }

  /** In a sorted sequence no element has a larger key than the first. */
  lemma SortedHeadIsMax<T>(a: seq<T>, key: T -> real, y: T)
    requires SortedDesc(a, key) && y in a
    ensures key(y) <= key(a[0])
  {
    var i :| 0 <= i < |a| && a[i] == y;
    if i > 0 { assert key(a[0]) >= key(a[i]); }
  }

  /** The first element of a non-empty sequence is in its key's group. */
  lemma HeadGroupNonEmpty<T>(a: seq<T>, key: T -> real)
    ensures a != [] ==> WithKey(a, key, key(a[0])) != []
  {
  }

  /** Equal per-key groups and equal leading keys give equal heads and equal per-key groups of the tails. */
  lemma TailsAgree<T>(a: seq<T>, b: seq<T>, key: T -> real)
    requires a != [] && b != [] && key(a[0]) == key(b[0])
    requires forall k :: WithKey(a, key, k) == WithKey(b, key, k)
    ensures a[0] == b[0]
    ensures forall k :: WithKey(a[1..], key, k) == WithKey(b[1..], key, k)
  {
    var k0 := key(a[0]);
    assert WithKey(a, key, k0) == WithKey(b, key, k0);
    assert WithKey(a, key, k0)[0] == a[0];
    forall k ensures WithKey(a[1..], key, k) == WithKey(b[1..], key, k) {
      assert WithKey(a, key, k) == WithKey(b, key, k);
      var head := if k0 == k then [a[0]] else [];
      assert WithKey(a, key, k) == head + WithKey(a[1..], key, k);
      assert WithKey(b, key, k) == head + WithKey(b[1..], key, k);
      assert WithKey(a[1..], key, k) == WithKey(a, key, k)[|head|..];
    }
  }

  /** Two sorted sequences with the same elements on every key, in the same order, are equal. */
  lemma {:induction false} TiesDetermineSorted<T>(a: seq<T>, b: seq<T>, key: T -> real)
    requires SortedDesc(a, key) && SortedDesc(b, key)
    requires forall k :: WithKey(a, key, k) == WithKey(b, key, k)
    ensures a == b
    decreases |a|
  {
    if a == [] && b == [] {
    } else if a == [] || b == [] {
      HeadGroupNonEmpty(a, key);
      HeadGroupNonEmpty(b, key);
      assert false;
    } else {
      var ka, kb := key(a[0]), key(b[0]);
      assert ka == kb by {
        assert WithKey(a, key, kb) == WithKey(b, key, kb);
        assert b[0] in WithKey(b, key, kb);
        SortedHeadIsMax(a, key, b[0]);
        assert WithKey(a, key, ka) == WithKey(b, key, ka);
        assert a[0] in WithKey(a, key, ka);
        SortedHeadIsMax(b, key, a[0]);
      }
      TailsAgree(a, b, key);
      TiesDetermineSorted(a[1..], b[1..], key);
      assert a == [a[0]] + a[1..];
      assert b == [b[0]] + b[1..];
    }
  }

  /** The stable descending sort is unique: any sorted, tie-preserving rearrangement of `s` is SortDesc(s). */
  lemma SortDescUnique<T>(s: seq<T>, r: seq<T>, key: T -> real)
    requires SortedDesc(r, key)
    requires forall k :: WithKey(r, key, k) == WithKey(s, key, k)
    ensures r == SortDesc(s, key)
  {
    forall k ensures WithKey(r, key, k) == WithKey(SortDesc(s, key), key, k) {
      SortKeepsTies(s, key, k);
    }
    TiesDetermineSorted(r, SortDesc(s, key), key);
  }

  /** Cutting a sequence short keeps, for each key, a prefix of that key's elements. */
  lemma {:induction false} WithKeyOfPrefix<T>(s: seq<T>, n: nat, key: T -> real, k: real)
    requires n <= |s|
    ensures WithKey(s[..n], key, k) <= WithKey(s, key, k)
  {
    if n > 0 {
      WithKeyOfPrefix(s[1..], n - 1, key, k);
      assert s[..n] == [s[0]] + s[1..][..n - 1];
      assert s == [s[0]] + s[1..];
      WithKeyCons(s[0], s[1..][..n - 1], key, k);
      WithKeyCons(s[0], s[1..], key, k);
    }
  }

  /** In a sorted sequence, what a prefix keeps scores no lower than what it drops. */
  lemma PrefixKeepsHighest<T>(s: seq<T>, key: T -> real, n: nat)
    requires SortedDesc(s, key) && n <= |s|
    ensures forall c, d :: (c in s[..n] && d in multiset(s) - multiset(s[..n])) ==> key(c) >= key(d)
  {
    assert s == s[..n] + s[n..];
    assert multiset(s) - multiset(s[..n]) == multiset(s[n..]);
    forall c, d | c in s[..n] && d in multiset(s) - multiset(s[..n]) ensures key(c) >= key(d) {
      var i :| 0 <= i < n && s[..n][i] == c;
      assert d in s[n..];
      var j :| 0 <= j < |s| - n && s[n..][j] == d;
      assert key(s[i]) >= key(s[n + j]);
    }
  }

  /** The score of a (scan position, score) pair. */
  function PairScore(x: (int, real)): real {
    x.1
  }

  /** The three highest-scoring entries of the example are already in order. */
  lemma ExampleTailSorted()
    ensures SortDesc([(1, 90.0), (2, 90.0), (3, 50.0)], PairScore) == [(1, 90.0), (2, 90.0), (3, 50.0)]
  {
    var d: (int, real), c: (int, real), b: (int, real) := (3, 50.0), (2, 90.0), (1, 90.0);
    assert [d][1..] == [];
    assert SortDesc([d], PairScore) == [d];
    assert [c, d][1..] == [d];
    assert SortDesc([c, d], PairScore) == [c, d];
    assert [b, c, d][1..] == [c, d];
  }

  /** The lowest score of the example is inserted last. */
  lemma ExampleInsertLowest()
    ensures Insert((0, 10.0), [(1, 90.0), (2, 90.0), (3, 50.0)], PairScore) == [(1, 90.0), (2, 90.0), (3, 50.0), (0, 10.0)]
  {
    var d: (int, real), c: (int, real), b: (int, real), a: (int, real) := (3, 50.0), (2, 90.0), (1, 90.0), (0, 10.0);
    assert [b, c, d][1..] == [c, d];
    assert [c, d][1..] == [d];
    assert [d][1..] == [];
    assert Insert(a, [d], PairScore) == [d, a];
    assert Insert(a, [c, d], PairScore) == [c, d, a];
  }

  /** Scores 10, 90, 90, 50 rank as 90, 90, 50, 10 with the two 90s in their input order. */
  lemma ExampleTiesKeepOrder()
    ensures SortDesc([(0, 10.0), (1, 90.0), (2, 90.0), (3, 50.0)], PairScore)
            == [(1, 90.0), (2, 90.0), (3, 50.0), (0, 10.0)]
  {
    var s: seq<(int, real)> := [(0, 10.0), (1, 90.0), (2, 90.0), (3, 50.0)];
    assert s[1..] == [(1, 90.0), (2, 90.0), (3, 50.0)];
    ExampleTailSorted();
    ExampleInsertLowest();
  }
}
