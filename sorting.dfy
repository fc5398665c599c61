/** Stable sorting by an integer key, the way `Array.prototype.sort` orders an
    array under a comparator `(a, b) => key(a) - key(b)`: ascending by key, and
    elements with equal keys stay in their input order (the sort has been
    required to be stable since the 2019 edition of ECMA-262). */
module Sorting {
  import opened Seqs

  predicate SortedBy<T>(s: seq<T>, key: T -> int)
  {
    forall i, j :: 0 <= i < j < |s| ==> key(s[i]) <= key(s[j])
  }

  /** The elements whose key is `k`, in their order. */
  function WithKey<T>(s: seq<T>, key: T -> int, k: int): (r: seq<T>)
    ensures |r| <= |s|
  {
    if s == [] then []
    else WithKey(s[..|s| - 1], key, k) + (if key(s[|s| - 1]) == k then [s[|s| - 1]] else [])
  }

  lemma WithKeyAppend<T>(s: seq<T>, x: T, key: T -> int, k: int)
    ensures WithKey(s + [x], key, k) == WithKey(s, key, k) + (if key(x) == k then [x] else [])
  {
    assert (s + [x])[..|s|] == s;
  }

  /** What `WithKey` keeps was in the input and has the key. */
  lemma {:induction false} WithKeyMember<T>(s: seq<T>, key: T -> int, k: int, x: T)
    requires x in WithKey(s, key, k)
    ensures x in s && key(x) == k
  {
    var n := |s|;
    if x !in WithKey(s[..n - 1], key, k) {
      assert x == s[n - 1];
    } else {
      WithKeyMember(s[..n - 1], key, k, x);
    }
  }

  /** Every element is kept by `WithKey` for its own key. */
  lemma {:induction false} WithOwnKey<T>(s: seq<T>, key: T -> int, i: nat)
    requires i < |s|
    ensures s[i] in WithKey(s, key, key(s[i]))
  {
    var n := |s|;
    if i < n - 1 {
      WithOwnKey(s[..n - 1], key, i);
    }
  }

  /** Inserts `x` after the last element whose key is at most `x`'s. */
  function InsertBy<T>(s: seq<T>, x: T, key: T -> int): seq<T>
  {
    if s == [] || key(s[|s| - 1]) <= key(x) then s + [x]
    else InsertBy(s[..|s| - 1], x, key) + [s[|s| - 1]]
  }

  /** Insertion sort, element by element from the left: the reference ordering. */
  function SortBy<T>(s: seq<T>, key: T -> int): seq<T>
  {
    if s == [] then [] else InsertBy(SortBy(s[..|s| - 1], key), s[|s| - 1], key)
  }

  /** Inserting adds exactly `x`. */
  lemma {:induction false} InsertByPermutes<T>(s: seq<T>, x: T, key: T -> int)
    ensures multiset(InsertBy(s, x, key)) == multiset(s) + multiset{x}
  {
    if !(s == [] || key(s[|s| - 1]) <= key(x)) {
      var n := |s|;
      InsertByPermutes(s[..n - 1], x, key);
      assert s == s[..n - 1] + [s[n - 1]];
    }
  }

  /** Inserting into a sorted sequence keeps it sorted. */
  lemma {:induction false} InsertBySorted<T>(s: seq<T>, x: T, key: T -> int)
    requires SortedBy(s, key)
    ensures SortedBy(InsertBy(s, x, key), key)
  {
    var n := |s|;
    if !(s == [] || key(s[n - 1]) <= key(x)) {
      var init := s[..n - 1];
      assert SortedBy(init, key);
      InsertBySorted(init, x, key);
      InsertByPermutes(init, x, key);
      assert forall i :: 0 <= i < |init| ==> key(init[i]) <= key(s[n - 1]);
      BoundKept(init, x, InsertBy(init, x, key), key, key(s[n - 1]));
      SortedAppend(InsertBy(init, x, key), s[n - 1], key);
    }
  }

  /** A permutation of `s` and `x` keeps a bound that `s` and `x` meet. */
  lemma BoundKept<T>(s: seq<T>, x: T, r: seq<T>, key: T -> int, b: int)
    requires multiset(r) == multiset(s) + multiset{x}
    requires key(x) <= b && forall i :: 0 <= i < |s| ==> key(s[i]) <= b
    ensures forall i :: 0 <= i < |r| ==> key(r[i]) <= b
  {
    forall i | 0 <= i < |r| ensures key(r[i]) <= b {
      assert r[i] in multiset(r);
      if r[i] != x {
        assert r[i] in multiset(s);
        var k :| 0 <= k < |s| && s[k] == r[i];
      }
    }
  }

  /** Appending an element whose key bounds every key keeps a sequence sorted. */
  lemma SortedAppend<T>(r: seq<T>, y: T, key: T -> int)
    requires SortedBy(r, key) && forall i :: 0 <= i < |r| ==> key(r[i]) <= key(y)
    ensures SortedBy(r + [y], key)
  {
  }

  /** Inserting puts `x` after every element with its key, and changes the
      order of no key's elements. */
  lemma {:induction false} InsertByStable<T>(s: seq<T>, x: T, key: T -> int, k: int)
    ensures WithKey(InsertBy(s, x, key), key, k) == WithKey(s, key, k) + (if key(x) == k then [x] else [])
  {
    var n := |s|;
    if s == [] || key(s[n - 1]) <= key(x) {
      WithKeyAppend(s, x, key, k);
    } else {
      var init, last := s[..n - 1], s[n - 1];
      assert s == init + [last];
      InsertByStable(init, x, key, k);
      StableStep(InsertBy(init, x, key), init, last, x, key, k);
    }
  }

  /** Putting `last`, whose key exceeds `x`'s, after both sides keeps them apart
      by `x`'s contribution alone. */
  lemma StableStep<T>(r: seq<T>, init: seq<T>, last: T, x: T, key: T -> int, k: int)
    requires key(x) < key(last)
    requires WithKey(r, key, k) == WithKey(init, key, k) + (if key(x) == k then [x] else [])
    ensures WithKey(r + [last], key, k) == WithKey(init + [last], key, k) + (if key(x) == k then [x] else [])
  {
    if key(x) == k {
      WithKeyMiss(r, last, key, k);
      WithKeyMiss(init, last, key, k);
    } else if key(last) == k {
      WithKeyHit(r, last, key, k);
      WithKeyHit(init, last, key, k);
      assert WithKey(init, key, k) + [] == WithKey(init, key, k);
    } else {
      WithKeyMiss(r, last, key, k);
      WithKeyMiss(init, last, key, k);
      assert WithKey(init, key, k) + [] == WithKey(init, key, k);
    }
  }

  lemma WithKeyHit<T>(s: seq<T>, x: T, key: T -> int, k: int)
    requires key(x) == k
    ensures WithKey(s + [x], key, k) == WithKey(s, key, k) + [x]
  {
    WithKeyAppend(s, x, key, k);
  }

  lemma WithKeyMiss<T>(s: seq<T>, x: T, key: T -> int, k: int)
    requires key(x) != k
    ensures WithKey(s + [x], key, k) == WithKey(s, key, k)
  {
    WithKeyAppend(s, x, key, k);
    assert WithKey(s, key, k) + [] == WithKey(s, key, k);
  }

  /** Sorting yields a permutation of its input. */
  lemma {:induction false} SortByPermutes<T>(s: seq<T>, key: T -> int)
    ensures multiset(SortBy(s, key)) == multiset(s)
    ensures |SortBy(s, key)| == |s|
  {
    if s != [] {
      var n := |s|;
      SortByPermutes(s[..n - 1], key);
      InsertByPermutes(SortBy(s[..n - 1], key), s[n - 1], key);
      assert s == s[..n - 1] + [s[n - 1]];
    }
  }

  /** Sorting yields a sequence that is non-decreasing in the key. */
  lemma {:induction false} SortBySorts<T>(s: seq<T>, key: T -> int)
    ensures SortedBy(SortBy(s, key), key)
  {
    if s != [] {
      SortBySorts(s[..|s| - 1], key);
      InsertBySorted(SortBy(s[..|s| - 1], key), s[|s| - 1], key);
    }
  }

  /** Stability: the elements with any one key appear in the output exactly as,
      and in the same order as, they appear in the input. */
  lemma {:induction false} SortByStable<T>(s: seq<T>, key: T -> int, k: int)
    ensures WithKey(SortBy(s, key), key, k) == WithKey(s, key, k)
  {
    if s != [] {
      var n := |s|;
      SortByStable(s[..n - 1], key, k);
      InsertByStable(SortBy(s[..n - 1], key), s[n - 1], key, k);
    }
  }

  /** An already sorted sequence is left exactly as it is. */
  lemma {:induction false} SortBySortedIsIdentity<T>(s: seq<T>, key: T -> int)
    requires SortedBy(s, key)
    ensures SortBy(s, key) == s
  {
    if s != [] {
      var n := |s|;
      assert SortedBy(s[..n - 1], key);
      SortBySortedIsIdentity(s[..n - 1], key);
      assert n - 1 > 0 ==> key(s[..n - 1][n - 2]) <= key(s[n - 1]);
      assert s[..n - 1] + [s[n - 1]] == s;
    }
  }

  /** Sorting twice is sorting once. */
  lemma SortByIdempotent<T>(s: seq<T>, key: T -> int)
    ensures SortBy(SortBy(s, key), key) == SortBy(s, key)
  {
    SortBySorts(s, key);
    SortBySortedIsIdentity(SortBy(s, key), key);
  }

  /** In a sorted sequence no element has a larger key than the last one. */
  lemma SortedLastIsMax<T>(s: seq<T>, key: T -> int, x: T)
    requires SortedBy(s, key) && x in s
    ensures key(x) <= key(s[|s| - 1])
  {
    var j :| 0 <= j < |s| && s[j] == x;
    if j < |s| - 1 {
      assert key(s[j]) <= key(s[|s| - 1]);
    }
  }

  /** When `b` has the same elements as `a` for the key of `a`'s last element,
      that key is at most the key of `b`'s last element. */
  lemma LastKeyAtMost<T>(a: seq<T>, b: seq<T>, key: T -> int)
    requires a != [] && b != []
    requires SortedBy(b, key)
    requires WithKey(a, key, key(a[|a| - 1])) == WithKey(b, key, key(a[|a| - 1]))
    ensures key(a[|a| - 1]) <= key(b[|b| - 1])
  {
    var x := a[|a| - 1];
    WithOwnKey(a, key, |a| - 1);
    WithKeyMember(b, key, key(x), x);
    SortedLastIsMax(b, key, x);
  }

  lemma SortedInit<T>(s: seq<T>, key: T -> int)
    requires s != [] && SortedBy(s, key)
    ensures SortedBy(s[..|s| - 1], key)
  {
  }

  /** An element of a non-empty sequence is kept for its own key. */
  lemma FirstHasKeyed<T>(s: seq<T>, key: T -> int)
    ensures s != [] ==> WithKey(s, key, key(s[0])) != []
  {
    if s != [] {
      WithOwnKey(s, key, 0);
    }
  }

  /** For one key: dropping last elements that share their key keeps that
      key's elements equal, and for their own key shows they are the same. */
  lemma DropLastAt<T>(a: seq<T>, x: T, b: seq<T>, y: T, key: T -> int, k: int)
    requires key(x) == key(y)
    requires WithKey(a + [x], key, k) == WithKey(b + [y], key, k)
    ensures WithKey(a, key, k) == WithKey(b, key, k)
    ensures key(x) == k ==> x == y
  {
    WithKeyAppend(a, x, key, k);
    WithKeyAppend(b, y, key, k);
    var wa, wb := WithKey(a, key, k), WithKey(b, key, k);
    if key(x) == k {
      assert wa + [x] == wb + [y];
      assert |wa| == |wb|;
      assert wa == (wa + [x])[..|wa|] && wb == (wb + [y])[..|wb|];
      assert (wa + [x])[|wa|] == x && (wb + [y])[|wb|] == y;
    } else {
      assert wa + [] == wa && wb + [] == wb;
    }
  }

  /** Dropping last elements that share their key keeps the per-key elements
      equal and shows those last elements are the same. */
  lemma DropLast<T>(a: seq<T>, x: T, b: seq<T>, y: T, key: T -> int)
    requires key(x) == key(y)
    requires forall k :: WithKey(a + [x], key, k) == WithKey(b + [y], key, k)
    ensures x == y
    ensures forall k :: WithKey(a, key, k) == WithKey(b, key, k)
  {
    forall k ensures WithKey(a, key, k) == WithKey(b, key, k) {
      DropLastAt(a, x, b, y, key, k);
    }
    DropLastAt(a, x, b, y, key, key(x));
  }

  /** Two sequences sorted by the same key, which agree on the elements of each
      key and their order, are equal. */
  lemma {:induction false} SortedAndStableUnique<T>(a: seq<T>, b: seq<T>, key: T -> int)
    requires SortedBy(a, key) && SortedBy(b, key)
    requires forall k :: WithKey(a, key, k) == WithKey(b, key, k)
    ensures a == b
    decreases |a|
  {
    if a == [] || b == [] {
      FirstHasKeyed(a, key);
      FirstHasKeyed(b, key);
    } else {
      var a', x := a[..|a| - 1], a[|a| - 1];
      var b', y := b[..|b| - 1], b[|b| - 1];
      assert a == a' + [x] && b == b' + [y];
      LastKeyAtMost(a, b, key);
      LastKeyAtMost(b, a, key);
      DropLast(a', x, b', y, key);
      SortedInit(a, key);
      SortedInit(b, key);
      SortedAndStableUnique(a', b', key);
    }
  }

  /** Any sort that orders by the key and keeps ties in their input order, as
      `Array.prototype.sort` does, produces exactly `SortBy`'s result. */
  lemma StableSortIsSortBy<T>(s: seq<T>, r: seq<T>, key: T -> int)
    requires SortedBy(r, key)
    requires forall k :: WithKey(r, key, k) == WithKey(s, key, k)
    ensures r == SortBy(s, key)
  {
    SortBySorts(s, key);
    forall k ensures WithKey(r, key, k) == WithKey(SortBy(s, key), key, k) {
      SortByStable(s, key, k);
    }
    SortedAndStableUnique(r, SortBy(s, key), key);
  }

  /** One step of the inner loop: moving past an element with a larger key. */
  lemma InsertByShift<T>(p: seq<T>, x: T, key: T -> int, j: nat)
    requires 0 < j <= |p| && key(p[j - 1]) > key(x)
    ensures InsertBy(p[..j], x, key) + p[j..] == InsertBy(p[..j - 1], x, key) + p[j - 1..]
  {
    assert p[..j][..j - 1] == p[..j - 1];
    assert p[j - 1..] == [p[j - 1]] + p[j..];
  }

  /** Where the inner loop stops, `x` goes right there. */
  lemma InsertByStop<T>(p: seq<T>, x: T, key: T -> int, j: nat)
    requires j <= |p| && (j == 0 || key(p[j - 1]) <= key(x))
    ensures InsertBy(p[..j], x, key) == p[..j] + [x]
  {
    if j > 0 {
      assert p[..j][j - 1] == p[j - 1];
    }
  }

  /** Swapping `x` with its left neighbour moves it one place to the left. */
  lemma SwapLeft<T>(p: seq<T>, x: T, rest: seq<T>, j: nat)
    requires 0 < j <= |p|
    ensures (p[..j] + [x] + p[j..] + rest)[j - 1 := x][j := p[j - 1]] == p[..j - 1] + [x] + p[j - 1..] + rest
  {
    var u := (p[..j] + [x] + p[j..] + rest)[j - 1 := x][j := p[j - 1]];
    var v := p[..j - 1] + [x] + p[j - 1..] + rest;
    assert |u| == |v|;
    forall k | 0 <= k < |u| ensures u[k] == v[k] {
      if k < j - 1 {
      } else if k <= j {
      } else if k <= |p| {
        assert v[k] == p[j - 1..][k - j];
      } else {
        assert v[k] == rest[k - |p| - 1];
      }
    }
  }

  /** Where the inner loop starts: `x` right after the whole prefix. */
  lemma SplitAt<T>(q: seq<T>, i: nat)
    requires i < |q|
    ensures q == q[..i][..i] + [q[i]] + q[..i][i..] + q[i + 1..]
  {
    assert q[..i][..i] == q[..i] && q[..i][i..] == [];
    assert q == q[..i] + [q[i]] + q[i + 1..];
  }

  /** Where the inner loop ends: the front is the insertion, the back untouched. */
  lemma JoinAt<T>(q: seq<T>, p: seq<T>, x: T, rest: seq<T>, j: nat, u: seq<T>)
    requires j <= |p| && q == p[..j] + [x] + p[j..] + rest && u == p[..j] + [x] + p[j..]
    ensures q[..|p| + 1] == u && q[|p| + 1..] == rest
  {
    assert q == u + rest;
  }

  /** Inserts `a[i]` into the sorted-so-far prefix `a[..i]` by swapping it left
      past every element with a larger key. */
  method InsertAt<T>(a: array<T>, i: nat, key: T -> int)
    requires i < a.Length
    modifies a
    ensures a[..i + 1] == InsertBy(old(a[..i]), old(a[i]), key)
    ensures a[i + 1..] == old(a[i + 1..])
  {
    var x := a[i];
    ghost var p := a[..i];
    ghost var rest := a[i + 1..];
    var j := i;
    SplitAt(a[..], i);
    assert p[..j] == p && p[j..] == [];
    while j > 0 && key(a[j - 1]) > key(x)
      invariant 0 <= j <= i
      invariant a[..] == p[..j] + [x] + p[j..] + rest
      invariant InsertBy(p, x, key) == InsertBy(p[..j], x, key) + p[j..]
    {
      assert a[j - 1] == p[j - 1];
      InsertByShift(p, x, key, j);
      SwapLeft(p, x, rest, j);
      a[j - 1], a[j] := a[j], a[j - 1];
      j := j - 1;
    }
    InsertByStop(p, x, key, j);
    JoinAt(a[..], p, x, rest, j, InsertBy(p, x, key));
  }

  /** In-place insertion sort over an array, with the result fixed by `SortBy`. */
  method SortInPlace<T>(a: array<T>, key: T -> int)
    modifies a
    ensures a[..] == SortBy(old(a[..]), key)
  {
    ghost var input := a[..];
    var i := 0;
    while i < a.Length
      invariant 0 <= i <= a.Length
      invariant a[..i] == SortBy(input[..i], key)
      invariant a[i..] == input[i..]
    {
      assert a[i] == input[i];
      InsertAt(a, i, key);
      assert input[..i + 1][..i] == input[..i];
      i := i + 1;
    }
    assert a[..] == a[..a.Length];
    assert input == input[..a.Length];
  }
}
