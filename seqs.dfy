/** Sequence helpers shared by the store: JavaScript's `filter`, removal of every
    copy of a value, subsequences and duplicate-freedom. */
module Seqs {

  datatype Option<+T> = None | Some(value: T)

  /** The elements of `s` that satisfy `p`, in their original order, as
      `Array.prototype.filter` returns them. */
  function Filter<T>(s: seq<T>, p: T -> bool): (r: seq<T>)
    ensures |r| <= |s|
    ensures forall i :: 0 <= i < |r| ==> r[i] in s && p(r[i])
    ensures forall i :: 0 <= i < |s| && p(s[i]) ==> s[i] in r
  {
    if s == [] then [] else (if p(s[0]) then [s[0]] else []) + Filter(s[1..], p)
  }

  /** `a` is obtained from `b` by deleting some elements, keeping the order of the rest. */
  predicate Subsequence<T(==)>(a: seq<T>, b: seq<T>)
    decreases |b|
  {
    if a == [] then true
    else if b == [] then false
    else (a[0] == b[0] && Subsequence(a[1..], b[1..])) || Subsequence(a, b[1..])
  }

  predicate NoDuplicates<T(==)>(s: seq<T>)
  {
    forall i, j :: 0 <= i < j < |s| ==> s[i] != s[j]
  }

  /** `list.filter(e => e != x)`: every copy of `x` goes, the rest stay in order. */
  function RemoveAll<T(==)>(s: seq<T>, x: T): seq<T>
  {
    Filter(s, y => y != x)
  }

  lemma {:induction false} FilterConcat<T>(a: seq<T>, b: seq<T>, p: T -> bool)
    ensures Filter(a + b, p) == Filter(a, p) + Filter(b, p)
  {
    if a == [] {
      assert a + b == b;
    } else {
      assert (a + b)[0] == a[0];
      assert (a + b)[1..] == a[1..] + b;
      FilterConcat(a[1..], b, p);
    }
  }

  lemma {:induction false} FilterAll<T>(s: seq<T>, p: T -> bool)
    requires forall i :: 0 <= i < |s| ==> p(s[i])
    ensures Filter(s, p) == s
  {
    if s != [] {
      FilterAll(s[1..], p);
      assert [s[0]] + s[1..] == s;
    }
  }

  lemma {:induction false} FilterCount<T>(s: seq<T>, p: T -> bool, x: T)
    ensures multiset(Filter(s, p))[x] == if p(x) then multiset(s)[x] else 0
  {
    if s != [] {
      FilterCount(s[1..], p, x);
      var head: seq<T> := if p(s[0]) then [s[0]] else [];
      assert Filter(s, p) == head + Filter(s[1..], p);
      assert multiset(Filter(s, p)) == multiset(head) + multiset(Filter(s[1..], p));
      assert s == [s[0]] + s[1..];
      assert multiset(s) == multiset{s[0]} + multiset(s[1..]);
    }
  }

  lemma {:induction false} FilterIsSubsequence<T>(s: seq<T>, p: T -> bool)
    ensures Subsequence(Filter(s, p), s)
  {
    if s != [] {
      FilterIsSubsequence(s[1..], p);
      var r := Filter(s, p);
      if p(s[0]) {
        assert r[0] == s[0] && r[1..] == Filter(s[1..], p);
      } else {
        assert r == Filter(s[1..], p);
      }
    }
  }

  lemma {:induction false} SubsequenceKeepsUnique<T>(a: seq<T>, b: seq<T>)
    requires Subsequence(a, b) && NoDuplicates(b)
    ensures NoDuplicates(a)
    decreases |b|
  {
    if a != [] && b != [] {
      assert NoDuplicates(b[1..]) by {
        forall i, j | 0 <= i < j < |b[1..]| ensures b[1..][i] != b[1..][j] {
          assert b[1..][i] == b[i + 1] && b[1..][j] == b[j + 1];
        }
      }
      if a[0] == b[0] && Subsequence(a[1..], b[1..]) {
        SubsequenceKeepsUnique(a[1..], b[1..]);
        SubsequenceMembers(a[1..], b[1..]);
        forall i, j | 0 <= i < j < |a| ensures a[i] != a[j] {
          if i == 0 {
            assert a[j] == a[1..][j - 1];
            assert a[j] in b[1..];
            var k :| 0 <= k < |b[1..]| && b[1..][k] == a[j];
            assert b[k + 1] == a[j];
          } else {
            assert a[i] == a[1..][i - 1] && a[j] == a[1..][j - 1];
          }
        }
      } else {
        SubsequenceKeepsUnique(a, b[1..]);
      }
    }
  }

  lemma {:induction false} SubsequenceMembers<T>(a: seq<T>, b: seq<T>)
    requires Subsequence(a, b)
    ensures forall x :: x in a ==> x in b
    decreases |b|
  {
    if a != [] && b != [] {
      if a[0] == b[0] && Subsequence(a[1..], b[1..]) {
        SubsequenceMembers(a[1..], b[1..]);
        assert a == [a[0]] + a[1..];
      } else {
        SubsequenceMembers(a, b[1..]);
      }
    }
  }

  /** What removal by value promises: no copy of `x` is left, every other
      value keeps its number of copies, and the survivors keep their order. */
  lemma RemoveAllSpec<T>(s: seq<T>, x: T)
    ensures x !in RemoveAll(s, x)
    ensures forall y :: y != x ==> multiset(RemoveAll(s, x))[y] == multiset(s)[y]
    ensures Subsequence(RemoveAll(s, x), s)
    ensures x !in s ==> RemoveAll(s, x) == s
  {
    forall y | y != x ensures multiset(RemoveAll(s, x))[y] == multiset(s)[y] {
      FilterCount(s, z => z != x, y);
    }
    FilterIsSubsequence(s, z => z != x);
    if x !in s {
      FilterAll(s, z => z != x);
    }
  }

  lemma {:induction false} FilterShrinks<T>(s: seq<T>, p: T -> bool, i: nat)
    requires i < |s| && !p(s[i])
    ensures |Filter(s, p)| < |s|
  {
    if i > 0 {
      FilterShrinks(s[1..], p, i - 1);
    }
  }

  lemma RemoveAllShrinks<T>(s: seq<T>, x: T)
    requires x in s
    ensures |RemoveAll(s, x)| < |s|
  {
    var i :| 0 <= i < |s| && s[i] == x;
    FilterShrinks(s, y => y != x, i);
  }

  lemma RemoveAllKeepsUnique<T>(s: seq<T>, x: T)
    requires NoDuplicates(s)
    ensures NoDuplicates(RemoveAll(s, x))
  {
    RemoveAllSpec(s, x);
    SubsequenceKeepsUnique(RemoveAll(s, x), s);
  }

  /** Removing what was just appended gives back the original, when it was not there before. */
  lemma RemoveAllAppended<T>(s: seq<T>, x: T)
    requires x !in s
    ensures RemoveAll(s + [x], x) == s
  {
    FilterConcat(s, [x], y => y != x);
    RemoveAllSpec(s, x);
    assert Filter([x], y => y != x) == [];
  }

  lemma AppendKeepsUnique<T>(s: seq<T>, x: T)
    requires NoDuplicates(s) && x !in s
    ensures NoDuplicates(s + [x])
  {
  }
}
