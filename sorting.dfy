// An ascending, permutation-preserving copy of a sequence of integers: the
// behaviour of the `sorted` built-in that the order statistics rely on.

module Sorting {

  /** Ascending (non-decreasing) order. */
  predicate Sorted(s: seq<int>) {
    forall i, j :: 0 <= i < j < |s| ==> s[i] <= s[j]
  }

  /** Every element of a sequence is at least `lo` when every value of its
      multiset is. */
  lemma ElementsAtLeast(lo: int, t: seq<int>)
    requires forall y :: y in multiset(t) ==> lo <= y
    ensures forall k :: 0 <= k < |t| ==> lo <= t[k]
  {
    forall k | 0 <= k < |t|
      ensures lo <= t[k]
    {
      assert t[k] in multiset(t);
    }
  }

  /** Prefixing a value no larger than any element keeps a sequence ascending. */
  lemma ConsSorted(y: int, t: seq<int>)
    requires Sorted(t)
    requires forall k :: 0 <= k < |t| ==> y <= t[k]
    ensures Sorted([y] + t)
  {
    var r := [y] + t;
    forall i, j | 0 <= i < j < |r|
      ensures r[i] <= r[j]
    {
      assert r[j] == t[j - 1];
      if i > 0 {
        assert r[i] == t[i - 1];
      }
    }
  }

  /** The tail of an ascending sequence is ascending. */
  lemma TailSorted(s: seq<int>)
    requires Sorted(s) && s != []
    ensures Sorted(s[1..])
  {
    var t := s[1..];
    forall i, j | 0 <= i < j < |t|
      ensures t[i] <= t[j]
    {
      assert t[i] == s[i + 1] && t[j] == s[j + 1];
    }
  }

  /** The head of an ascending sequence is its least value. */
  lemma HeadIsLeast(s: seq<int>, y: int)
    requires Sorted(s) && s != [] && y in multiset(s)
    ensures s[0] <= y
  {
    var k :| 0 <= k < |s| && s[k] == y;
  }

  /** Inserts `x` into an ascending sequence, keeping it ascending. */
  function Insert(x: int, s: seq<int>): (r: seq<int>)
    requires Sorted(s)
    ensures Sorted(r)
    ensures multiset(r) == multiset(s) + multiset{x}
  {
    if s == [] then [x]
    else if x <= s[0] then
      ConsSorted(x, s);
      [x] + s
    else
      TailSorted(s);
      var rest := Insert(x, s[1..]);
      assert s == [s[0]] + s[1..];
      assert forall y :: y in multiset(rest) ==> s[0] <= y by {
        forall y | y in multiset(rest)
          ensures s[0] <= y
        {
          if y != x {
            assert y in multiset(s);
            HeadIsLeast(s, y);
          }
        }
      }
      ElementsAtLeast(s[0], rest);
      ConsSorted(s[0], rest);
      [s[0]] + rest
  }

  /** A sorted copy of `s`; `s` itself is left as it was. */
  function SortedCopy(s: seq<int>): (r: seq<int>)
    ensures Sorted(r)
    ensures multiset(r) == multiset(s)
    ensures |r| == |s|
  {
    if s == [] then []
    else
      assert s == [s[0]] + s[1..];
      Insert(s[0], SortedCopy(s[1..]))
  }

  /** Only one ascending sequence holds a given multiset of values: every sort
      returns the same copy. */
  lemma {:induction false} SortedPermutationUnique(a: seq<int>, b: seq<int>)
    requires Sorted(a) && Sorted(b)
    requires multiset(a) == multiset(b)
    ensures a == b
  {
    if a == [] {
      assert |b| == |multiset(b)| == 0;
    } else {
      SameHeads(a, b);
      TailSorted(a);
      TailSorted(b);
      SortedPermutationUnique(a[1..], b[1..]);
      assert a == [a[0]] + a[1..] && b == [b[0]] + b[1..];
    }
  }

  /** Two non-empty ascending sequences with the same multiset start with the
      same value, and what follows holds the same multiset. */
  lemma SameHeads(a: seq<int>, b: seq<int>)
    requires Sorted(a) && Sorted(b) && a != []
    requires multiset(a) == multiset(b)
    ensures b != [] && a[0] == b[0]
    ensures multiset(a[1..]) == multiset(b[1..])
  {
    assert |b| == |multiset(b)| == |multiset(a)| == |a|;
    assert a[0] in multiset(b) && b[0] in multiset(a);
    HeadIsLeast(a, b[0]);
    HeadIsLeast(b, a[0]);
    MultisetOfTail(a);
    MultisetOfTail(b);
  }

  /** Dropping the head removes one occurrence of it from the multiset. */
  lemma MultisetOfTail(s: seq<int>)
    requires s != []
    ensures multiset(s[1..]) == multiset(s) - multiset{s[0]}
  {
    assert s == [s[0]] + s[1..];
    assert multiset(s) == multiset{s[0]} + multiset(s[1..]);
  }
}
