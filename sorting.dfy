/**
  The contract of std::sort from <algorithm>, as the example uses it: sort the
  range [first, first + n) of a random-access sequence into ascending order by
  the element type's operator<, permuting it in place and touching nothing
  outside the range (ISO/IEC 14882:2020, section 25.8.2.1 [sort]).

  Elements are compared through a key: T -> int that gives operator< on T
  (the identity on int, the character code on char), so one definition of
  "sorted", one reference sort and one in-place sort serve both element types
  of the example.
 */
module Sorting {

  /** Ascending by the key: no element is greater than one after it. */
  ghost predicate Sorted<T>(s: seq<T>, key: T -> int) {
    forall i, j :: 0 <= i < j < |s| ==> key(s[i]) <= key(s[j])
  }

  /** operator< tells any two distinct elements apart (a strict total order). */
  ghost predicate Injective<T(!new)>(key: T -> int) {
    forall x, y :: key(x) == key(y) ==> x == y
  }

  /** b is no larger than the key of any element of s. */
  ghost predicate LowerBound<T>(b: int, s: seq<T>, key: T -> int) {
    forall i :: 0 <= i < |s| ==> b <= key(s[i])
  }

  /** Puts x into the sequence s, before the first element not smaller than it. */
  function Insert<T>(x: T, s: seq<T>, key: T -> int): (r: seq<T>)
    ensures |r| == |s| + 1
    ensures multiset(r) == multiset(s) + multiset{x}
  {
    if s == [] then [x]
    else if key(x) <= key(s[0]) then [x] + s
    else
      assert s == [s[0]] + s[1..];
      [s[0]] + Insert(x, s[1..], key)
  }

  /** A bound below x and below all of s is below everything Insert gives. */
  lemma {:induction false} InsertLowerBound<T>(b: int, x: T, s: seq<T>, key: T -> int)
    requires b <= key(x) && LowerBound(b, s, key)
    ensures LowerBound(b, Insert(x, s, key), key)
  {
    if s != [] && key(s[0]) < key(x) {
      LowerBoundTail(b, s, key);
      InsertLowerBound(b, x, s[1..], key);
      LowerBoundCons(b, s[0], Insert(x, s[1..], key), key);
    }
  }

  /** Inserting into a sorted sequence keeps it sorted. */
  lemma {:induction false} InsertSorted<T>(x: T, s: seq<T>, key: T -> int)
    requires Sorted(s, key)
    ensures Sorted(Insert(x, s, key), key)
  {
    if s == [] {
    } else if key(x) <= key(s[0]) {
      SortedCons(s[0], s[1..], key);
      assert [s[0]] + s[1..] == s;
      LowerBoundCons(key(x), s[0], s[1..], key);
      SortedCons(x, s, key);
    } else {
      assert [s[0]] + s[1..] == s;
      SortedCons(s[0], s[1..], key);
      InsertSorted(x, s[1..], key);
      InsertLowerBound(key(s[0]), x, s[1..], key);
      SortedCons(s[0], Insert(x, s[1..], key), key);
    }
  }

  /** A lower bound of a sequence is one of its tail. */
  lemma LowerBoundTail<T>(b: int, s: seq<T>, key: T -> int)
    requires s != [] && LowerBound(b, s, key)
    ensures LowerBound(b, s[1..], key)
  {
    forall i | 0 <= i < |s| - 1 ensures b <= key(s[1..][i]) {
      assert s[1..][i] == s[i + 1];
    }
  }

  /** b bounds [h] + t from below exactly when it bounds h and t. */
  lemma LowerBoundCons<T>(b: int, h: T, t: seq<T>, key: T -> int)
    ensures LowerBound(b, [h] + t, key) <==> b <= key(h) && LowerBound(b, t, key)
  {
    var s := [h] + t;
    assert s[0] == h;
    assert forall i :: 0 <= i < |t| ==> s[i + 1] == t[i];
  }

  /** [h] + t is sorted exactly when t is sorted and h is no larger than any of t. */
  lemma SortedCons<T>(h: T, t: seq<T>, key: T -> int)
    ensures Sorted([h] + t, key) <==> LowerBound(key(h), t, key) && Sorted(t, key)
  {
    var s := [h] + t;
    assert s[0] == h;
    assert forall i :: 0 <= i < |t| ==> s[i + 1] == t[i];
    if LowerBound(key(h), t, key) && Sorted(t, key) {
      forall i, j | 0 <= i < j < |s| ensures key(s[i]) <= key(s[j]) {
        if i > 0 {
          assert key(t[i - 1]) <= key(t[j - 1]);
        }
      }
    }
  }

  /** The reference sort: an insertion sort on values, the result std::sort must produce. */
  function SortedOf<T>(s: seq<T>, key: T -> int): (r: seq<T>)
    ensures |r| == |s|
    ensures Sorted(r, key)
    ensures multiset(r) == multiset(s)
  {
    if s == [] then []
    else
      assert s == [s[0]] + s[1..];
      InsertSorted(s[0], SortedOf(s[1..], key), key);
      Insert(s[0], SortedOf(s[1..], key), key)
  }

  /**
    When operator< is a strict total order, a range has exactly one ascending
    permutation: any two sorted sequences with the same elements are equal.
   */
  lemma {:induction false} SortedPermutationUnique<T(!new)>(s: seq<T>, t: seq<T>, key: T -> int)
    requires Injective(key)
    requires Sorted(s, key) && Sorted(t, key)
    requires multiset(s) == multiset(t)
    ensures s == t
  {
    assert |s| == |multiset(s)| == |multiset(t)| == |t|;
    if s != [] {
      HeadIsLeast(s, t[0], key);
      HeadIsLeast(t, s[0], key);
      assert s[0] == t[0];
      assert s == [s[0]] + s[1..] && t == [t[0]] + t[1..];
      assert multiset(s[1..]) == multiset(s) - multiset{s[0]};
      assert multiset(t[1..]) == multiset(t) - multiset{t[0]};
      SortedPermutationUnique(s[1..], t[1..], key);
    }
  }

  /** The first element of a sorted sequence is no larger than any element of it. */
  lemma HeadIsLeast<T>(s: seq<T>, x: T, key: T -> int)
    requires Sorted(s, key)
    requires x in multiset(s)
    ensures key(s[0]) <= key(x)
  {
    var i :| 0 <= i < |s| && s[i] == x;
    assert key(s[0]) <= key(s[i]);
  }

  /** Sorting a range that is already ascending leaves it as it is. */
  lemma {:induction false} SortedOfSorted<T>(s: seq<T>, key: T -> int)
    requires Sorted(s, key)
    ensures SortedOf(s, key) == s
  {
    if s != [] {
      assert s == [s[0]] + s[1..];
      SortedOfSorted(s[1..], key);
    }
  }

  /** Sorting twice gives the same result as sorting once. */
  lemma SortedOfIdempotent<T>(s: seq<T>, key: T -> int)
    ensures SortedOf(SortedOf(s, key), key) == SortedOf(s, key)
  {
    SortedOfSorted(SortedOf(s, key), key);
  }

  /**
    std::sort(a, a + n): sorts the first n elements of a in place. Its result
    is sorted and a permutation of the range; the elements from n on are not
    touched.
   */
  method Sort<T>(a: array<T>, n: int, key: T -> int)
    requires 0 <= n <= a.Length
    modifies a
    ensures Sorted(a[..n], key)
    ensures multiset(a[..n]) == multiset(old(a[..n]))
    ensures a[n..] == old(a[n..])
  {
    var i := 0;
    while i < n
      invariant 0 <= i <= n
      invariant forall k, l :: 0 <= k < l < i ==> key(a[k]) <= key(a[l])
      invariant multiset(a[..n]) == multiset(old(a[..n]))
      invariant a[n..] == old(a[n..])
    {
      var j := i;
      while 0 < j && key(a[j]) < key(a[j - 1])
        invariant 0 <= j <= i
        invariant forall k, l :: 0 <= k < l <= i && k != j && l != j ==> key(a[k]) <= key(a[l])
        invariant forall l :: j < l <= i ==> key(a[j]) < key(a[l])
        invariant 0 < j < i ==> key(a[j - 1]) <= key(a[j + 1])
        invariant multiset(a[..n]) == multiset(old(a[..n]))
        invariant a[n..] == old(a[n..])
      {
        SwapAdjacent(a, j, n);
        j := j - 1;
      }
      i := i + 1;
    }
  }

  /** Exchanges a[j - 1] and a[j] inside the range [0, n). */
  method SwapAdjacent<T>(a: array<T>, j: int, n: int)
    requires 0 < j < n <= a.Length
    modifies a
    ensures a[j - 1] == old(a[j]) && a[j] == old(a[j - 1])
    ensures forall k :: 0 <= k < a.Length && k != j - 1 && k != j ==> a[k] == old(a[k])
    ensures multiset(a[..n]) == multiset(old(a[..n]))
    ensures a[n..] == old(a[n..])
  {
    ghost var before, after := a[..n], a[n..];
    a[j - 1], a[j] := a[j], a[j - 1];
    assert a[..n] == before[j - 1 := before[j]][j := before[j - 1]];
    assert a[n..] == after;
  }
}
