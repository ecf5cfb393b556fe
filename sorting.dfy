/**
 * The three comparison sorts of Assignment1.py: selection sort, insertion
 * sort and merge sort. Each works in place on the caller's list of integers
 * and hands the same list back; here the list is an `array<int>` and every
 * sort returns the very array it was given.
 */
module Sorting {

  /** Non-decreasing order: every earlier element is at most every later one. */
  predicate Sorted(s: seq<int>) {
    forall p, q :: 0 <= p < q < |s| ==> s[p] <= s[q]
  }

  /**
   * There is only one sorted arrangement of a multiset: two sorted sequences
   * with the same elements are equal. So the three sorts below, each proved
   * to produce a sorted permutation, produce the same array (ThreeSortsAgree),
   * and sorting an already sorted array leaves it as it is.
   */
  lemma {:induction false} SortedPermutationUnique(s: seq<int>, t: seq<int>)
    requires Sorted(s) && Sorted(t)
    requires multiset(s) == multiset(t)
    ensures s == t
  {
    if s == [] {
      assert |multiset(t)| == 0;
    } else {
      assert |t| == |multiset(t)| == |multiset(s)| == |s|;
      assert s[0] == t[0] by {
        SortedHeadIsMinimum(s, t[0]);
        SortedHeadIsMinimum(t, s[0]);
      }
      MultisetOfTail(s);
      MultisetOfTail(t);
      SortedPermutationUnique(s[1..], t[1..]);
    }
  }

  /** The head of a sorted sequence is at most each of its elements. */
  lemma SortedHeadIsMinimum(s: seq<int>, x: int)
    requires Sorted(s) && x in multiset(s)
    ensures s[0] <= x
  {
    var q :| 0 <= q < |s| && s[q] == x;
  }

  /** Removing the head removes one occurrence of it from the multiset. */
  lemma MultisetOfTail(s: seq<int>)
    requires s != []
    ensures multiset(s[1..]) == multiset(s) - multiset{s[0]}
  {
    assert s == [s[0]] + s[1..];
  }

  // ---------------------------------------------------------------- selection

  /**
   * The inner scan of selection sort: the index of the first smallest element
   * of a[i..]. A later element replaces the candidate only when it is
   * strictly smaller, so among equal minima the leftmost one is chosen.
   */
  method MinIndex(a: array<int>, i: int) returns (m: int)
    requires 0 <= i < a.Length
    ensures i <= m < a.Length
    ensures forall p :: i <= p < a.Length ==> a[m] <= a[p]
    ensures forall p :: i <= p < m ==> a[m] < a[p]
  {
    m := i;
    for j := i + 1 to a.Length
      invariant i <= m < j
      invariant forall p :: i <= p < j ==> a[m] <= a[p]
      invariant forall p :: i <= p < m ==> a[m] < a[p]
    {
      if a[j] < a[m] {
        m := j;
      }
    }
  }

  /** Every element of s[..i] is at most every element of s[i..]. */
  predicate Partitioned(s: seq<int>, i: int)
    requires 0 <= i <= |s|
  {
    forall p, q :: 0 <= p < i <= q < |s| ==> s[p] <= s[q]
  }

  /**
   * One step of selection sort, on values: when s[..i] is sorted and no
   * larger than the rest, swapping a minimum s[m] of s[i..] into position i
   * extends both facts to i+1 and keeps the multiset.
   */
  lemma SelectStep(s: seq<int>, i: int, m: int)
    requires 0 <= i <= m < |s|
    requires Sorted(s[..i]) && Partitioned(s, i)
    requires forall p :: i <= p < |s| ==> s[m] <= s[p]
    ensures Sorted(s[i := s[m]][m := s[i]][..i + 1])
    ensures Partitioned(s[i := s[m]][m := s[i]], i + 1)
    ensures multiset(s[i := s[m]][m := s[i]]) == multiset(s)
  {
    var t := s[i := s[m]][m := s[i]];
    forall p, q | 0 <= p < q < i + 1 ensures t[p] <= t[q] {
      assert q < i ==> s[..i][p] <= s[..i][q];
    }
  }

  /**
   * Selection sort: for every position i, swap the smallest element of the
   * unsorted suffix into position i. The array only ever changes by swaps.
   */
  method SelectionSort(a: array<int>) returns (r: array<int>)
    modifies a
    ensures r == a
    ensures Sorted(a[..])
    ensures multiset(a[..]) == old(multiset(a[..]))
  {
    ghost var g := a[..];
    var n := a.Length;
    for i := 0 to n
      invariant a[..] == g
      invariant Sorted(g[..i]) && Partitioned(g, i)
      invariant multiset(g) == old(multiset(a[..]))
    {
      var m := MinIndex(a, i);
      SelectStep(g, i, m);
      a[i], a[m] := a[m], a[i];
      g := g[i := g[m]][m := g[i]];
    }
    assert g[..n] == g;
    r := a;
  }

  // ---------------------------------------------------------------- insertion

  /**
   * s[..n] is sorted once the gap position h is ignored: the state of the
   * prefix while insertion sort shifts elements to the right.
   */
  predicate SortedExceptGap(s: seq<int>, n: int, h: int)
    requires n <= |s|
  {
    forall p, q :: 0 <= p < q < n && p != h && q != h ==> s[p] <= s[q]
  }

  /** Every element of s[lo..hi] is strictly greater than key. */
  predicate AllAbove(key: int, s: seq<int>, lo: int, hi: int)
    requires 0 <= lo && hi <= |s|
  {
    forall p :: lo <= p < hi ==> key < s[p]
  }

  /**
   * One shift of insertion sort: with the gap at j+1 and key < s[j], moving
   * s[j] into the gap moves the gap to j. The prefix stays sorted outside the
   * gap, everything right of the new gap is greater than key, and the array
   * with key written into the gap has the same multiset as before.
   */
  lemma ShiftStep(s: seq<int>, i: int, j: int, key: int)
    requires 0 <= j < i < |s|
    requires SortedExceptGap(s, i + 1, j + 1)
    requires AllAbove(key, s, j + 2, i + 1)
    requires key < s[j]
    ensures SortedExceptGap(s[j + 1 := s[j]], i + 1, j)
    ensures AllAbove(key, s[j + 1 := s[j]], j + 1, i + 1)
    ensures multiset(s[j + 1 := s[j]][j := key]) == multiset(s[j + 1 := key])
    ensures s[j + 1 := s[j]][i + 1..] == s[i + 1..]
  {
    var t := s[j + 1 := s[j]];
    forall p, q | 0 <= p < q < i + 1 && p != j && q != j ensures t[p] <= t[q] {
      if p == j + 1 {
        assert t[p] == s[j] <= s[q];
      } else if q == j + 1 {
        assert s[p] <= s[j];
      }
    }
    assert t[j := key] == s[j + 1 := key][j := s[j]][j + 1 := s[j]][j := key];
  }

  /**
   * Dropping key into the gap at j+1, when the shift stopped at an element
   * not greater than key (or ran off the front), leaves s[..i+1] sorted.
   */
  lemma FillGap(s: seq<int>, i: int, j: int, key: int)
    requires -1 <= j < i < |s|
    requires SortedExceptGap(s, i + 1, j + 1)
    requires AllAbove(key, s, j + 2, i + 1)
    requires j >= 0 ==> s[j] <= key
    ensures Sorted(s[j + 1 := key][..i + 1])
    ensures s[j + 1 := key][i + 1..] == s[i + 1..]
  {
    var t := s[j + 1 := key];
    forall p, q | 0 <= p < q < i + 1 ensures t[p] <= t[q] {
      if q == j + 1 && p < j {
        assert s[p] <= s[j];
      }
    }
  }

  /**
   * The body of insertion sort's outer loop for one i: remember key = a[i],
   * shift every element of the sorted prefix a[..i] that is strictly greater
   * than key one slot to the right, and drop key into the gap. Afterwards
   * a[..i+1] is sorted, a is a permutation of what it was, and a[i+1..] has
   * not been touched.
   */
  method InsertIntoPrefix(a: array<int>, i: int)
    requires 1 <= i < a.Length
    requires Sorted(a[..i])
    modifies a
    ensures Sorted(a[..i + 1])
    ensures multiset(a[..]) == old(multiset(a[..]))
    ensures a[i + 1..] == old(a[i + 1..])
  {
    ghost var g := a[..];
    var key := a[i];
    var j := i - 1;
    while j >= 0 && key < a[j]
      invariant -1 <= j < i
      invariant a[..] == g
      invariant SortedExceptGap(g, i + 1, j + 1)
      invariant AllAbove(key, g, j + 2, i + 1)
      invariant multiset(g[j + 1 := key]) == old(multiset(a[..]))
      invariant g[i + 1..] == old(a[i + 1..])
    {
      ShiftStep(g, i, j, key);
      a[j + 1] := a[j];
      g := g[j + 1 := g[j]];
      j := j - 1;
    }
    FillGap(g, i, j, key);
    a[j + 1] := key;
    assert a[..] == g[j + 1 := key];
  }

  /** Insertion sort: grow a sorted prefix one element at a time. */
  method InsertionSort(a: array<int>) returns (r: array<int>)
    modifies a
    ensures r == a
    ensures Sorted(a[..])
    ensures multiset(a[..]) == old(multiset(a[..]))
  {
    var n := a.Length;
    if n > 0 {
      for i := 1 to n
        invariant Sorted(a[..i])
        invariant multiset(a[..]) == old(multiset(a[..]))
      {
        InsertIntoPrefix(a, i);
      }
      assert a[..] == a[..n];
    }
    r := a;
  }

  // ---------------------------------------------------------------- merge

  /**
   * What the merge loops of merge_sort write, as a function: repeatedly take
   * the smaller head, and on equal heads (the test `left[0] < right[0]`
   * fails) take the head of `right`; once one side is used up, the rest of
   * the other follows.
   */
  function Merged(left: seq<int>, right: seq<int>): (m: seq<int>)
    decreases |left| + |right|
  {
    if left == [] then right
    else if right == [] then left
    else if left[0] < right[0] then [left[0]] + Merged(left[1..], right)
    else [right[0]] + Merged(left, right[1..])
  }

  /** Merging loses and invents no element: the result is a permutation of left + right. */
  lemma {:induction false} MergedPermutation(left: seq<int>, right: seq<int>)
    ensures multiset(Merged(left, right)) == multiset(left) + multiset(right)
    decreases |left| + |right|
  {
    if left != [] && right != [] {
      if left[0] < right[0] {
        MergedPermutation(left[1..], right);
        assert left == [left[0]] + left[1..];
      } else {
        MergedPermutation(left, right[1..]);
        assert right == [right[0]] + right[1..];
      }
    }
  }

  /** x is at most every element of s. */
  predicate AtMostAll(x: int, s: seq<int>) {
    forall p :: 0 <= p < |s| ==> x <= s[p]
  }

  /** A lower bound of both inputs is a lower bound of their merge. */
  lemma MergedBound(x: int, left: seq<int>, right: seq<int>)
    requires AtMostAll(x, left) && AtMostAll(x, right)
    ensures AtMostAll(x, Merged(left, right))
  {
    var m := Merged(left, right);
    MergedPermutation(left, right);
    forall p | 0 <= p < |m| ensures x <= m[p] {
      assert m[p] in multiset(m);
      assert m[p] in multiset(left) || m[p] in multiset(right);
    }
  }

  /** Prepending a lower bound to a sorted sequence keeps it sorted. */
  lemma SortedCons(x: int, s: seq<int>)
    requires Sorted(s) && AtMostAll(x, s)
    ensures Sorted([x] + s)
  {
  }

  /** Merging two sorted sequences yields a sorted sequence. */
  lemma {:induction false} MergedSorted(left: seq<int>, right: seq<int>)
    requires Sorted(left) && Sorted(right)
    ensures Sorted(Merged(left, right))
    decreases |left| + |right|
  {
    if left != [] && right != [] {
      if left[0] < right[0] {
        MergedSorted(left[1..], right);
        MergedBound(left[0], left[1..], right);
        SortedCons(left[0], Merged(left[1..], right));
      } else {
        MergedSorted(left, right[1..]);
        MergedBound(right[0], left, right[1..]);
        SortedCons(right[0], Merged(left, right[1..]));
      }
    }
  }

  /** When the head of left[i..] is smaller, Merged takes it first. */
  lemma MergedTakesLeft(left: seq<int>, right: seq<int>, i: int, j: int)
    requires 0 <= i < |left| && 0 <= j < |right| && left[i] < right[j]
    ensures Merged(left[i..], right[j..]) == [left[i]] + Merged(left[i + 1..], right[j..])
  {
    assert left[i..][1..] == left[i + 1..];
  }

  /** Otherwise, ties included, Merged takes the head of right[j..] first. */
  lemma MergedTakesRight(left: seq<int>, right: seq<int>, i: int, j: int)
    requires 0 <= i < |left| && 0 <= j < |right| && !(left[i] < right[j])
    ensures Merged(left[i..], right[j..]) == [right[j]] + Merged(left[i..], right[j + 1..])
  {
    assert right[j..][1..] == right[j + 1..];
  }

  /** Once one input is used up, Merged appends the rest of the other. */
  lemma MergedExhausted(left: seq<int>, right: seq<int>)
    requires left == [] || right == []
    ensures Merged(left, right) == left + right
  {
  }

  /** A finished prefix followed by what is left of both inputs is the merge. */
  lemma MergedAssembled(done: seq<int>, left: seq<int>, right: seq<int>, i: int, j: int)
    requires 0 <= i <= |left| && 0 <= j <= |right| && (i == |left| || j == |right|)
    requires done + Merged(left[i..], right[j..]) == Merged(left, right)
    ensures done + left[i..] + right[j..] == Merged(left, right)
  {
    MergedExhausted(left[i..], right[j..]);
    assert done + left[i..] + right[j..] == done + (left[i..] + right[j..]);
  }

  /**
   * Writing x at position k of an array made of a finished prefix `done`
   * (of length k) and the untouched rest g0[k..] extends the prefix by x
   * and leaves g0[k+1..] untouched.
   */
  lemma WriteNext(done: seq<int>, g0: seq<int>, x: int)
    requires |done| < |g0|
    ensures (done + g0[|done|..])[|done| := x] == (done + [x]) + g0[|done| + 1..]
  {
    var k := |done|;
    assert g0[k..] == [g0[k]] + g0[k + 1..];
  }

  /** One step of the merge loop that takes the head of left. */
  lemma EmitLeft(done: seq<int>, left: seq<int>, right: seq<int>, i: int, j: int, all: seq<int>)
    requires 0 <= i < |left| && 0 <= j < |right| && left[i] < right[j]
    requires done + Merged(left[i..], right[j..]) == all
    ensures (done + [left[i]]) + Merged(left[i + 1..], right[j..]) == all
  {
    MergedTakesLeft(left, right, i, j);
    assert done + ([left[i]] + Merged(left[i + 1..], right[j..])) == (done + [left[i]]) + Merged(left[i + 1..], right[j..]);
  }

  /** One step of the merge loop that takes the head of right. */
  lemma EmitRight(done: seq<int>, left: seq<int>, right: seq<int>, i: int, j: int, all: seq<int>)
    requires 0 <= i < |left| && 0 <= j < |right| && !(left[i] < right[j])
    requires done + Merged(left[i..], right[j..]) == all
    ensures (done + [right[j]]) + Merged(left[i..], right[j + 1..]) == all
  {
    MergedTakesRight(left, right, i, j);
    assert done + ([right[j]] + Merged(left[i..], right[j + 1..])) == (done + [right[j]]) + Merged(left[i..], right[j + 1..]);
  }

  /**
   * One of the two tail loops of the merge phase: copy src[from..] into a
   * starting at position k, leaving every other position of a as it was.
   */
  method CopyTail(src: array<int>, from: int, a: array<int>, k: int)
    requires a != src
    requires 0 <= from <= src.Length && 0 <= k && k + (src.Length - from) <= a.Length
    modifies a
    ensures a[..k + (src.Length - from)] == old(a[..k]) + src[from..]
    ensures a[k + (src.Length - from)..] == old(a[k + (src.Length - from)..])
  {
    var i, k' := from, k;
    while i < src.Length
      invariant from <= i <= src.Length && k' == k + (i - from)
      invariant a[..k] == old(a[..k])
      invariant a[k..k'] == src[from..i]
      invariant a[k + (src.Length - from)..] == old(a[k + (src.Length - from)..])
    {
      a[k'] := src[i];
      i, k' := i + 1, k' + 1;
    }
    assert a[..k'] == a[..k] + a[k..k'];
  }

  /**
   * One iteration of the head-to-head loop of merge_sort: write the smaller
   * head into a[i+j], taking the head of right on a tie, and advance past it.
   * In terms of ghost state: a is the finished prefix `done` followed by the
   * untouched rest of its initial contents g0, and `done` followed by the
   * merge of what is left of both sides is the whole merge `all`.
   */
  method MergeStep(left: array<int>, right: array<int>, a: array<int>, i: int, j: int,
                   ghost done: seq<int>, ghost g0: seq<int>, ghost all: seq<int>)
    returns (i': int, j': int, ghost done': seq<int>)
    requires a != left && a != right
    requires 0 <= i < left.Length && 0 <= j < right.Length && i + j == |done| < |g0| == a.Length
    requires a[..] == done + g0[i + j..]
    requires done + Merged(left[i..], right[j..]) == all
    modifies a
    ensures left[i] < right[j] ==> i' == i + 1 && j' == j
    ensures !(left[i] < right[j]) ==> i' == i && j' == j + 1
    ensures |done'| == i' + j'
    ensures a[..] == done' + g0[i' + j'..]
    ensures done' + Merged(left[i'..], right[j'..]) == all
  {
    var k := i + j;
    WriteNext(done, g0, if left[i] < right[j] then left[i] else right[j]);
    if left[i] < right[j] {
      EmitLeft(done, left[..], right[..], i, j, all);
      a[k] := left[i];
      done' := done + [left[i]];
      i', j' := i + 1, j;
    } else {
      EmitRight(done, left[..], right[..], i, j, all);
      a[k] := right[j];
      done' := done + [right[j]];
      i', j' := i, j + 1;
    }
  }

  /**
   * The first loop of the merge phase: while both sides have elements left,
   * write the smaller head into a[k], taking the head of right on a tie, so
   * that k == i + j throughout. It stops when one side is used up; what it
   * has written, followed by the merge of what is left of both sides, is the
   * merge, and the positions from i + j on are as they were.
   */
  method MergeHeads(left: array<int>, right: array<int>, a: array<int>) returns (i: int, j: int)
    requires a != left && a != right
    requires left.Length + right.Length == a.Length
    modifies a
    ensures 0 <= i <= left.Length && 0 <= j <= right.Length
    ensures i == left.Length || j == right.Length
    ensures a[..i + j] + Merged(left[i..], right[j..]) == Merged(left[..], right[..])
    ensures a[i + j..] == old(a[i + j..])
  {
    ghost var ls, rs := left[..], right[..];
    ghost var all := Merged(ls, rs);
    ghost var g0 := a[..];
    ghost var done: seq<int> := [];
    i, j := 0, 0;
    while i < left.Length && j < right.Length
      invariant 0 <= i <= left.Length && 0 <= j <= right.Length && i + j == |done|
      invariant a[..] == done + g0[i + j..]
      invariant done + Merged(ls[i..], rs[j..]) == all
    {
      i, j, done := MergeStep(left, right, a, i, j, done, g0, all);
    }
    assert a[..i + j] == done && a[i + j..] == g0[i + j..];
    assert left[i..] == ls[i..] && right[j..] == rs[j..];
  }

  /**
   * The merge phase of merge_sort: the head-to-head loop, then the two tail
   * loops, of which at most one has anything to copy. Every one of the
   * |left| + |right| positions of a is written exactly once, in order.
   */
  method Merge(left: array<int>, right: array<int>, a: array<int>)
    requires a != left && a != right
    requires left.Length + right.Length == a.Length
    modifies a
    ensures a[..] == Merged(left[..], right[..])
  {
    var i, j := MergeHeads(left, right, a);
    ghost var done := a[..i + j];
    MergedAssembled(done, left[..], right[..], i, j);
    var k := i + j;
    CopyTail(left, i, a, k);
    ghost var done' := a[..k + (left.Length - i)];
    assert done' == done + left[i..];
    CopyTail(right, j, a, k + (left.Length - i));
    assert a[..] == a[..a.Length] == done' + right[j..];
  }

  /**
   * Merge sort: an array of length at most 1 is left as it is; otherwise the
   * two halves are copied into fresh arrays, each is sorted recursively, and
   * they are merged back into a.
   */
  method MergeSort(a: array<int>) returns (r: array<int>)
    modifies a
    ensures r == a
    ensures Sorted(a[..])
    ensures multiset(a[..]) == old(multiset(a[..]))
    ensures a.Length <= 1 ==> a[..] == old(a[..])
    decreases a.Length
  {
    if a.Length > 1 {
      var mid := a.Length / 2;
      var left := new int[mid](p requires 0 <= p < mid reads a => a[p]);
      var right := new int[a.Length - mid](p requires 0 <= p < a.Length - mid reads a => a[mid + p]);
      assert left[..] == a[..mid];
      assert right[..] == a[mid..];
      assert a[..] == left[..] + right[..];
      ghost var whole := multiset(a[..]);
      left := MergeSort(left);
      right := MergeSort(right);
      assert multiset(left[..]) + multiset(right[..]) == whole;
      Merge(left, right, a);
      MergedSorted(left[..], right[..]);
      MergedPermutation(left[..], right[..]);
    }
    r := a;
  }

  // ---------------------------------------------------------------- agreement

  /**
   * The three sorts run on three copies of a give the same array, which is a
   * sorted permutation of a; a itself is only read.
   */
  method ThreeSortsAgree(a: array<int>) returns (s: array<int>, t: array<int>, m: array<int>)
    ensures s[..] == t[..] == m[..]
    ensures Sorted(s[..]) && multiset(s[..]) == multiset(a[..])
  {
    s := new int[a.Length](p requires 0 <= p < a.Length reads a => a[p]);
    t := new int[a.Length](p requires 0 <= p < a.Length reads a => a[p]);
    m := new int[a.Length](p requires 0 <= p < a.Length reads a => a[p]);
    assert s[..] == a[..] && t[..] == a[..] && m[..] == a[..];
    s := SelectionSort(s);
    t := InsertionSort(t);
    m := MergeSort(m);
    SortedPermutationUnique(s[..], t[..]);
    SortedPermutationUnique(s[..], m[..]);
  }
}
