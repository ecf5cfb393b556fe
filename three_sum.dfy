/**
 * The brute-force ThreeSum search of Assignment2/three_sum_brute_force.py:
 * enumerate every index triple i < j < k in lexicographic order, count each
 * triple evaluated, and stop at the first one whose elements sum to the
 * target. The result is the pair (found, count).
 */
module ThreeSum {

  /** The number of pairs q < r drawn from 0..m-1, that is, m choose 2. */
  function Choose2(m: nat): (c: nat) {
    if m == 0 then 0 else Choose2(m - 1) + (m - 1)
  }

  /**
   * The number of triples p < q < r drawn from 0..m-1, that is, m choose 3:
   * those not using index 0 plus those that do (one per pair of the rest).
   */
  function Choose3(m: nat): (c: nat) {
    if m == 0 then 0 else Choose3(m - 1) + Choose2(m - 1)
  }

  /** Choose2 has the closed form m(m-1)/2. */
  lemma {:induction false} Choose2Closed(m: nat)
    ensures 2 * Choose2(m) == m * (m - 1)
  {
    if m > 0 {
      Choose2Closed(m - 1);
    }
  }

  /**
   * Choose3 has the closed form m(m-1)(m-2)/6, the curve that
   * Assignment2/analysis.py plots next to the measured counts.
   */
  lemma {:induction false} Choose3Closed(m: nat)
    ensures 6 * Choose3(m) == m * (m - 1) * (m - 2)
  {
    if m > 0 {
      Choose3Closed(m - 1);
      Choose2Closed(m - 1);
      var x := (m - 1) * (m - 2);
      assert 6 * Choose3(m) == x * (m - 3) + 3 * x == x * m;
      assert x * m == m * (m - 1) * (m - 2);
    }
  }

  lemma {:induction false} Choose2Monotone(x: nat, y: nat)
    requires x <= y
    ensures Choose2(x) <= Choose2(y)
    decreases y - x
  {
    if x < y {
      Choose2Monotone(x, y - 1);
    }
  }

  lemma {:induction false} Choose3Monotone(x: nat, y: nat)
    requires x <= y
    ensures Choose3(x) <= Choose3(y)
    decreases y - x
  {
    if x < y {
      Choose3Monotone(x, y - 1);
    }
  }

  /** The triple (i, j, k) of indices into s is ordered and sums to target. */
  predicate IsMatch(s: seq<int>, target: int, i: int, j: int, k: int) {
    0 <= i < j < k < |s| && s[i] + s[j] + s[k] == target
  }

  /** (p, q, r) comes strictly before (i, j, k) in lexicographic order. */
  predicate LexBefore(p: int, q: int, r: int, i: int, j: int, k: int) {
    p < i || (p == i && (q < j || (q == j && r < k)))
  }

  /** No matching triple comes before (i, j, k) in lexicographic order. */
  ghost predicate NoMatchBefore(s: seq<int>, target: int, i: int, j: int, k: int) {
    forall p, q, r :: IsMatch(s, target, p, q, r) ==> !LexBefore(p, q, r, i, j, k)
  }

  /**
   * The 1-based position of (i, j, k) among the triples of 0..n-1 listed in
   * lexicographic order: the triples whose first index is below i (all
   * triples minus those drawn from i..n-1), then those with first index i
   * and second index below j, then (i, j, j+1) .. (i, j, k).
   */
  function Rank(n: nat, i: nat, j: nat, k: int): (r: int)
    requires i < j < n
  {
    Choose3(n) - Choose3(n - i) + Choose2(n - i - 1) - Choose2(n - j) + (k - j)
  }

  /** Fewer than three indices admit no triple. */
  lemma {:induction false} Choose3Small(m: nat)
    requires m <= 2
    ensures Choose3(m) == 0
  {
    if m > 0 {
      Choose3Small(m - 1);
      assert Choose2(m - 1) == 0;
    }
  }

  /**
   * After the last triple (i, j, n-1) with second index j comes the first
   * triple (i, j+1, j+2) with second index j+1.
   */
  lemma RankNextSecond(n: nat, i: nat, j: nat)
    requires i < j < n - 1
    ensures Rank(n, i, j + 1, j + 2) == Rank(n, i, j, n - 1) + 1
  {
    assert Choose2(n - j) == Choose2(n - j - 1) + (n - j - 1);
  }

  /**
   * After the last triple (i, n-2, n-1) with first index i comes the first
   * triple (i+1, i+2, i+3) with first index i+1.
   */
  lemma RankNextFirst(n: nat, i: nat)
    requires i + 3 <= n
    ensures Rank(n, i + 1, i + 2, i + 3) == Rank(n, i, n - 2, n - 1) + 1
  {
    assert Choose3(n - i) == Choose3(n - i - 1) + Choose2(n - i - 1);
    assert Choose2(2) == 1;
  }

  /**
   * Rank numbers the triples consecutively: the first triple has rank 1,
   * each triple's lexicographic successor has the next rank, and the last
   * triple has rank C(n, 3).
   */
  lemma RankEnumerates(n: nat, i: nat, j: nat, k: nat)
    requires i < j < k < n
    ensures Rank(n, 0, 1, 2) == 1
    ensures Rank(n, n - 3, n - 2, n - 1) == Choose3(n)
    ensures k + 1 < n ==> Rank(n, i, j, k + 1) == Rank(n, i, j, k) + 1
    ensures k + 1 == n && j + 2 < n ==> Rank(n, i, j + 1, j + 2) == Rank(n, i, j, k) + 1
    ensures k + 1 == n && j + 2 == n && i + 3 < n ==> Rank(n, i + 1, i + 2, i + 3) == Rank(n, i, j, k) + 1
  {
    assert Choose3(3) == 1 && Choose2(2) == 1;
    if k + 1 == n && j + 2 < n {
      RankNextSecond(n, i, j);
    }
    if k + 1 == n && j + 2 == n && i + 3 < n {
      RankNextFirst(n, i);
    }
  }

  /** Every triple of 0..n-1 has a rank between 1 and C(n, 3). */
  lemma RankBounds(n: nat, i: nat, j: nat, k: nat)
    requires i < j < k < n
    ensures 1 <= Rank(n, i, j, k) <= Choose3(n)
  {
    Choose3Monotone(n - i, n);
    Choose2Monotone(n - j, n - i - 1);
    var c3, c2 := Choose3(n - i - 1), Choose2(n - j - 1);
    assert Choose3(n - i) == c3 + Choose2(n - i - 1);
    assert Choose2(n - j) == c2 + (n - j - 1);
  }

  /**
   * There is at most one first match: two matching triples with no match
   * before either are the same triple. So the search's count on success is
   * determined by the input.
   */
  lemma FirstMatchUnique(s: seq<int>, target: int, i: int, j: int, k: int, i': int, j': int, k': int)
    requires IsMatch(s, target, i, j, k) && NoMatchBefore(s, target, i, j, k)
    requires IsMatch(s, target, i', j', k') && NoMatchBefore(s, target, i', j', k')
    ensures i == i' && j == j' && k == k'
  {
    assert !LexBefore(i, j, k, i', j', k');
    assert !LexBefore(i', j', k', i, j, k);
  }

  /** A triple that is no match can be passed over: (i, j, k+1) is next. */
  lemma NoMatchPastThird(s: seq<int>, target: int, i: int, j: int, k: int)
    requires NoMatchBefore(s, target, i, j, k) && !IsMatch(s, target, i, j, k)
    ensures NoMatchBefore(s, target, i, j, k + 1)
  {
  }

  /** With every third index tried, the search moves to (i, j+1, j+2). */
  lemma NoMatchPastSecond(s: seq<int>, target: int, i: int, j: int)
    requires NoMatchBefore(s, target, i, j, |s|)
    ensures NoMatchBefore(s, target, i, j + 1, j + 2)
  {
  }

  /** With every second index tried, the search moves to (i+1, i+2, i+3). */
  lemma NoMatchPastFirst(s: seq<int>, target: int, i: int)
    requires NoMatchBefore(s, target, i, |s| - 1, |s|)
    ensures NoMatchBefore(s, target, i + 1, i + 2, i + 3)
  {
  }

  /** Past the last first index there is no match at all. */
  lemma NoMatchAtAll(s: seq<int>, target: int)
    requires NoMatchBefore(s, target, |s| - 2, |s| - 1, |s|)
    ensures forall p, q, r :: !IsMatch(s, target, p, q, r)
  {
  }

  /**
   * The search. The array is only read (there is no modifies clause). It
   * reports a match exactly when one exists; when there is none it has
   * counted all C(n, 3) triples, and when there is one it stops at the
   * lexicographically first, having counted exactly that triple's rank.
   */
  method ThreeSumBruteForce(a: array<int>, target: int) returns (found: bool, count: nat)
    ensures a.Length < 3 ==> !found && count == 0
    ensures found <==> exists i, j, k :: IsMatch(a[..], target, i, j, k)
    ensures !found ==> count == Choose3(a.Length)
    ensures found ==> exists i, j, k ::
      IsMatch(a[..], target, i, j, k) && NoMatchBefore(a[..], target, i, j, k) &&
      count == Rank(a.Length, i, j, k)
    ensures found ==> 1 <= count <= Choose3(a.Length)
  {
    var n := a.Length;
    if n < 3 {
      Choose3Small(n);
      return false, 0;
    }
    ghost var s := a[..];
    count := 0;
    var i := 0;
    while i < n - 2
      invariant 0 <= i <= n - 2
      invariant count == Rank(n, i, i + 1, i + 1)
      invariant NoMatchBefore(s, target, i, i + 1, i + 2)
    {
      var j := i + 1;
      while j < n - 1
        invariant i + 1 <= j <= n - 1
        invariant count == Rank(n, i, j, j)
        invariant NoMatchBefore(s, target, i, j, j + 1)
      {
        var k := j + 1;
        while k < n
          invariant j + 1 <= k <= n
          invariant count == Rank(n, i, j, k - 1)
          invariant NoMatchBefore(s, target, i, j, k)
        {
          count := count + 1;
          if a[i] + a[j] + a[k] == target {
            assert IsMatch(a[..], target, i, j, k);
            RankBounds(n, i, j, k);
            return true, count;
          }
          NoMatchPastThird(s, target, i, j, k);
          k := k + 1;
        }
        NoMatchPastSecond(s, target, i, j);
        if j + 1 < n - 1 {
          RankNextSecond(n, i, j);
        }
        j := j + 1;
      }
      NoMatchPastFirst(s, target, i);
      if i + 3 <= n {
        RankNextFirst(n, i);
      }
      i := i + 1;
    }
    NoMatchAtAll(s, target);
    Choose3Small(n - i);
    return false, count;
  }

  /** A match exists: the search stops at (1, 2, 3), the fourth triple. */
  method ExampleFound() {
    var a := new int[][1, 2, 3, 4];
    var found, count := ThreeSumBruteForce(a, 9);
    assert IsMatch(a[..], 9, 1, 2, 3);
    assert found;
    ghost var i, j, k :| IsMatch(a[..], 9, i, j, k) && NoMatchBefore(a[..], 9, i, j, k) && count == Rank(4, i, j, k);
    assert i == 1 && j == 2 && k == 3;
    assert count == 4;
  }

  /** No match: all C(4, 3) = 4 triples are counted. */
  method ExampleNotFound() {
    var a := new int[][1, 2, 4, 8];
    var found, count := ThreeSumBruteForce(a, 100);
    assert !found && count == 4;
  }

  /** Fewer than three elements: nothing is counted. */
  method ExampleTooShort() {
    var a := new int[][5, 5];
    var found, count := ThreeSumBruteForce(a, 15);
    assert !found && count == 0;
  }
}
