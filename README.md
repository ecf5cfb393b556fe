# Sorting and brute-force ThreeSum, verified

This project models the algorithmic core of a small algorithms coursework
repository in Dafny and proves what that code promises.

- `sorting.dfy` (module `Sorting`) models the three in-place comparison sorts
  of `Assignment1.py`: `selection_sort`, `insertion_sort` and `merge_sort`.
  Each works on the caller's list of integers, here an `array<int>`. Each
  hands back the very array it was given. Each is proved to leave the array
  sorted (non-decreasing) and a permutation of its old contents (same
  multiset).
- `three_sum.dfy` (module `ThreeSum`) models `three_sum_brute_force` of
  `Assignment2/three_sum_brute_force.py`. It tries every index triple
  `i < j < k` in lexicographic order and counts each triple it evaluates. It
  stops at the first triple whose elements sum to the target. It is proved
  that:
  - it reports `found` exactly when such a triple exists;
  - without a match, it has counted all `C(n, 3)` triples;
  - with a match, the count is the 1-based lexicographic rank of the first
    matching triple;
  - for fewer than three elements it returns `(false, 0)`;
  - the array is only read.

The loops of the sources are kept as loops. A few inner loops are written as
their own methods, so that each proof stays small:
- the minimum scan of selection sort (`MinIndex`);
- one pass of insertion sort's outer loop (`InsertIntoPrefix`);
- the head-to-head merge loop (`MergeHeads`), whose body is `MergeStep`;
- the two tail-copy loops of the merge (`CopyTail`, used for both).

`SelectionSort`, `InsertIntoPrefix` and `MergeHeads` (with `MergeStep`) keep a
ghost copy of the array's contents. The per-step reasoning is done by lemmas
on that copy.

What merge sort writes is specified by the function `Merged`. It takes the
smaller head, and on equal heads it takes the head of the right half: on equal
heads `L[i] < R[j]` (`Assignment1.py:33`) fails and the element of the right
half is taken, so the merge is not stable. On integers this cannot be seen in
the output.

`SortedPermutationUnique` shows there is only one sorted permutation of a
multiset. `ThreeSortsAgree` applies it: the three sorts produce the same array
from the same input.

## Model

| member | source | states |
|---|---|---|
| `Sorting.SortedPermutationUnique` | Assignment1.py:12-58 | two sorted sequences with the same multiset are equal, so any two sorts proved sorted and permuting give the same result, and a sorted input is left as it is |
| `Sorting.ThreeSortsAgree` | Assignment1.py:12-58 | selection, insertion and merge sort run on copies of the same array give equal arrays, sorted and a permutation of the input, which is only read |
| `Sorting.MinIndex` | Assignment1.py:15-18 | the inner scan returns an index in `[i, n)` whose element is at most every element of `a[i..]` and strictly below every element before it (the first minimum, since only a strictly smaller element replaces the candidate) |
| `Sorting.SelectStep` | Assignment1.py:14-19 | swapping a minimum of the unsorted suffix into position i extends the sorted, partitioned prefix to i+1 and keeps the multiset |
| `Sorting.SelectionSort` | Assignment1.py:12-20 | afterwards the array is sorted and a permutation of its old contents; the same array is returned |
| `Sorting.ShiftStep` | Assignment1.py:54-56 | moving `s[j]` into the gap at j+1 when `key < s[j]` moves the gap to j; the prefix stays sorted outside the gap, all shifted elements exceed key, the multiset with key in the gap is unchanged, and the suffix past i is untouched |
| `Sorting.FillGap` | Assignment1.py:57 | when the shift stops (front reached or an element not above key), writing key into the gap leaves `s[..i+1]` sorted and the suffix untouched |
| `Sorting.InsertIntoPrefix` | Assignment1.py:52-57 | one outer iteration turns a sorted `a[..i]` into a sorted `a[..i+1]`, keeps the multiset, and leaves `a[i+1..]` as it was |
| `Sorting.InsertionSort` | Assignment1.py:50-58 | afterwards the array is sorted and a permutation of its old contents; the same array is returned |
| `Sorting.MergedPermutation` | Assignment1.py:31-47 | the merged sequence has exactly the multiset of left plus right |
| `Sorting.MergedBound` | Assignment1.py:32-38 | a lower bound of both inputs is a lower bound of every element of the merge |
| `Sorting.MergedSorted` | Assignment1.py:31-47 | merging two sorted sequences gives a sorted sequence |
| `Sorting.MergedTakesLeft` | Assignment1.py:33-35 | when `left[i] < right[j]` the merge of the remainders starts with `left[i]` followed by the merge without it |
| `Sorting.MergedTakesRight` | Assignment1.py:36-38 | otherwise, ties included, the merge of the remainders starts with `right[j]` followed by the merge without it |
| `Sorting.MergedExhausted` | Assignment1.py:40-47 | once one input is empty the merge is the other input appended |
| `Sorting.MergedAssembled` | Assignment1.py:31-47 | after the head-to-head loop, what it wrote followed by the rest of left and then the rest of right is the whole merge |
| `Sorting.EmitLeft` | Assignment1.py:33-35 | appending `left[i]` to the written prefix keeps "written prefix + merge of the remainders == whole merge" as i advances |
| `Sorting.EmitRight` | Assignment1.py:36-38 | appending `right[j]` keeps the same relation as j advances |
| `Sorting.WriteNext` | Assignment1.py:34-39 | writing x at position k of an array made of a finished prefix of length k and untouched old contents extends the prefix by x and leaves the old contents after k untouched |
| `Sorting.MergeStep` | Assignment1.py:33-39 | one iteration writes the smaller head into `a[i+j]` (the right head on a tie), advances exactly the index it took from, and keeps "a is the written prefix followed by its old contents" and "written prefix + merge of the remainders == whole merge" |
| `Sorting.MergeHeads` | Assignment1.py:31-39 | the head-to-head loop stops with one side used up, `0 <= i <= len(L)`, `0 <= j <= len(R)`, the written prefix `a[..i+j]` followed by the merge of the remainders is the merge of both halves, and `a[i+j..]` is as it was |
| `Sorting.CopyTail` | Assignment1.py:40-47 | a tail loop copies `src[from..]` into `a` from position k onwards and changes no other position |
| `Sorting.Merge` | Assignment1.py:31-47 | the three merge loops together leave `a` equal to the merge of the two halves |
| `Sorting.MergeSort` | Assignment1.py:22-48 | afterwards the array is sorted and a permutation of its old contents, an array of length at most 1 is unchanged, and the same array is returned |
| `ThreeSum.Choose2Closed` | Assignment2/three_sum_brute_force.py:19-20 | the number of (j, k) pairs counted by `Choose2` is m(m-1)/2 |
| `ThreeSum.Choose3Closed` | Assignment2/analysis.py:73 | the number of triples counted by `Choose3` is n(n-1)(n-2)/6, the curve the analysis compares the counts against |
| `ThreeSum.Choose3Small` | Assignment2/three_sum_brute_force.py:12-13 | fewer than three indices give no triple |
| `ThreeSum.RankNextSecond` | Assignment2/three_sum_brute_force.py:19-20 | after the last triple with second index j, the next triple (i, j+1, j+2) has the next rank |
| `ThreeSum.RankNextFirst` | Assignment2/three_sum_brute_force.py:18-20 | after the last triple with first index i, the next triple (i+1, i+2, i+3) has the next rank |
| `ThreeSum.RankEnumerates` | Assignment2/three_sum_brute_force.py:18-22 | `Rank` numbers the triples in loop order from 1 to C(n, 3), each successor one more than its predecessor |
| `ThreeSum.RankBounds` | Assignment2/three_sum_brute_force.py:18-24 | every triple's rank lies between 1 and C(n, 3) |
| `ThreeSum.NoMatchPastThird` | Assignment2/three_sum_brute_force.py:20-23 | a triple that does not match can be passed over without missing a first match |
| `ThreeSum.NoMatchPastSecond` | Assignment2/three_sum_brute_force.py:19-20 | finishing the k loop moves the search to (i, j+1, j+2) without missing a match |
| `ThreeSum.NoMatchPastFirst` | Assignment2/three_sum_brute_force.py:18-19 | finishing the j loop moves the search to (i+1, i+2, i+3) without missing a match |
| `ThreeSum.NoMatchAtAll` | Assignment2/three_sum_brute_force.py:18-26 | when the i loop finishes with no match before its end, no matching triple exists |
| `ThreeSum.FirstMatchUnique` | Assignment2/three_sum_brute_force.py:23-24 | at most one matching triple has no match before it, so the count on success is determined by the input |
| `ThreeSum.ThreeSumBruteForce` | Assignment2/three_sum_brute_force.py:4-26 | `(false, 0)` below three elements; `found` exactly when some `i < j < k` has `a[i] + a[j] + a[k] == target`; on failure the count is C(n, 3); on success it is the rank of the lexicographically first match, between 1 and C(n, 3); the array is not modified |

## Left out

- The `arr is None` test of `three_sum_brute_force`: a Dafny array reference is never null, so only the length test is modelled.
- Element types: the Python functions accept any comparable or addable values; the model uses unbounded integers (`int`), so there is no floating point and no overflow, as with Python's integers.
- Stability of merge sort: the code takes the right half's element on ties, which is not stable for records with equal keys; on integers this cannot be observed, so no stability property is stated.
- The copies `L = arr[:mid]` and `R = arr[mid:]` are modelled as two fresh arrays; that the recursive calls return their argument is stated as `r == a`.
- Timing (`time_algorithm`), the test driver `run_tests`, printing, plotting, the data generator `generate_data.py` and the measurement script `analysis.py` (apart from its closed form of C(n, 3)) are not modelled: they are I/O, clocks and randomness.
- Asymptotic running-time claims are not stated; the operation count of the ThreeSum search is modelled exactly instead.
