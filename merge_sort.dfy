/**
 * The in-place merge sort of 1/mergesort.c, instantiated with `int_lt_cmp`
 * on an array of C `int`s.
 *
 * The C functions take a base pointer; here `base` is the index that pointer
 * designates in the caller's array, so `mergesort(array + m * size, ...)`
 * becomes `MergeSort(a, base + m, ...)`.
 */
module MergeSort {

  const IntMin: int := -0x8000_0000
  const IntMax: int := 0x7FFF_FFFF

  /** The value fits a 32-bit C `int`. */
  predicate IsInt32(x: int) {
    IntMin <= x <= IntMax
  }

  /** `int_lt_cmp(x, y)` is defined: both are C `int`s and so is their difference. */
  predicate CmpFits(x: int, y: int) {
    IsInt32(x) && IsInt32(y) && IsInt32(x - y)
  }

  /** Every two elements can be compared by `int_lt_cmp` without overflow.
      (The trigger keeps the pairwise condition from being instantiated
      except where a comparison is asked about.) */
  predicate CmpSafe(s: seq<int>) {
    forall i, j {:trigger CmpFits(s[i], s[j])} :: 0 <= i < |s| && 0 <= j < |s| ==> CmpFits(s[i], s[j])
  }

  predicate Sorted(s: seq<int>) {
    forall i, j :: 0 <= i < j < |s| ==> s[i] <= s[j]
  }

  /**
   * int_lt_cmp: the difference of its two arguments. The C subtraction is
   * undefined on overflow, hence the precondition; within it the sign of the
   * result is the order of the arguments.
   */
  function IntLtCmp(x: int, y: int): (r: int)
    requires IsInt32(x) && IsInt32(y) && IsInt32(x - y)
    ensures IsInt32(r)
    ensures r < 0 <==> x < y
    ensures r == 0 <==> x == y
    ensures r > 0 <==> x > y
  {
    x - y
  }

  /**
   * What `merge` writes back from `left_index == i` and `right_index == j` on:
   * while both runs have elements the right head is taken only when the
   * comparator says it is strictly smaller (`cmp > 0`), so ties take the left
   * element first; then the rest of whichever run is left.
   */
  function MergeFrom(l: seq<int>, r: seq<int>, i: nat, j: nat): (s: seq<int>)
    requires i <= |l| && j <= |r|
    ensures |s| == |l| - i + |r| - j
    decreases |l| - i + |r| - j
  {
    if i == |l| then r[j..]
    else if j == |r| then l[i..]
    else if l[i] > r[j] then [r[j]] + MergeFrom(l, r, i, j + 1)
    else [l[i]] + MergeFrom(l, r, i + 1, j)
  }

  /** The whole of what `merge` writes back. */
  function Merged(l: seq<int>, r: seq<int>): seq<int> {
    MergeFrom(l, r, 0, 0)
  }

  /** Every element is copied out once and written back once. */
  lemma {:induction false} MergeFromPermutation(l: seq<int>, r: seq<int>, i: nat, j: nat)
    requires i <= |l| && j <= |r|
    ensures multiset(MergeFrom(l, r, i, j)) == multiset(l[i..]) + multiset(r[j..])
    decreases |l| - i + |r| - j
  {
    if i == |l| {
      assert l[i..] == [];
    } else if j == |r| {
      assert r[j..] == [];
    } else if l[i] > r[j] {
      MergeFromPermutation(l, r, i, j + 1);
      DropOne(r, j);
    } else {
      MergeFromPermutation(l, r, i + 1, j);
      DropOne(l, i);
    }
  }

  lemma DropOne(s: seq<int>, i: nat)
    requires i < |s|
    ensures multiset(s[i..]) == multiset{s[i]} + multiset(s[i + 1..])
  {
    assert s[i..] == [s[i]] + s[i + 1..];
  }

  /** `merge` leaves the merged range a permutation of the two runs. */
  lemma MergedPermutation(l: seq<int>, r: seq<int>)
    ensures multiset(Merged(l, r)) == multiset(l + r)
    ensures |Merged(l, r)| == |l| + |r|
  {
    MergeFromPermutation(l, r, 0, 0);
    assert l[0..] == l && r[0..] == r;
  }

  /** A sorted run stays sorted under a new head no larger than any of its elements. */
  lemma SortedPrepend(x: int, s: seq<int>)
    requires Sorted(s)
    requires forall y :: y in s ==> x <= y
    ensures Sorted([x] + s)
  {
    forall i, j | 0 <= i < j < |s| + 1 ensures ([x] + s)[i] <= ([x] + s)[j] {
      if i == 0 {
        assert s[j - 1] in s;
      }
    }
  }

  /** Whatever is merged from (i, j) on is no smaller than the next element of either run. */
  lemma MergeFromBounded(l: seq<int>, r: seq<int>, i: nat, j: nat, x: int)
    requires Sorted(l) && Sorted(r) && i <= |l| && j <= |r|
    requires (i < |l| ==> x <= l[i]) && (j < |r| ==> x <= r[j])
    ensures forall y :: y in MergeFrom(l, r, i, j) ==> x <= y
  {
    MergeFromPermutation(l, r, i, j);
    forall y | y in MergeFrom(l, r, i, j) ensures x <= y {
      assert y in multiset(MergeFrom(l, r, i, j));
      if y in l[i..] {
        var k :| i <= k < |l| && l[k] == y;
        assert l[i] <= l[k];
      } else {
        assert y in r[j..];
        var k :| j <= k < |r| && r[k] == y;
        assert r[j] <= r[k];
      }
    }
  }

  /** Merging two sorted runs gives a sorted run. */
  lemma {:induction false} MergeFromSorted(l: seq<int>, r: seq<int>, i: nat, j: nat)
    requires Sorted(l) && Sorted(r) && i <= |l| && j <= |r|
    ensures Sorted(MergeFrom(l, r, i, j))
    decreases |l| - i + |r| - j
  {
    if i == |l| || j == |r| {
    } else if l[i] > r[j] {
      MergeFromSorted(l, r, i, j + 1);
      MergeFromBounded(l, r, i, j + 1, r[j]);
      SortedPrepend(r[j], MergeFrom(l, r, i, j + 1));
    } else {
      MergeFromSorted(l, r, i + 1, j);
      MergeFromBounded(l, r, i + 1, j, l[i]);
      SortedPrepend(l[i], MergeFrom(l, r, i + 1, j));
    }
  }

  /** `merge` of two sorted runs leaves the merged range sorted. */
  lemma MergedSorted(l: seq<int>, r: seq<int>)
    requires Sorted(l) && Sorted(r)
    ensures Sorted(Merged(l, r))
  {
    MergeFromSorted(l, r, 0, 0);
  }

  /** A permutation of comparator-safe data is comparator-safe. */
  lemma CmpSafePermutation(s: seq<int>, t: seq<int>)
    requires CmpSafe(s) && multiset(t) == multiset(s)
    ensures CmpSafe(t)
  {
    forall i, j | 0 <= i < |t| && 0 <= j < |t| ensures CmpFits(t[i], t[j]) {
      assert t[i] in multiset(t) && t[j] in multiset(t);
      assert t[i] in s && t[j] in s;
      var p :| 0 <= p < |s| && s[p] == t[i];
      var q :| 0 <= q < |s| && s[q] == t[j];
      assert CmpFits(s[p], s[q]);
    }
  }

  /** One of merge's `memcpy` loops: a fresh temporary holding `a[from..from+len]`. */
  method CopyOut(a: array<int>, from: nat, len: nat) returns (c: array<int>)
    requires from + len <= a.Length
    ensures fresh(c) && c[..] == a[from..from + len]
  {
    c := new int[len];
    for i := 0 to len
      invariant forall k :: 0 <= k < i ==> c[k] == a[from + k]
    {
      c[i] := a[from + i];
    }
  }

  /**
   * merge: copies `a[base..base+m]` and `a[base+m..base+r]` into two temporary
   * arrays and writes them back merged. `allocOk` is the outcome of the two
   * `malloc` calls; when either fails, merge returns -1 and writes nothing.
   */
  method Merge(a: array<int>, base: nat, m: nat, r: nat, allocOk: bool) returns (status: int)
    requires m <= r && base + r <= a.Length
    requires CmpSafe(a[base..base + r])
    modifies a
    ensures status == (if allocOk then 0 else -1)
    ensures !allocOk ==> unchanged(a)
    ensures allocOk ==> a[..] == Splice(old(a[..]), base, Merged(old(a[base..base + m]), old(a[base + m..base + r])))
  {
    if !allocOk {
      return -1;
    }
    var left := CopyOut(a, base, m);
    var right := CopyOut(a, base + m, r - m);
    assert left[..] + right[..] == a[base..base + r];
    WriteMerged(a, base, left, right);
    SpliceOf(a[..], old(a[..]), base, Merged(left[..], right[..]));
    status := 0;
  }

  /**
   * The three loops of merge, from the two temporary arrays back into
   * `a[base..]`: what they write is the merge of the two runs.
   */
  method WriteMerged(a: array<int>, base: nat, left: array<int>, right: array<int>)
    requires a != left && a != right
    requires base + left.Length + right.Length <= a.Length
    requires CmpSafe(left[..] + right[..])
    modifies a
    ensures a[base..base + left.Length + right.Length] == Merged(left[..], right[..])
    ensures forall k :: 0 <= k < base || base + left.Length + right.Length <= k < a.Length ==> a[k] == old(a[k])
  {
    ghost var L, R := left[..], right[..];
    ghost var M := Merged(L, R);
    var li, ri := MergeHeads(a, base, left, right);
    TailsComplete(L, R, li, ri, M);
    CopyRest(a, base, li + ri, left, li, M);
    CopyRest(a, base, li + ri + (left.Length - li), right, ri, M);
    assert a[base..base + left.Length + right.Length] == M;
  }

  /**
   * The first loop of merge: while both runs have elements, the right head is
   * written next only when the comparator says it is strictly the smaller.
   * On return one run is used up and what is left to write is `MergeFrom`
   * from the two indices reached.
   */
  method MergeHeads(a: array<int>, base: nat, left: array<int>, right: array<int>) returns (li: nat, ri: nat)
    requires a != left && a != right
    requires base + left.Length + right.Length <= a.Length
    requires CmpSafe(left[..] + right[..])
    modifies a
    ensures li <= left.Length && ri <= right.Length && (li == left.Length || ri == right.Length)
    ensures MergeFrom(left[..], right[..], li, ri) == Merged(left[..], right[..])[li + ri..]
    ensures forall k :: base <= k < base + li + ri ==> a[k] == Merged(left[..], right[..])[k - base]
    ensures forall k :: 0 <= k < base || base + li + ri <= k < a.Length ==> a[k] == old(a[k])
  {
    ghost var L, R := left[..], right[..];
    ghost var M := Merged(L, R);
    assert M[0..] == M;
    li, ri := 0, 0;
    while li < left.Length && ri < right.Length
      invariant li <= left.Length && ri <= right.Length
      invariant MergeFrom(L, R, li, ri) == M[li + ri..]
      invariant forall k :: base <= k < base + li + ri ==> a[k] == M[k - base]
      invariant forall k :: 0 <= k < base || base + li + ri <= k < a.Length ==> a[k] == old(a[k])
    {
      li, ri := MergeStep(a, base, left, right, li, ri, M);
    }
  }

  /** One pass of that loop: one comparison, one element written at `base + li + ri`. */
  method MergeStep(a: array<int>, base: nat, left: array<int>, right: array<int>, li: nat, ri: nat, ghost M: seq<int>)
    returns (li': nat, ri': nat)
    requires a != left && a != right
    requires li < left.Length && ri < right.Length && base + left.Length + right.Length <= a.Length
    requires CmpSafe(left[..] + right[..])
    requires |M| == left.Length + right.Length
    requires MergeFrom(left[..], right[..], li, ri) == M[li + ri..]
    modifies a
    ensures (li' == li + 1 && ri' == ri) || (li' == li && ri' == ri + 1)
    ensures MergeFrom(left[..], right[..], li', ri') == M[li' + ri'..]
    ensures a[base + li + ri] == M[li + ri]
    ensures forall k :: 0 <= k < a.Length && k != base + li + ri ==> a[k] == old(a[k])
  {
    ghost var L, R := left[..], right[..];
    CmpSafeAt(L + R, li, |L| + ri);
    var cmp := IntLtCmp(left[li], right[ri]);
    if cmp > 0 {
      Advance(M, li + ri, R[ri], MergeFrom(L, R, li, ri + 1));
      a[base + li + ri] := right[ri];
      li', ri' := li, ri + 1;
    } else {
      Advance(M, li + ri, L[li], MergeFrom(L, R, li + 1, ri));
      a[base + li + ri] := left[li];
      li', ri' := li + 1, ri;
    }
  }

  /**
   * The second and third loops of merge: with `a[base..base+mi]` already
   * holding the first `mi` elements of the merge `M`, the rest of one
   * temporary array, `src[from..]`, is what comes next in `M`; copying it
   * extends the written prefix to its end.
   */
  method CopyRest(a: array<int>, base: nat, mi: nat, src: array<int>, from: nat, ghost M: seq<int>)
    requires a != src && from <= src.Length && base + mi + (src.Length - from) <= a.Length
    requires mi + (src.Length - from) <= |M|
    requires forall k :: from <= k < src.Length ==> M[mi + (k - from)] == src[k]
    requires forall k :: base <= k < base + mi ==> a[k] == M[k - base]
    modifies a
    ensures forall k :: base <= k < base + mi + (src.Length - from) ==> a[k] == M[k - base]
    ensures forall k :: 0 <= k < base + mi || base + mi + (src.Length - from) <= k < a.Length ==> a[k] == old(a[k])
  {
    var i, j := from, base + mi;
    while i < src.Length
      invariant from <= i <= src.Length && j == base + mi + (i - from)
      invariant forall k :: base <= k < j ==> a[k] == M[k - base]
      invariant forall k :: 0 <= k < base + mi || j <= k < a.Length ==> a[k] == old(a[k])
    {
      a[j] := src[i];
      i := i + 1;
      j := j + 1;
    }
  }

  /** Once one run is used up, what is left of the merge is the rest of the left run, then the rest of the right run. */
  lemma TailsComplete(L: seq<int>, R: seq<int>, li: nat, ri: nat, M: seq<int>)
    requires li <= |L| && ri <= |R| && (li == |L| || ri == |R|)
    requires |M| == |L| + |R| && MergeFrom(L, R, li, ri) == M[li + ri..]
    ensures forall k :: li <= k < |L| ==> M[ri + k] == L[k]
    ensures forall k :: ri <= k < |R| ==> M[|L| + k] == R[k]
  {
    if li == |L| {
      assert L[li..] == [];
      assert M[li + ri..] == R[ri..];
    } else {
      assert M[li + ri..] == L[li..];
    }
  }

  /** Reading the next element off the part of the merge still to be written. */
  lemma Advance(M: seq<int>, mi: nat, x: int, rest: seq<int>)
    requires mi < |M| && M[mi..] == [x] + rest
    ensures M[mi] == x && M[mi + 1..] == rest
  {
    assert M[mi..][0] == M[mi] && M[mi..][1..] == M[mi + 1..];
  }

  /** The one comparison `merge` makes, on two elements of comparator-safe data. */
  lemma CmpSafeAt(s: seq<int>, i: nat, j: nat)
    requires CmpSafe(s) && i < |s| && j < |s|
    ensures IsInt32(s[i]) && IsInt32(s[j]) && IsInt32(s[i] - s[j])
  {
    assert CmpFits(s[i], s[j]);
  }

  /**
   * What mergesort leaves in a run: runs of at most one element are left
   * alone; longer ones are split at half their length, both halves sorted the same
   * way and the results merged.
   */
  function MergeSorted(s: seq<int>): (t: seq<int>)
    ensures |t| == |s|
    decreases |s|
  {
    if |s| <= 1 then s
    else Merged(MergeSorted(s[..Half(|s|)]), MergeSorted(s[Half(|s|)..]))
  }

  /** Mergesort's result is sorted. */
  lemma {:induction false} MergeSortedSorted(s: seq<int>)
    ensures Sorted(MergeSorted(s))
    decreases |s|
  {
    if |s| > 1 {
      MergeSortedSorted(s[..Half(|s|)]);
      MergeSortedSorted(s[Half(|s|)..]);
      MergedSorted(MergeSorted(s[..Half(|s|)]), MergeSorted(s[Half(|s|)..]));
    }
  }

  /** Mergesort's result is a permutation of its input. */
  lemma {:induction false} MergeSortedPermutation(s: seq<int>)
    ensures multiset(MergeSorted(s)) == multiset(s)
    decreases |s|
  {
    if |s| > 1 {
      var m := Half(|s|);
      MergeSortedPermutation(s[..m]);
      MergeSortedPermutation(s[m..]);
      MergedPermutation(MergeSorted(s[..m]), MergeSorted(s[m..]));
      SplitPermutation(s, m, MergeSorted(s[..m]), MergeSorted(s[m..]));
    }
  }

  /** Sorting a run that is already sorted changes nothing. */
  lemma {:induction false} SortedMergeSorted(s: seq<int>)
    requires Sorted(s)
    ensures MergeSorted(s) == s
    decreases |s|
  {
    if |s| > 1 {
      var m := Half(|s|);
      SortedSlices(s, m);
      SortedMergeSorted(s[..m]);
      SortedMergeSorted(s[m..]);
      MergeFromSortedSplit(s, m, 0);
      assert s[0..] == s;
    }
  }

  /** Both halves of a sorted run are sorted. */
  lemma SortedSlices(s: seq<int>, m: nat)
    requires Sorted(s) && m <= |s|
    ensures Sorted(s[..m]) && Sorted(s[m..])
  {
    forall i, j | 0 <= i < j < |s| - m ensures s[m..][i] <= s[m..][j] {
      assert s[m..][i] == s[m + i] && s[m..][j] == s[m + j];
    }
  }

  /** Merging the two halves of a sorted run gives the run back: the left half goes first whole. */
  lemma {:induction false} MergeFromSortedSplit(s: seq<int>, m: nat, i: nat)
    requires Sorted(s) && i <= m <= |s|
    ensures MergeFrom(s[..m], s[m..], i, 0) == s[i..]
    decreases m - i
  {
    var l, r := s[..m], s[m..];
    if i == m {
      assert r[0..] == s[i..];
    } else if m == |s| {
      assert l[i..] == s[i..];
    } else {
      assert l[i] == s[i] && r[0] == s[m] && s[i] <= s[m];
      MergeFromSortedSplit(s, m, i + 1);
      assert s[i..] == [s[i]] + s[i + 1..];
    }
  }

  /**
   * mergesort: splits at `n / 2`, sorts both halves recursively in place and
   * merges them. As in the source, the halves' return values are ignored and
   * the status is that of the final merge; allocation is taken to succeed.
   */
  method MergeSort(a: array<int>, base: nat, n: nat) returns (status: int)
    requires base + n <= a.Length
    requires CmpSafe(a[base..base + n])
    modifies a
    ensures status == 0
    ensures a[..] == Splice(old(a[..]), base, MergeSorted(old(a[base..base + n])))
    decreases n
  {
    status := 0;
    ghost var A := a[..];
    if n <= 1 {
      SpliceSame(A, base, n);
      return;
    }
    var m := n / 2;
    var mid, rn := base + m, n - m;
    SplitSafe(A, base, m, n);
    var _ := MergeSort(a, base, m);
    ghost var A1 := a[..];
    LeftSorted(A, A1, base, m, mid, rn, n);
    var _ := MergeSort(a, mid, rn);
    ghost var A2 := a[..];
    BothSorted(A, A1, A2, base, m, mid, rn, n);
    status := Merge(a, base, m, n, true);
    SortedWhole(A, A1, A2, a[..], base, m, mid, rn, n);
  }

  /*
   * The lemmas below follow `mergesort` through its three calls on snapshots of
   * the array: `A` on entry, `A1` after the left half `[lo, mid)` is sorted,
   * `A2` after the right half `[mid, lo + n)` is sorted, `A3` after the merge.
   */

  /** Both halves of the split are non-empty and the left one is comparator-safe. */
  lemma SplitSafe(A: seq<int>, lo: nat, m: nat, n: nat)
    requires lo + n <= |A| && 1 < n && m == n / 2
    requires CmpSafe(A[lo..lo + n])
    ensures 0 < m < n
    ensures CmpSafe(A[lo..lo + m])
  {
    CmpSafeWithin(A, lo, lo + n, lo, lo + m);
  }

  /** Sorting the left half leaves the right half as it was. */
  lemma LeftSorted(A: seq<int>, A1: seq<int>, lo: nat, m: nat, mid: nat, rn: nat, n: nat)
    requires mid == lo + m && n == m + rn && lo + n <= |A|
    requires CmpSafe(A[lo..lo + n])
    requires A1 == Splice(A, lo, MergeSorted(A[lo..lo + m]))
    ensures A1[mid..mid + rn] == A[mid..mid + rn]
    ensures CmpSafe(A1[mid..mid + rn])
  {
    SpliceBeyond(A, A1, lo, MergeSorted(A[lo..lo + m]), mid, rn);
    CmpSafeWithin(A, lo, lo + n, mid, mid + rn);
  }

  /** A splice ending at `mid` leaves what follows `mid` as it was. */
  lemma SpliceBeyond(A: seq<int>, A1: seq<int>, lo: nat, t: seq<int>, mid: nat, rn: nat)
    requires lo + |t| == mid && mid + rn <= |A|
    requires A1 == Splice(A, lo, t)
    ensures A1[mid..mid + rn] == A[mid..mid + rn]
  {
    SpliceAt(A, lo, t);
    forall k | mid <= k < mid + rn ensures A1[k] == A[k] {
    }
  }

  /** After both recursive calls the two sorted halves lie side by side. */
  lemma BothSorted(A: seq<int>, A1: seq<int>, A2: seq<int>, lo: nat, m: nat, mid: nat, rn: nat, n: nat)
    requires mid == lo + m && n == m + rn && lo + n <= |A|
    requires CmpSafe(A[lo..lo + n])
    requires A1 == Splice(A, lo, MergeSorted(A[lo..lo + m]))
    requires A2 == Splice(A1, mid, MergeSorted(A1[mid..mid + rn]))
    ensures A2 == Splice(A, lo, MergeSorted(A[lo..lo + m]) + MergeSorted(A[mid..mid + rn]))
    ensures A2[lo..lo + m] == MergeSorted(A[lo..lo + m])
    ensures A2[lo + m..lo + n] == MergeSorted(A[mid..mid + rn])
    ensures CmpSafe(A2[lo..lo + n])
  {
    var L, R := MergeSorted(A[lo..lo + m]), MergeSorted(A[mid..mid + rn]);
    assert A2 == Splice(A1, mid, R) by {
      LeftSorted(A, A1, lo, m, mid, rn, n);
    }
    TwoRuns(A, A1, A2, lo, m, mid, n, L, R);
    assert CmpSafe(L + R) by {
      SliceHalves(A, lo, m, mid, rn, n);
      HalvesCmpSafe(A[lo..lo + n], m);
    }
  }

  /** Writing `L` at `lo` and then `R` right after it lays out `L + R`. */
  lemma TwoRuns(A: seq<int>, A1: seq<int>, A2: seq<int>, lo: nat, m: nat, mid: nat, n: nat, L: seq<int>, R: seq<int>)
    requires mid == lo + m && |L| == m && n == m + |R| && lo + n <= |A|
    requires A1 == Splice(A, lo, L) && A2 == Splice(A1, mid, R)
    ensures A2 == Splice(A, lo, L + R)
    ensures A2[lo..lo + n] == L + R
    ensures A2[lo..lo + m] == L
    ensures A2[lo + m..lo + n] == R
  {
    SpliceAdjacent(A, lo, lo + m, lo + n, L, R);
    SpliceParts(A, lo, lo + m, lo + n, L, R);
  }

  /** Merging the two sorted halves leaves the sorted run in their place. */
  lemma SortedWhole(A: seq<int>, A1: seq<int>, A2: seq<int>, A3: seq<int>, lo: nat, m: nat, mid: nat, rn: nat, n: nat)
    requires 1 < n && m == n / 2 && mid == lo + m && n == m + rn && lo + n <= |A|
    requires CmpSafe(A[lo..lo + n])
    requires A1 == Splice(A, lo, MergeSorted(A[lo..lo + m]))
    requires A2 == Splice(A1, mid, MergeSorted(A1[mid..mid + rn]))
    requires A3 == Splice(A2, lo, Merged(A2[lo..lo + m], A2[lo + m..lo + n]))
    ensures A3 == Splice(A, lo, MergeSorted(A[lo..lo + n]))
  {
    BothSorted(A, A1, A2, lo, m, mid, rn, n);
    var L, R := MergeSorted(A[lo..lo + m]), MergeSorted(A[mid..mid + rn]);
    SliceHalves(A, lo, m, mid, rn, n);
    SortSplit(A[lo..lo + n], m, A[lo..lo + m], A[mid..mid + rn]);
    SpliceTwice(A, lo, L + R, Merged(L, R));
  }

  /** The two halves of the run `A[lo..lo + n]` split at `m`. */
  lemma SliceHalves(A: seq<int>, lo: nat, m: nat, mid: nat, rn: nat, n: nat)
    requires mid == lo + m && n == m + rn && lo + n <= |A|
    ensures A[lo..lo + n][..m] == A[lo..lo + m]
    ensures A[lo..lo + n][m..] == A[mid..mid + rn]
  {
  }

  /** One step of `MergeSorted` on a run of more than one element. */
  lemma SortSplit(w: seq<int>, m: nat, l: seq<int>, r: seq<int>)
    requires 1 < |w| && m == |w| / 2 && l == w[..m] && r == w[m..]
    ensures MergeSorted(w) == Merged(MergeSorted(l), MergeSorted(r))
  {
    HalfIsDivision(|w|);
  }

  /** `s` with `t` written over it from index `lo` on. */
  function Splice(s: seq<int>, lo: nat, t: seq<int>): (u: seq<int>)
    requires lo + |t| <= |s|
    ensures |u| == |s|
  {
    s[..lo] + t + s[lo + |t|..]
  }

  /** The splice holds `t` where it was written and `s` everywhere else. */
  lemma SpliceAt(s: seq<int>, lo: nat, t: seq<int>)
    requires lo + |t| <= |s|
    ensures Splice(s, lo, t)[lo..lo + |t|] == t
    ensures forall k :: 0 <= k < lo || lo + |t| <= k < |s| ==> Splice(s, lo, t)[k] == s[k]
  {
    var u := Splice(s, lo, t);
    assert u == s[..lo] + t + s[lo + |t|..];
    assert u[lo..lo + |t|] == t;
  }

  /** A sequence that holds `t` from `lo` on and agrees with `s` elsewhere is that splice. */
  lemma SpliceOf(u: seq<int>, s: seq<int>, lo: nat, t: seq<int>)
    requires lo + |t| <= |s| == |u|
    requires u[lo..lo + |t|] == t
    requires forall k :: 0 <= k < lo || lo + |t| <= k < |s| ==> u[k] == s[k]
    ensures u == Splice(s, lo, t)
  {
    forall k | 0 <= k < |u| ensures u[k] == Splice(s, lo, t)[k] {
      if lo <= k < lo + |t| {
        assert u[k] == u[lo..lo + |t|][k - lo];
        assert Splice(s, lo, t)[k] == Splice(s, lo, t)[lo..lo + |t|][k - lo];
      }
    }
  }

  /** Writing back what was there changes nothing. */
  lemma SpliceSame(s: seq<int>, lo: nat, n: nat)
    requires lo + n <= |s| && n <= 1
    ensures Splice(s, lo, MergeSorted(s[lo..lo + n])) == s
  {
    SpliceOf(s, s, lo, s[lo..lo + n]);
  }

  /** Two splices side by side, `p` at `[lo, mid)` and `q` at `[mid, hi)`, are one splice of both. */
  lemma SpliceAdjacent(s: seq<int>, lo: nat, mid: nat, hi: nat, p: seq<int>, q: seq<int>)
    requires mid == lo + |p| && hi == mid + |q| && hi <= |s|
    ensures Splice(Splice(s, lo, p), mid, q) == Splice(s, lo, p + q)
  {
    var u := Splice(Splice(s, lo, p), mid, q);
    assert u[lo..hi] == p + q by {
      forall k | 0 <= k < |p + q| ensures u[lo + k] == (p + q)[k] {
        if k < |p| {
          assert Splice(s, lo, p)[lo + k] == Splice(s, lo, p)[lo..mid][k];
        } else {
          assert u[lo + k] == u[mid..hi][k - |p|];
        }
      }
    }
    SpliceOf(u, s, lo, p + q);
  }

  /** The splice of `p + q` holds `p` at `[lo, mid)` and `q` at `[mid, hi)`. */
  lemma SpliceParts(s: seq<int>, lo: nat, mid: nat, hi: nat, p: seq<int>, q: seq<int>)
    requires mid == lo + |p| && hi == mid + |q| && hi <= |s|
    ensures Splice(s, lo, p + q)[lo..hi] == p + q
    ensures Splice(s, lo, p + q)[lo..mid] == p
    ensures Splice(s, lo, p + q)[mid..hi] == q
  {
    var v := Splice(s, lo, p + q);
    SpliceAt(s, lo, p + q);
    assert v[lo..mid] == v[lo..hi][..|p|];
    assert v[mid..hi] == v[lo..hi][|p|..];
  }

  /** A second splice over the same range replaces the first. */
  lemma SpliceTwice(s: seq<int>, lo: nat, t: seq<int>, t2: seq<int>)
    requires lo + |t| <= |s| && |t2| == |t|
    ensures Splice(Splice(s, lo, t), lo, t2) == Splice(s, lo, t2)
  {
    SpliceOf(Splice(Splice(s, lo, t), lo, t2), s, lo, t2);
  }

  /** The two sorted halves are still comparator-safe data. */
  lemma HalvesCmpSafe(s: seq<int>, m: nat)
    requires m <= |s| && CmpSafe(s)
    ensures CmpSafe(MergeSorted(s[..m]) + MergeSorted(s[m..]))
  {
    MergeSortedPermutation(s[..m]);
    MergeSortedPermutation(s[m..]);
    SplitPermutation(s, m, MergeSorted(s[..m]), MergeSorted(s[m..]));
    CmpSafePermutation(s, MergeSorted(s[..m]) + MergeSorted(s[m..]));
  }

  /** Half of `n`, rounded down, counted off two at a time. */
  function Half(n: nat): (h: nat)
    ensures 2 * h <= n <= 2 * h + 1
  {
    if n < 2 then 0 else Half(n - 2) + 1
  }

  /** `Half` is C's `n / 2` on a `size_t`. */
  lemma {:induction false} HalfIsDivision(n: nat)
    ensures Half(n) == n / 2
  {
    if n >= 2 {
      HalfIsDivision(n - 2);
    }
  }

  /** Permuting each half of a run permutes the run. */
  lemma SplitPermutation(s: seq<int>, m: nat, l: seq<int>, r: seq<int>)
    requires m <= |s|
    requires multiset(l) == multiset(s[..m]) && multiset(r) == multiset(s[m..])
    ensures multiset(l + r) == multiset(s)
  {
    assert s == s[..m] + s[m..];
  }

  /** A range inside comparator-safe data is comparator-safe. */
  lemma CmpSafeWithin(s: seq<int>, lo: nat, hi: nat, i: nat, j: nat)
    requires lo <= i <= j <= hi <= |s| && CmpSafe(s[lo..hi])
    ensures CmpSafe(s[i..j])
  {
    forall p, q | 0 <= p < j - i && 0 <= q < j - i ensures CmpFits(s[i..j][p], s[i..j][q]) {
      assert s[i..j][p] == s[lo..hi][i - lo + p] && s[i..j][q] == s[lo..hi][i - lo + q];
      assert CmpFits(s[lo..hi][i - lo + p], s[lo..hi][i - lo + q]);
    }
  }
}
