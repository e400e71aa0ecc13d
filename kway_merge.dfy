/**
 * The k-way merge at the end of `main` in 1/solution.c: every input file has
 * been sorted into its own array; the loop repeatedly scans the heads of all
 * arrays, emits the smallest one and advances that array's cursor in `pos`.
 *
 * `runs[i]` is `array_containers[i]->array` (of length `size`), `pos` is the
 * cursor array and the emitted numbers are returned as `out` instead of
 * being printed to the output file.
 */
module KWayMerge {

  const IntMax: int := 0x7FFF_FFFF

  predicate Sorted(s: seq<int>) {
    forall i, j :: 0 <= i < j < |s| ==> s[i] <= s[j]
  }

  /** `total_numbers_count`: how many numbers the first `n` arrays hold together. */
  function Total(runs: seq<seq<int>>, n: nat): nat
    requires n <= |runs|
  {
    if n == 0 then 0 else Total(runs, n - 1) + |runs[n - 1]|
  }

  /** The first `n` arrays one after the other. */
  function Concat(runs: seq<seq<int>>, n: nat): seq<int>
    requires n <= |runs|
  {
    if n == 0 then [] else Concat(runs, n - 1) + runs[n - 1]
  }

  /** One cursor per array, each within its array (`pos[i] == size` means used up). */
  predicate Cursors(runs: seq<seq<int>>, p: seq<int>) {
    |p| == |runs| && forall i :: 0 <= i < |p| ==> 0 <= p[i] <= |runs[i]|
  }

  /** How many numbers the first `n` cursors have moved past. */
  function Sum(p: seq<int>, n: nat): int
    requires n <= |p|
  {
    if n == 0 then 0 else Sum(p, n - 1) + p[n - 1]
  }

  /** The numbers the first `n` cursors have moved past. */
  function Taken(runs: seq<seq<int>>, p: seq<int>, n: nat): multiset<int>
    requires Cursors(runs, p) && n <= |p|
  {
    if n == 0 then multiset{} else Taken(runs, p, n - 1) + multiset(runs[n - 1][..p[n - 1]])
  }

  /** Array `j` still has numbers left: `pos[j] < size`. */
  predicate Live(runs: seq<seq<int>>, p: seq<int>, j: int) {
    |p| == |runs| && 0 <= j < |runs| && 0 <= p[j] < |runs[j]|
  }

  /** The number array `j`'s cursor is on. */
  function Head(runs: seq<seq<int>>, p: seq<int>, j: int): int
    requires Live(runs, p, j)
  {
    runs[j][p[j]]
  }

  /**
   * The `for` loop over the arrays: among those with `pos[i] < size`, the
   * first whose head is strictly below the running minimum (which starts at
   * `INT_MAX`) becomes the choice. So the choice is a smallest head, ties go
   * to the lowest index, and when no head is below `INT_MAX` the minimum
   * stays `INT_MAX` and the index keeps its value from the previous round.
   */
  method PickMin(runs: seq<seq<int>>, pos: array<int>, prev: int) returns (min: int, idx: int)
    requires Cursors(runs, pos[..])
    ensures min <= IntMax
    ensures forall j :: Live(runs, pos[..], j) ==> min <= Head(runs, pos[..], j)
    ensures min < IntMax ==>
      Live(runs, pos[..], idx) && Head(runs, pos[..], idx) == min &&
      forall j :: 0 <= j < idx && Live(runs, pos[..], j) ==> min < Head(runs, pos[..], j)
    ensures min == IntMax ==> idx == prev
  {
    ghost var p := pos[..];
    min, idx := IntMax, prev;
    for i := 0 to |runs|
      invariant min <= IntMax
      invariant forall j :: 0 <= j < i && Live(runs, p, j) ==> min <= Head(runs, p, j)
      invariant min < IntMax ==>
        0 <= idx < i && Live(runs, p, idx) && Head(runs, p, idx) == min &&
        forall j :: 0 <= j < idx && Live(runs, p, j) ==> min < Head(runs, p, j)
      invariant min == IntMax ==> idx == prev
    {
      assert p[i] == pos[i];
      if pos[i] < |runs[i]| {
        var current := runs[i][pos[i]];
        if current < min {
          min, idx := current, i;
        }
      }
    }
  }

  /**
   * What the `while (1)` loop keeps: the cursors are within their arrays,
   * everything emitted so far is exactly what they have moved past, it is in
   * order, and the last number emitted is no larger than any number not yet
   * taken.
   */
  predicate Merging(runs: seq<seq<int>>, p: seq<int>, out: seq<int>) {
    Cursors(runs, p) && Sum(p, |p|) == |out| && multiset(out) == Taken(runs, p, |p|) && Sorted(out) &&
    (|out| > 0 ==> forall i, k :: 0 <= i < |runs| && p[i] <= k < |runs[i]| ==> out[|out| - 1] <= runs[i][k])
  }

  predicate AllSorted(runs: seq<seq<int>>) {
    forall i :: 0 <= i < |runs| ==> Sorted(runs[i])
  }

  /**
   * The `while (1)` loop. It is modelled with every array sorted, no number
   * equal to the `INT_MAX` sentinel and at least one number in total. With
   * only `INT_MAX` heads left, the source advances a stale cursor index,
   * though the value it emits is still right. With a total of 0 its exit
   * test never holds. Under those conditions the loop emits exactly `total`
   * numbers, in order, and each input number once.
   */
  method MergeRuns(runs: seq<seq<int>>, total: int) returns (out: seq<int>)
    requires AllSorted(runs)
    requires forall i, k :: 0 <= i < |runs| && 0 <= k < |runs[i]| ==> runs[i][k] < IntMax
    requires total == Total(runs, |runs|) && total > 0
    ensures |out| == total
    ensures Sorted(out)
    ensures multiset(out) == multiset(Concat(runs, |runs|))
  {
    var pos := new int[|runs|](_ => 0);
    out := [];
    assert Merging(runs, pos[..], out) by {
      NoneTaken(runs, pos[..], |runs|);
    }
    var min, idx, count := IntMax, 0, 0;
    while true
      invariant Merging(runs, pos[..], out)
      invariant count == |out| && count < total
      decreases total - count
    {
      min, idx := EmitMin(runs, pos, idx, out);
      out := out + [min];
      count := count + 1;
      if count == total {
        AllTaken(runs, pos[..], |runs|);
        break;
      }
      SumBound(runs, pos[..], |runs|);
    }
  }

  /**
   * One round of the `while (1)` loop: pick the smallest head, emit it and
   * advance only that array's cursor, by one.
   */
  method EmitMin(runs: seq<seq<int>>, pos: array<int>, prev: int, ghost out: seq<int>) returns (min: int, idx: int)
    requires AllSorted(runs)
    requires forall i, k :: 0 <= i < |runs| && 0 <= k < |runs[i]| ==> runs[i][k] < IntMax
    requires Merging(runs, pos[..], out) && |out| < Total(runs, |runs|)
    modifies pos
    ensures 0 <= idx < |runs| && old(pos[idx]) < |runs[idx]| && min == runs[idx][old(pos[idx])]
    ensures pos[..] == old(pos[..])[idx := old(pos[idx]) + 1]
    ensures Merging(runs, pos[..], out + [min])
  {
    ghost var p := pos[..];
    var i := SomeLive(runs, p, |p|);
    min, idx := PickMin(runs, pos, prev);
    assert pos[..] == p;
    assert min < IntMax by {
      assert min <= Head(runs, p, i) < IntMax;
    }
    StepPreserves(runs, p, out, min, idx);
    pos[idx] := pos[idx] + 1;
    assert pos[..] == p[idx := p[idx] + 1];
  }

  /** Emitting a smallest head and advancing its cursor keeps the loop's invariant. */
  lemma StepPreserves(runs: seq<seq<int>>, p: seq<int>, out: seq<int>, min: int, idx: int)
    requires Merging(runs, p, out) && AllSorted(runs)
    requires Live(runs, p, idx) && Head(runs, p, idx) == min
    requires forall j :: Live(runs, p, j) ==> min <= Head(runs, p, j)
    ensures Merging(runs, p[idx := p[idx] + 1], out + [min])
  {
    var q, o := p[idx := p[idx] + 1], out + [min];
    assert Cursors(runs, q) && Sum(q, |q|) == |o| && multiset(o) == Taken(runs, q, |q|) by {
      assert Cursors(runs, q);
      TakeOneSum(p, idx, |p|);
      TakenGrows(runs, p, q, idx, |p|);
      assert multiset(o) == multiset(out) + multiset{min};
    }
    assert Sorted(o) by {
      if |out| > 0 {
        assert out[|out| - 1] <= runs[idx][p[idx]];
      }
      AppendSorted(out, min);
    }
    assert o[|o| - 1] == min;
    AboveHead(runs, p, min);
    PastHead(runs, p, idx, min);
  }

  /** A number no smaller than the last one extends a sorted sequence. */
  lemma AppendSorted(s: seq<int>, x: int)
    requires Sorted(s) && (|s| > 0 ==> s[|s| - 1] <= x)
    ensures Sorted(s + [x])
  {
    forall i, j | 0 <= i < j < |s| + 1 ensures (s + [x])[i] <= (s + [x])[j] {
      if j == |s| {
        assert i == |s| - 1 || s[i] <= s[|s| - 1];
      }
    }
  }

  /** Advancing a cursor only removes numbers from what is still to come. */
  lemma PastHead(runs: seq<seq<int>>, p: seq<int>, idx: int, x: int)
    requires Cursors(runs, p) && 0 <= idx < |p|
    requires forall i, k :: 0 <= i < |runs| && p[i] <= k < |runs[i]| ==> x <= runs[i][k]
    ensures forall i, k :: 0 <= i < |runs| && p[idx := p[idx] + 1][i] <= k < |runs[i]| ==> x <= runs[i][k]
  {
    forall i, k | 0 <= i < |runs| && p[idx := p[idx] + 1][i] <= k < |runs[i]| ensures x <= runs[i][k] {
      assert p[i] <= p[idx := p[idx] + 1][i];
    }
  }

  /** Once the heads are all at least `x`, so is everything after them in the sorted arrays. */
  lemma AboveHead(runs: seq<seq<int>>, p: seq<int>, x: int)
    requires Cursors(runs, p) && AllSorted(runs)
    requires forall j :: Live(runs, p, j) ==> x <= Head(runs, p, j)
    ensures forall i, k :: 0 <= i < |runs| && p[i] <= k < |runs[i]| ==> x <= runs[i][k]
  {
    forall i, k | 0 <= i < |runs| && p[i] <= k < |runs[i]| ensures x <= runs[i][k] {
      assert Live(runs, p, i) && x <= Head(runs, p, i);
      assert p[i] == k || runs[i][p[i]] <= runs[i][k];
    }
  }

  /** `calloc`'s cursors have taken nothing. */
  lemma {:induction false} NoneTaken(runs: seq<seq<int>>, p: seq<int>, n: nat)
    requires Cursors(runs, p) && n <= |p| && forall i :: 0 <= i < |p| ==> p[i] == 0
    ensures Sum(p, n) == 0 && Taken(runs, p, n) == multiset{}
  {
    if n > 0 {
      NoneTaken(runs, p, n - 1);
      assert runs[n - 1][..p[n - 1]] == [];
    }
  }

  /** Advancing one cursor by one moves the count past one more number, if it is among the first `n`. */
  lemma {:induction false} TakeOneSum(p: seq<int>, idx: int, n: nat)
    requires 0 <= idx < |p| && n <= |p|
    ensures Sum(p[idx := p[idx] + 1], n) == Sum(p, n) + (if idx < n then 1 else 0)
  {
    if n > 0 {
      TakeOneSum(p, idx, n - 1);
    }
  }

  /** Advancing a cursor beyond the first `n` leaves what the first `n` have taken alone. */
  lemma {:induction false} TakenSame(runs: seq<seq<int>>, p: seq<int>, q: seq<int>, idx: int, n: nat)
    requires Cursors(runs, p) && Cursors(runs, q) && n <= idx < |p|
    requires forall i :: 0 <= i < |p| && i != idx ==> q[i] == p[i]
    ensures Taken(runs, q, n) == Taken(runs, p, n)
  {
    if n > 0 {
      TakenSame(runs, p, q, idx, n - 1);
      assert q[n - 1] == p[n - 1];
    }
  }

  /** Advancing one of the first `n` cursors by one takes exactly the head it was on. */
  lemma {:induction false} TakenGrows(runs: seq<seq<int>>, p: seq<int>, q: seq<int>, idx: int, n: nat)
    requires Cursors(runs, p) && Cursors(runs, q) && 0 <= idx < n <= |p|
    requires q[idx] == p[idx] + 1 && forall i :: 0 <= i < |p| && i != idx ==> q[i] == p[i]
    ensures Taken(runs, q, n) == Taken(runs, p, n) + multiset{runs[idx][p[idx]]}
  {
    var x := runs[idx][p[idx]];
    var last := runs[n - 1];
    if idx == n - 1 {
      TakenSame(runs, p, q, idx, n - 1);
      PrefixGrows(last, p[idx]);
      AddLast(Taken(runs, p, n - 1), Taken(runs, q, n - 1), multiset(last[..p[n - 1]]), multiset(last[..q[n - 1]]), x);
    } else {
      TakenGrows(runs, p, q, idx, n - 1);
      assert q[n - 1] == p[n - 1];
      AddEarlier(Taken(runs, p, n - 1), Taken(runs, q, n - 1), multiset(last[..p[n - 1]]), x);
    }
  }

  lemma AddLast(a: multiset<int>, b: multiset<int>, c: multiset<int>, d: multiset<int>, x: int)
    requires b == a && d == c + multiset{x}
    ensures b + d == a + c + multiset{x}
  {
  }

  lemma AddEarlier(a: multiset<int>, b: multiset<int>, c: multiset<int>, x: int)
    requires b == a + multiset{x}
    ensures b + c == a + c + multiset{x}
  {
  }

  lemma PrefixGrows(s: seq<int>, k: int)
    requires 0 <= k < |s|
    ensures multiset(s[..k + 1]) == multiset(s[..k]) + multiset{s[k]}
  {
    assert s[..k + 1] == s[..k] + [s[k]];
  }

  /** While fewer than `total` numbers are taken, some array still has a head. */
  lemma {:induction false} SomeLive(runs: seq<seq<int>>, p: seq<int>, n: nat) returns (i: int)
    requires Cursors(runs, p) && n <= |p| && Sum(p, n) < Total(runs, n)
    ensures i < n && Live(runs, p, i)
  {
    if p[n - 1] < |runs[n - 1]| {
      i := n - 1;
    } else {
      i := SomeLive(runs, p, n - 1);
    }
  }

  /** The cursors never pass more than `total` numbers. */
  lemma {:induction false} SumBound(runs: seq<seq<int>>, p: seq<int>, n: nat)
    requires Cursors(runs, p) && n <= |p|
    ensures Sum(p, n) <= Total(runs, n)
  {
    if n > 0 {
      SumBound(runs, p, n - 1);
    }
  }

  /** When `total` numbers are taken, every array is used up and all numbers are taken. */
  lemma {:induction false} AllTaken(runs: seq<seq<int>>, p: seq<int>, n: nat)
    requires Cursors(runs, p) && n <= |p| && Sum(p, n) == Total(runs, n)
    ensures Taken(runs, p, n) == multiset(Concat(runs, n))
  {
    if n > 0 {
      SumBound(runs, p, n - 1);
      AllTaken(runs, p, n - 1);
      assert runs[n - 1][..p[n - 1]] == runs[n - 1];
    }
  }
}
