/** What one left-to-right sweep of dpl_sort establishes, position by position. */
module BubblePass {
  import opened Ordering

  /** The last `k` positions hold nothing smaller than anything to their left. */
  ghost predicate Final<T>(cmp: (T, T) -> int, s: seq<T>, k: nat) {
    forall p, q {:trigger cmp(s[p], s[q])} :: 0 <= p < q < |s| && q >= |s| - k ==> cmp(s[p], s[q]) <= 0
  }

  /** In the middle of a sweep that began with `start`: the cursor is at position `i`, `k` sweeps were
      completed before, and `swapped` tells whether this sweep exchanged anything. */
  ghost predicate Sweep<T>(cmp: (T, T) -> int, U: set<T>, start: seq<T>, cur: seq<T>,
                           i: nat, k: nat, swapped: bool)
  {
    && |cur| == |start| && i < |cur| && Within(cur, U)
    && (forall p {:trigger cmp(cur[p], cur[i])} :: 0 <= p < i ==> cmp(cur[p], cur[i]) <= 0)
    && Final(cmp, cur, k)
    && (i >= |cur| - 1 - k ==> Final(cmp, cur, k + 1))
    && (!swapped ==> cur == start && forall p :: 0 <= p < i ==> cmp(cur[p], cur[p + 1]) <= 0)
    && (swapped ==> !Sorted(cmp, start))
  }

  lemma PrefixMaximumMoves<T>(cmp: (T, T) -> int, U: set<T>, cur: seq<T>, i: nat)
    requires Preorder(cmp, U) && Within(cur, U) && i + 1 < |cur|
    requires forall p :: 0 <= p < i ==> cmp(cur[p], cur[i]) <= 0
    requires cmp(cur[i], cur[i + 1]) <= 0
    ensures forall p :: 0 <= p < i + 1 ==> cmp(cur[p], cur[i + 1]) <= 0
  {
    forall p | 0 <= p < i ensures cmp(cur[p], cur[i + 1]) <= 0 {
      assert cur[p] in U && cur[i] in U && cur[i + 1] in U;
    }
  }

  lemma SweepKeep<T>(cmp: (T, T) -> int, U: set<T>, start: seq<T>, cur: seq<T>, i: nat, k: nat, swapped: bool)
    requires Preorder(cmp, U) && Sweep(cmp, U, start, cur, i, k, swapped)
    requires i + 1 < |cur| && cmp(cur[i], cur[i + 1]) <= 0
    ensures Sweep(cmp, U, start, cur, i + 1, k, swapped)
  {
    PrefixMaximumMoves(cmp, U, cur, i);
  }

  lemma SweepSwap<T>(cmp: (T, T) -> int, U: set<T>, start: seq<T>, cur: seq<T>, i: nat, k: nat, swapped: bool)
    requires Preorder(cmp, U) && Sweep(cmp, U, start, cur, i, k, swapped)
    requires i + 1 < |cur| && cmp(cur[i], cur[i + 1]) > 0
    ensures Sweep(cmp, U, start, Swapped(cur, i), i + 1, k, true)
  {
    var t := Swapped(cur, i);
    assert i + 1 < |cur| - k;
    forall p, q | 0 <= p < q < |t| && q >= |t| - k ensures cmp(t[p], t[q]) <= 0 {
      assert t[q] == cur[q];
      assert t[p] == (if p == i then cur[i + 1] else if p == i + 1 then cur[i] else cur[p]);
    }
    assert cur[i] in U && cur[i + 1] in U;
    assert t[i + 1] == cur[i];
    forall p | 0 <= p < i + 1 ensures cmp(t[p], t[i + 1]) <= 0 {
      assert t[p] == (if p == i then cur[i + 1] else cur[p]);
    }
    assert !Sorted(cmp, start);
  }

  /** A sweep that exchanged nothing has checked that its input was sorted. */
  lemma QuietSweepSorted<T>(cmp: (T, T) -> int, U: set<T>, start: seq<T>, cur: seq<T>, i: nat, k: nat)
    requires Preorder(cmp, U) && Sweep(cmp, U, start, cur, i, k, false) && i + 1 == |cur|
    ensures Sorted(cmp, cur)
  {
    AdjacentSorted(cmp, U, cur, |cur|);
    assert cur[..|cur|] == cur;
  }

  /** If a sweep exchanged something, fewer than |s| - 1 positions were final before it. */
  lemma BusySweepBound<T>(cmp: (T, T) -> int, U: set<T>, start: seq<T>, cur: seq<T>, i: nat, k: nat)
    requires Sweep(cmp, U, start, cur, i, k, true) && Final(cmp, start, k)
    ensures k + 1 < |cur|
  {
  }

  lemma SwapStable<T>(cmp: (T, T) -> int, U: set<T>, s0: seq<T>, cur: seq<T>, i: nat)
    requires Preorder(cmp, U) && StableRearrangement(cmp, U, s0, cur)
    requires i + 1 < |cur| && cmp(cur[i], cur[i + 1]) > 0
    ensures StableRearrangement(cmp, U, s0, Swapped(cur, i))
  {
    forall x | x in U ensures SameClass(cmp, x, Swapped(cur, i)) == SameClass(cmp, x, s0) {
      SwapKeepsClass(cmp, U, cur, i, x);
    }
  }

  /** A sweep in progress, together with its tally: each exchange so far removed one inversion, and
      no compare-equal class was reordered. */
  ghost predicate SweepTally<T>(cmp: (T, T) -> int, U: set<T>, start: seq<T>, cur: seq<T>,
                                i: nat, k: nat, swaps: nat)
  {
    && Sweep(cmp, U, start, cur, i, k, swaps > 0)
    && StableRearrangement(cmp, U, start, cur)
    && swaps + Inversions(cmp, cur) == Inversions(cmp, start)
  }

  lemma TallySwap<T>(cmp: (T, T) -> int, U: set<T>, start: seq<T>, cur: seq<T>, i: nat, k: nat, swaps: nat)
    requires Preorder(cmp, U) && SweepTally(cmp, U, start, cur, i, k, swaps)
    requires i + 1 < |cur| && cmp(cur[i], cur[i + 1]) > 0
    ensures SweepTally(cmp, U, start, Swapped(cur, i), i + 1, k, swaps + 1)
  {
    SweepSwap(cmp, U, start, cur, i, k, swaps > 0);
    SwapRemovesOneInversion(cmp, U, cur, i);
    SwapStable(cmp, U, start, cur, i);
  }

  lemma TallyKeep<T>(cmp: (T, T) -> int, U: set<T>, start: seq<T>, cur: seq<T>, i: nat, k: nat, swaps: nat)
    requires Preorder(cmp, U) && SweepTally(cmp, U, start, cur, i, k, swaps)
    requires i + 1 < |cur| && cmp(cur[i], cur[i + 1]) <= 0
    ensures SweepTally(cmp, U, start, cur, i + 1, k, swaps)
  {
    SweepKeep(cmp, U, start, cur, i, k, swaps > 0);
  }

  /** The effect of the (k+1)-st complete sweep. */
  ghost predicate Swept<T>(cmp: (T, T) -> int, U: set<T>, start: seq<T>, cur: seq<T>, k: nat, swaps: nat) {
    && |cur| == |start|
    && StableRearrangement(cmp, U, start, cur)
    && swaps + Inversions(cmp, cur) == Inversions(cmp, start)
    && Final(cmp, cur, k + 1)
    && (if swaps == 0 then Sorted(cmp, cur) else k + 1 < |cur|)
  }

  lemma TallyComplete<T>(cmp: (T, T) -> int, U: set<T>, start: seq<T>, cur: seq<T>, i: nat, k: nat, swaps: nat)
    requires Preorder(cmp, U) && Final(cmp, start, k)
    requires SweepTally(cmp, U, start, cur, i, k, swaps) && i + 1 == |cur|
    ensures Swept(cmp, U, start, cur, k, swaps)
  {
    if swaps > 0 {
      BusySweepBound(cmp, U, start, cur, i, k);
    } else {
      QuietSweepSorted(cmp, U, start, cur, i, k);
    }
  }

  lemma TallyStart<T>(cmp: (T, T) -> int, U: set<T>, start: seq<T>, k: nat)
    requires Within(start, U) && Final(cmp, start, k) && start != []
    ensures SweepTally(cmp, U, start, start, 0, k, 0)
  {
  }

  lemma RearrangementTransitive<T>(cmp: (T, T) -> int, U: set<T>, a: seq<T>, b: seq<T>, c: seq<T>)
    requires StableRearrangement(cmp, U, a, b) && StableRearrangement(cmp, U, b, c)
    ensures StableRearrangement(cmp, U, a, c)
  {
  }

  /** Where the outer loop of dpl_sort stands after `passes` sweeps. */
  ghost predicate SortTally<T>(cmp: (T, T) -> int, U: set<T>, s0: seq<T>, cur: seq<T>,
                               swapped: bool, passes: nat, comparisons: nat, swaps: nat)
  {
    && |cur| == |s0| > 0
    && StableRearrangement(cmp, U, s0, cur)
    && swaps + Inversions(cmp, cur) == Inversions(cmp, s0)
    && Final(cmp, cur, passes)
    && passes <= |cur| && (swapped ==> passes < |cur|)
    && comparisons == passes * (|cur| - 1)
    && (!swapped ==> Sorted(cmp, cur))
  }

  lemma SortStart<T>(cmp: (T, T) -> int, U: set<T>, s0: seq<T>)
    requires Within(s0, U) && s0 != []
    ensures SortTally(cmp, U, s0, s0, true, 0, 0, 0)
  {
  }

  lemma SortNothing<T>(cmp: (T, T) -> int, U: set<T>, s0: seq<T>)
    requires s0 == []
    ensures StableSort(cmp, s0) == [] && Inversions(cmp, s0) == 0
    ensures Sorted(cmp, s0) && StableRearrangement(cmp, U, s0, s0)
  {
  }

  lemma SortOpen<T>(cmp: (T, T) -> int, U: set<T>, s0: seq<T>, cur: seq<T>,
                    swapped: bool, passes: nat, comparisons: nat, swaps: nat)
    requires SortTally(cmp, U, s0, cur, swapped, passes, comparisons, swaps)
    ensures Within(cur, U) && Final(cmp, cur, passes)
  {
  }

  lemma SortStep<T>(cmp: (T, T) -> int, U: set<T>, s0: seq<T>, start: seq<T>, cur: seq<T>,
                    passes: nat, comparisons: nat, swaps: nat, now: nat,
                    swapped': bool, passes': nat, comparisons': nat, swaps': nat)
    requires SortTally(cmp, U, s0, start, true, passes, comparisons, swaps)
    requires Swept(cmp, U, start, cur, passes, now)
    requires swapped' == (now > 0) && passes' == passes + 1
    requires comparisons' == comparisons + |cur| - 1 && swaps' == swaps + now
    ensures SortTally(cmp, U, s0, cur, swapped', passes', comparisons', swaps')
    ensures Inversions(cmp, cur) + now == Inversions(cmp, start)
  {
    RearrangementTransitive(cmp, U, s0, start, cur);
    assert (passes + 1) * (|cur| - 1) == passes * (|cur| - 1) + (|cur| - 1);
  }

  /** A sorted stable rearrangement is the reference result, and no inversion is left. */
  lemma SortComplete<T>(cmp: (T, T) -> int, U: set<T>, s0: seq<T>, cur: seq<T>,
                        passes: nat, comparisons: nat, swaps: nat)
    requires Preorder(cmp, U) && SortTally(cmp, U, s0, cur, false, passes, comparisons, swaps)
    ensures cur == StableSort(cmp, s0) && swaps == Inversions(cmp, s0)
    ensures Sorted(cmp, cur) && StableRearrangement(cmp, U, s0, cur) && multiset(cur) == multiset(s0)
    ensures passes <= |cur| && comparisons == passes * (|cur| - 1)
  {
    StableSortCorrect(cmp, U, s0);
    StableSortMultiset(cmp, s0);
    SortedHasNoInversions(cmp, cur);
    RearrangementTransitive(cmp, U, cur, s0, StableSort(cmp, s0));
    StableSortedUnique(cmp, U, cur, StableSort(cmp, s0));
  }
}
