/** What dplist's operations do to the abstract sequence, and the laws relating them. */
module ListLaws {
  import opened Util
  import opened Ordering

  // ---- searching

  /** Index of the first element comparing equal to `x`, or -1. */
  function FirstMatch<T>(cmp: (T, T) -> int, s: seq<T>, x: T): (r: int)
    ensures -1 <= r < |s|
    ensures r >= 0 ==> cmp(s[r], x) == 0
    ensures forall j :: 0 <= j < (if r >= 0 then r else |s|) ==> cmp(s[j], x) != 0
  {
    if s == [] then -1
    else if cmp(s[0], x) == 0 then 0
    else
      var r := FirstMatch(cmp, s[1..], x);
      assert forall j :: 1 <= j < |s| ==> s[j] == s[1..][j - 1];
      if r < 0 then -1 else r + 1
  }

  lemma FirstMatchUnique<T>(cmp: (T, T) -> int, s: seq<T>, x: T, r: int)
    requires -1 <= r < |s|
    requires r >= 0 ==> cmp(s[r], x) == 0
    requires forall j :: 0 <= j < (if r >= 0 then r else |s|) ==> cmp(s[j], x) != 0
    ensures r == FirstMatch(cmp, s, x)
  {
    var q := FirstMatch(cmp, s, x);
    if q >= 0 && r >= 0 {
      assert !(q < r) && !(r < q);
    }
  }

  lemma {:induction false} BelowPermuted<T>(cmp: (T, T) -> int, y: T, x: T, s: seq<T>)
    ensures Below(cmp, x, StableInsert(cmp, y, s)) == Below(cmp, x, [y] + s)
  {
    assert ([y] + s)[1..] == s;
    if !(s == [] || cmp(y, s[0]) <= 0) {
      var t := StableInsert(cmp, y, s[1..]);
      BelowPermuted(cmp, y, x, s[1..]);
      assert ([s[0]] + t)[1..] == t;
      assert ([y] + s[1..])[1..] == s[1..];
    }
  }

  /** Sorting does not change how many elements are smaller than a key. */
  lemma {:induction false} RankUnchangedBySort<T>(cmp: (T, T) -> int, s: seq<T>, x: T)
    ensures Below(cmp, x, StableSort(cmp, s)) == Below(cmp, x, s)
  {
    if s != [] {
      var t := StableSort(cmp, s[1..]);
      RankUnchangedBySort(cmp, s[1..], x);
      BelowPermuted(cmp, s[0], x, t);
      assert ([s[0]] + t)[1..] == t;
    }
  }

  lemma {:induction false} FirstMatchIsRank<T>(cmp: (T, T) -> int, U: set<T>, s: seq<T>, x: T)
    requires Preorder(cmp, U) && Within(s, U) && x in U
    requires Sorted(cmp, s) && FirstMatch(cmp, s, x) >= 0
    ensures FirstMatch(cmp, s, x) == Below(cmp, x, s)
  {
    var r := FirstMatch(cmp, s, x);
    if r == 0 {
      forall j | 0 <= j < |s| ensures cmp(x, s[j]) <= 0 {
        assert s[0] in U && s[j] in U;
        assert j > 0 ==> cmp(s[0], s[j]) <= 0;
      }
      NothingBelow(cmp, x, s);
    } else {
      assert s[0] in U && s[r] in U && cmp(s[0], s[r]) <= 0;
      assert cmp(x, s[0]) > 0;
      FirstMatchIsRank(cmp, U, s[1..], x);
    }
  }

  lemma {:induction false} MatchSurvivesSort<T>(cmp: (T, T) -> int, s: seq<T>, x: T)
    ensures FirstMatch(cmp, StableSort(cmp, s), x) >= 0 <==> FirstMatch(cmp, s, x) >= 0
  {
    var t := StableSort(cmp, s);
    StableSortMultiset(cmp, s);
    var i, j := FirstMatch(cmp, s, x), FirstMatch(cmp, t, x);
    if i >= 0 {
      assert s[i] in multiset(t);
      assert s[i] in t;
    }
    if j >= 0 {
      assert t[j] in multiset(s);
      assert t[j] in s;
    }
  }

  /** Looking an element up after sorting gives its rank, a number fixed by the unsorted input;
      a key that matched nothing still matches nothing. */
  lemma SortedLookupIsRank<T>(cmp: (T, T) -> int, U: set<T>, s: seq<T>, x: T)
    requires Preorder(cmp, U) && Within(s, U) && x in U
    ensures FirstMatch(cmp, StableSort(cmp, s), x)
            == if FirstMatch(cmp, s, x) >= 0 then Below(cmp, x, s) else -1
  {
    StableSortWithin(cmp, U, s);
    StableSortCorrect(cmp, U, s);
    MatchSurvivesSort(cmp, s, x);
    RankUnchangedBySort(cmp, s, x);
    if FirstMatch(cmp, s, x) >= 0 {
      FirstMatchIsRank(cmp, U, StableSort(cmp, s), x);
    }
  }

  // ---- removing matches

  /** dpl_remove_element on the sequence: drop the first match, if any. */
  function RemoveMatch<T>(cmp: (T, T) -> int, s: seq<T>, x: T): seq<T> {
    var i := FirstMatch(cmp, s, x);
    if i < 0 then s else RemoveAt(s, i)
  }

  function RemoveMatchTimes<T>(cmp: (T, T) -> int, s: seq<T>, x: T, n: nat): seq<T> {
    if n == 0 then s else RemoveMatch(cmp, RemoveMatchTimes(cmp, s, x, n - 1), x)
  }

  lemma FirstMatchShift<T>(cmp: (T, T) -> int, s: seq<T>, x: T)
    requires s != [] && cmp(s[0], x) != 0
    ensures var r := FirstMatch(cmp, s[1..], x);
            FirstMatch(cmp, s, x) == if r < 0 then -1 else r + 1
  {
  }

  lemma RemoveMatchShift<T>(cmp: (T, T) -> int, s: seq<T>, x: T)
    requires s != [] && cmp(s[0], x) != 0
    ensures RemoveMatch(cmp, s, x) == [s[0]] + RemoveMatch(cmp, s[1..], x)
  {
    FirstMatchShift(cmp, s, x);
    var r := FirstMatch(cmp, s[1..], x);
    if r >= 0 {
      RemoveAtShift(s, r);
    }
  }

  lemma RemoveAtShift<T>(s: seq<T>, r: nat)
    requires r + 1 < |s|
    ensures RemoveAt(s, r + 1) == [s[0]] + RemoveAt(s[1..], r)
  {
  }

  lemma RemoveMatchHit<T>(cmp: (T, T) -> int, s: seq<T>, x: T)
    requires s != [] && cmp(s[0], x) == 0
    ensures FirstMatch(cmp, s, x) == 0 && RemoveMatch(cmp, s, x) == s[1..]
  {
    assert RemoveAt(s, 0) == s[1..];
  }

  lemma ClassesCons<T>(cmp: (T, T) -> int, x: T, e: T, t: seq<T>)
    ensures SameClass(cmp, x, [e] + t) == (if cmp(e, x) == 0 then [e] else []) + SameClass(cmp, x, t)
    ensures OtherClasses(cmp, x, [e] + t) == (if cmp(e, x) == 0 then [] else [e]) + OtherClasses(cmp, x, t)
  {
    assert ([e] + t)[1..] == t;
  }

  lemma {:induction false} RemoveMatchStep<T>(cmp: (T, T) -> int, s: seq<T>, x: T)
    ensures OtherClasses(cmp, x, RemoveMatch(cmp, s, x)) == OtherClasses(cmp, x, s)
    ensures |SameClass(cmp, x, RemoveMatch(cmp, s, x))|
            == if |SameClass(cmp, x, s)| > 0 then |SameClass(cmp, x, s)| - 1 else 0
    ensures |RemoveMatch(cmp, s, x)| == |s| - if |SameClass(cmp, x, s)| > 0 then 1 else 0
    ensures FirstMatch(cmp, s, x) >= 0 <==> |SameClass(cmp, x, s)| > 0
  {
    hide FirstMatch, RemoveMatch, SameClass, OtherClasses;
    if s == [] {
      RemoveMatchNone(cmp, x);
    } else {
      assert s == [s[0]] + s[1..];
      ClassesCons(cmp, x, s[0], s[1..]);
      if cmp(s[0], x) == 0 {
        RemoveMatchHit(cmp, s, x);
      } else {
        RemoveMatchStep(cmp, s[1..], x);
        FirstMatchShift(cmp, s, x);
        RemoveMatchShift(cmp, s, x);
        ClassesCons(cmp, x, s[0], RemoveMatch(cmp, s[1..], x));
      }
    }
  }

  lemma RemoveMatchNone<T>(cmp: (T, T) -> int, x: T)
    ensures RemoveMatch(cmp, [], x) == [] && SameClass(cmp, x, []) == [] && OtherClasses(cmp, x, []) == []
    ensures FirstMatch(cmp, [], x) == -1
  {
  }

  lemma {:induction false} NoMatchMeansAllOthers<T>(cmp: (T, T) -> int, s: seq<T>, x: T)
    requires SameClass(cmp, x, s) == []
    ensures OtherClasses(cmp, x, s) == s
  {
    if s != [] {
      NoMatchMeansAllOthers(cmp, s[1..], x);
    }
  }

  /** Removing `x` over and over: for the first count(x) calls there is still a match, each call
      takes one away, and what is left is exactly the non-matching elements in their order. */
  lemma RemoveAllMatches<T>(cmp: (T, T) -> int, s: seq<T>, x: T, n: nat)
    requires n <= |SameClass(cmp, x, s)|
    ensures |RemoveMatchTimes(cmp, s, x, n)| == |s| - n
    ensures FirstMatch(cmp, RemoveMatchTimes(cmp, s, x, n), x) >= 0 <==> n < |SameClass(cmp, x, s)|
    ensures n == |SameClass(cmp, x, s)| ==> RemoveMatchTimes(cmp, s, x, n) == OtherClasses(cmp, x, s)
  {
    hide SameClass, OtherClasses, RemoveMatch, FirstMatch;
    MatchesLeft(cmp, s, x, n);
    var t := RemoveMatchTimes(cmp, s, x, n);
    RemoveMatchStep(cmp, t, x);
    if n == |SameClass(cmp, x, s)| {
      NoMatchMeansAllOthers(cmp, t, x);
    }
  }

  lemma {:induction false} MatchesLeft<T>(cmp: (T, T) -> int, s: seq<T>, x: T, n: nat)
    requires n <= |SameClass(cmp, x, s)|
    ensures var t := RemoveMatchTimes(cmp, s, x, n);
            && |t| == |s| - n && |SameClass(cmp, x, t)| == |SameClass(cmp, x, s)| - n
            && OtherClasses(cmp, x, t) == OtherClasses(cmp, x, s)
  {
    hide SameClass, OtherClasses, RemoveMatch;
    if n > 0 {
      MatchesLeft(cmp, s, x, n - 1);
      RemoveMatchStep(cmp, RemoveMatchTimes(cmp, s, x, n - 1), x);
    }
  }

  // ---- insertion into a sorted list

  /** How far dpl_insert_sorted walks: the first position whose element is not below `e`. */
  function FirstNotBelow<T>(cmp: (T, T) -> int, s: seq<T>, e: T): (p: nat)
    ensures p <= |s|
    ensures forall j :: 0 <= j < p ==> cmp(s[j], e) < 0
    ensures p < |s| ==> cmp(s[p], e) >= 0
  {
    if s == [] || cmp(s[0], e) >= 0 then 0
    else
      assert forall j :: 1 <= j < |s| ==> s[j] == s[1..][j - 1];
      1 + FirstNotBelow(cmp, s[1..], e)
  }

  lemma FirstNotBelowUnique<T>(cmp: (T, T) -> int, s: seq<T>, e: T, p: nat)
    requires p <= |s|
    requires forall j :: 0 <= j < p ==> cmp(s[j], e) < 0
    requires p < |s| ==> cmp(s[p], e) >= 0
    ensures p == FirstNotBelow(cmp, s, e)
  {
    var q := FirstNotBelow(cmp, s, e);
    assert !(q < p) && !(p < q);
  }

  /** Where dpl_insert_sorted puts the new element: after the first one not below `e`, or in front. */
  function SortedPlace<T>(cmp: (T, T) -> int, s: seq<T>, e: T): (c: nat)
    ensures c <= |s|
  {
    var p := FirstNotBelow(cmp, s, e);
    if p < |s| then p + 1 else 0
  }

  ghost predicate AllBelow<T>(cmp: (T, T) -> int, s: seq<T>, e: T) {
    forall j :: 0 <= j < |s| ==> cmp(s[j], e) < 0
  }

  ghost predicate IsFirstNotBelow<T>(cmp: (T, T) -> int, s: seq<T>, e: T, p: nat) {
    p < |s| && cmp(s[p], e) >= 0 && forall j :: 0 <= j < p ==> cmp(s[j], e) < 0
  }

  lemma SortedPlaceIs<T>(cmp: (T, T) -> int, s: seq<T>, e: T)
    ensures AllBelow(cmp, s, e) ==> SortedPlace(cmp, s, e) == 0
    ensures forall p: nat :: IsFirstNotBelow(cmp, s, e, p) ==>
              FirstNotBelow(cmp, s, e) == p && SortedPlace(cmp, s, e) == p + 1
  {
    forall p: nat | IsFirstNotBelow(cmp, s, e, p)
      ensures FirstNotBelow(cmp, s, e) == p && SortedPlace(cmp, s, e) == p + 1
    {
      FirstNotBelowUnique(cmp, s, e, p);
    }
  }

  function InsertSortedSeq<T>(cmp: (T, T) -> int, s: seq<T>, e: T): seq<T> {
    InsertAt(s, SortedPlace(cmp, s, e), e)
  }

  lemma InsertAtWithin<T>(U: set<T>, s: seq<T>, c: nat, e: T)
    requires c <= |s| && Within(s, U) && e in U
    ensures Within(InsertAt(s, c, e), U)
  {
    var t := InsertAt(s, c, e);
    forall i | 0 <= i < |t| ensures t[i] in U {
      assert t[i] == (if i < c then s[i] else if i == c then e else s[i - 1]);
    }
  }

  /** The result is sorted exactly when the list was empty or already held an equal element. */
  lemma InsertSortedSortedIff<T>(cmp: (T, T) -> int, U: set<T>, s: seq<T>, e: T)
    requires Preorder(cmp, U) && Within(s, U) && e in U && Sorted(cmp, s)
    ensures Sorted(cmp, InsertSortedSeq(cmp, s, e)) <==> s == [] || FirstMatch(cmp, s, e) >= 0
  {
    var p := FirstNotBelow(cmp, s, e);
    var r := InsertSortedSeq(cmp, s, e);
    if s == [] {
    } else if p == |s| {
      assert r[0] == e && r[1] == s[0];
      assert cmp(e, s[0]) > 0;
    } else if cmp(s[p], e) == 0 {
      assert FirstMatch(cmp, s, e) >= 0;
      InsertAfterEqualSorted(cmp, U, s, e, p);
    } else {
      assert r[p] == s[p] && r[p + 1] == e;
      NoMatchPastGreater(cmp, U, s, e, p);
    }
  }

  lemma NoMatchPastGreater<T>(cmp: (T, T) -> int, U: set<T>, s: seq<T>, e: T, p: nat)
    requires Preorder(cmp, U) && Within(s, U) && e in U && Sorted(cmp, s)
    requires p < |s| && cmp(s[p], e) > 0
    requires forall j :: 0 <= j < p ==> cmp(s[j], e) < 0
    ensures FirstMatch(cmp, s, e) == -1
  {
    forall j | 0 <= j < |s| ensures cmp(s[j], e) != 0 {
      assert s[p] in U && s[j] in U;
      assert j > p ==> cmp(s[p], s[j]) <= 0;
    }
    FirstMatchUnique(cmp, s, e, -1);
  }

  /** A smaller element inserted into a one-element list ends up behind it. */
  lemma InsertSortedWitness()
    ensures var cmp := (x: int, y: int) => x - y;
            Sorted(cmp, [2]) && InsertSortedSeq(cmp, [2], 1) == [2, 1] && !Sorted(cmp, [2, 1])
  {
    var cmp := (x: int, y: int) => x - y;
    assert FirstNotBelow(cmp, [2], 1) == 0;
    assert cmp([2, 1][0], [2, 1][1]) > 0;
  }

  lemma InsertAfterEqualSorted<T>(cmp: (T, T) -> int, U: set<T>, s: seq<T>, e: T, p: nat)
    requires Preorder(cmp, U) && Within(s, U) && e in U && Sorted(cmp, s)
    requires p < |s| && cmp(s[p], e) == 0
    ensures Sorted(cmp, InsertAt(s, p + 1, e))
  {
    hide Preorder;
    forall i | 0 <= i < |s| ensures (i <= p ==> cmp(s[i], e) <= 0) && (i > p ==> cmp(e, s[i]) <= 0) {
      EqualNeighbour(cmp, U, s[i], s[p], e);
    }
    InsertBetweenSorted(cmp, s, e, p + 1);
  }

  /** Order relative to an element carries over to an equal one. */
  lemma EqualNeighbour<T>(cmp: (T, T) -> int, U: set<T>, x: T, y: T, e: T)
    requires Preorder(cmp, U) && x in U && y in U && e in U && cmp(y, e) == 0
    ensures cmp(x, y) <= 0 || x == y ==> cmp(x, e) <= 0
    ensures cmp(y, x) <= 0 ==> cmp(e, x) <= 0
  {
  }

  lemma InsertBetweenSorted<T>(cmp: (T, T) -> int, s: seq<T>, e: T, c: nat)
    requires c <= |s| && Sorted(cmp, s)
    requires forall i {:trigger cmp(s[i], e)} :: 0 <= i < c ==> cmp(s[i], e) <= 0
    requires forall i {:trigger cmp(e, s[i])} :: c <= i < |s| ==> cmp(e, s[i]) <= 0
    ensures Sorted(cmp, InsertAt(s, c, e))
  {
    hide Sorted;
    var r := InsertAt(s, c, e);
    forall i, j {:trigger cmp(r[i], r[j])} | 0 <= i < j < |r| ensures cmp(r[i], r[j]) <= 0 {
      InsertedPair(cmp, s, e, c, i, j);
    }
    SortedFromPairs(cmp, r);
  }

  lemma SortedFromPairs<T>(cmp: (T, T) -> int, r: seq<T>)
    requires forall i, j {:trigger cmp(r[i], r[j])} :: 0 <= i < j < |r| ==> cmp(r[i], r[j]) <= 0
    ensures Sorted(cmp, r)
  {
  }

  lemma InsertedPair<T>(cmp: (T, T) -> int, s: seq<T>, e: T, c: nat, i: nat, j: nat)
    requires c <= |s| && Sorted(cmp, s) && i < j <= |s|
    requires i < c ==> cmp(s[i], e) <= 0
    requires j > c ==> cmp(e, s[j - 1]) <= 0
    ensures cmp(InsertAt(s, c, e)[i], InsertAt(s, c, e)[j]) <= 0
  {
    var r := InsertAt(s, c, e);
    assert r[i] == (if i < c then s[i] else if i == c then e else s[i - 1]);
    assert r[j] == (if j < c then s[j] else if j == c then e else s[j - 1]);
  }

  /** Whatever dpl_insert_sorted did to the order, a following sort repairs it. */
  lemma InsertSortedThenSort<T>(cmp: (T, T) -> int, U: set<T>, s: seq<T>, e: T)
    requires Preorder(cmp, U) && Within(s, U) && e in U
    ensures var r := StableSort(cmp, InsertSortedSeq(cmp, s, e));
            Sorted(cmp, r) && multiset(r) == multiset(s) + multiset{e}
  {
    hide Preorder, Within, Sorted, StableRearrangement, StableSort, InsertAt, SortedPlace;
    var c := SortedPlace(cmp, s, e);
    var t := InsertAt(s, c, e);
    InsertAtWithin(U, s, c, e);
    StableSortCorrect(cmp, U, t);
    StableSortMultiset(cmp, t);
    InsertAtMultiset(s, c, e);
  }
}
