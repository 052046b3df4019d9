/** The theory behind dplist's callback-driven sort and searches: total preorders given by a
    three-way comparison, inversions, and the one stable sorted arrangement of a sequence. */
module Ordering {

  /** `cmp` behaves as a total preorder on the elements of `U`: reflexive, sign-symmetric, transitive. */
  ghost predicate Preorder<T>(cmp: (T, T) -> int, U: set<T>) {
    && (forall x {:trigger cmp(x, x)} | x in U :: cmp(x, x) == 0)
    && (forall x, y {:trigger cmp(x, y)} | x in U && y in U :: cmp(x, y) > 0 <==> cmp(y, x) < 0)
    && (forall x, y, z {:trigger cmp(x, y), cmp(y, z)} | x in U && y in U && z in U ::
          cmp(x, y) <= 0 && cmp(y, z) <= 0 ==> cmp(x, z) <= 0)
  }

  ghost predicate Within<T>(s: seq<T>, U: set<T>) {
    forall i :: 0 <= i < |s| ==> s[i] in U
  }

  ghost predicate Sorted<T>(cmp: (T, T) -> int, s: seq<T>) {
    forall i, j {:trigger cmp(s[i], s[j])} :: 0 <= i < j < |s| ==> cmp(s[i], s[j]) <= 0
  }

  /** The elements of `s` that compare equal to `x`, in order. */
  function SameClass<T>(cmp: (T, T) -> int, x: T, s: seq<T>): seq<T> {
    if s == [] then []
    else (if cmp(s[0], x) == 0 then [s[0]] else []) + SameClass(cmp, x, s[1..])
  }

  /** The elements of `s` that do not compare equal to `x`, in order. */
  function OtherClasses<T>(cmp: (T, T) -> int, x: T, s: seq<T>): seq<T> {
    if s == [] then []
    else (if cmp(s[0], x) == 0 then [] else [s[0]]) + OtherClasses(cmp, x, s[1..])
  }

  /** How many elements of `s` are strictly smaller than `x`. */
  function Below<T>(cmp: (T, T) -> int, x: T, s: seq<T>): nat {
    if s == [] then 0 else (if cmp(x, s[0]) > 0 then 1 else 0) + Below(cmp, x, s[1..])
  }

  /** How many pairs of positions are out of order. */
  function Inversions<T>(cmp: (T, T) -> int, s: seq<T>): nat {
    if s == [] then 0 else Below(cmp, s[0], s[1..]) + Inversions(cmp, s[1..])
  }

  function Swapped<T>(s: seq<T>, i: nat): seq<T>
    requires i + 1 < |s|
  {
    s[i := s[i + 1]][i + 1 := s[i]]
  }

  /** The same elements, and inside every compare-equal class the same order. */
  ghost predicate StableRearrangement<T>(cmp: (T, T) -> int, U: set<T>, a: seq<T>, b: seq<T>) {
    && Within(a, U) && Within(b, U)
    && forall x {:trigger SameClass(cmp, x, a)} {:trigger SameClass(cmp, x, b)} | x in U ::
         SameClass(cmp, x, a) == SameClass(cmp, x, b)
  }

  // ---- a pure stable sort, used as the reference

  function StableInsert<T>(cmp: (T, T) -> int, x: T, s: seq<T>): seq<T> {
    if s == [] || cmp(x, s[0]) <= 0 then [x] + s
    else [s[0]] + StableInsert(cmp, x, s[1..])
  }

  function StableSort<T>(cmp: (T, T) -> int, s: seq<T>): seq<T> {
    if s == [] then [] else StableInsert(cmp, s[0], StableSort(cmp, s[1..]))
  }

  lemma {:induction false} StableInsertMultiset<T>(cmp: (T, T) -> int, x: T, s: seq<T>)
    ensures multiset(StableInsert(cmp, x, s)) == multiset{x} + multiset(s)
  {
    if !(s == [] || cmp(x, s[0]) <= 0) {
      StableInsertMultiset(cmp, x, s[1..]);
      assert s == [s[0]] + s[1..];
    }
  }

  lemma {:induction false} StableSortMultiset<T>(cmp: (T, T) -> int, s: seq<T>)
    ensures multiset(StableSort(cmp, s)) == multiset(s)
  {
    if s != [] {
      StableSortMultiset(cmp, s[1..]);
      StableInsertMultiset(cmp, s[0], StableSort(cmp, s[1..]));
      assert s == [s[0]] + s[1..];
    }
  }

  lemma StableSortWithin<T>(cmp: (T, T) -> int, U: set<T>, s: seq<T>)
    requires Within(s, U)
    ensures Within(StableSort(cmp, s), U)
    ensures |StableSort(cmp, s)| == |s|
  {
    StableSortMultiset(cmp, s);
    var r := StableSort(cmp, s);
    assert |multiset(r)| == |multiset(s)|;
    forall i | 0 <= i < |r| ensures r[i] in U {
      assert r[i] in multiset(r);
      assert r[i] in multiset(s);
    }
  }

  lemma SortedCons<T>(cmp: (T, T) -> int, x: T, s: seq<T>)
    requires Sorted(cmp, s) && forall y | y in s :: cmp(x, y) <= 0
    ensures Sorted(cmp, [x] + s)
  {
    var t := [x] + s;
    forall i, j | 0 <= i < j < |t| ensures cmp(t[i], t[j]) <= 0 {
      assert t[j] == s[j - 1] && (i > 0 ==> t[i] == s[i - 1]);
    }
  }

  lemma HeadBelow<T>(cmp: (T, T) -> int, U: set<T>, x: T, s: seq<T>)
    requires Preorder(cmp, U) && x in U && Within(s, U) && Sorted(cmp, s)
    requires s != [] && cmp(x, s[0]) <= 0
    ensures forall y | y in s :: cmp(x, y) <= 0
  {
    forall j | 0 <= j < |s| ensures cmp(x, s[j]) <= 0 {
      assert j > 0 ==> cmp(s[0], s[j]) <= 0;
    }
  }

  lemma {:induction false} StableInsertSorted<T>(cmp: (T, T) -> int, U: set<T>, x: T, s: seq<T>)
    requires Preorder(cmp, U) && x in U && Within(s, U) && Sorted(cmp, s)
    ensures Sorted(cmp, StableInsert(cmp, x, s))
  {
    if s == [] {
    } else if cmp(x, s[0]) <= 0 {
      HeadBelow(cmp, U, x, s);
      SortedCons(cmp, x, s);
    } else {
      var t := StableInsert(cmp, x, s[1..]);
      StableInsertSorted(cmp, U, x, s[1..]);
      StableInsertMultiset(cmp, x, s[1..]);
      HeadBelow(cmp, U, s[0], s);
      forall y | y in t ensures cmp(s[0], y) <= 0 {
        assert y in multiset(t);
        assert y == x || y in s[1..];
      }
      SortedCons(cmp, s[0], t);
    }
  }

  lemma {:induction false} StableInsertClass<T>(cmp: (T, T) -> int, U: set<T>, x: T, s: seq<T>, y: T)
    requires Preorder(cmp, U) && x in U && y in U && Within(s, U)
    ensures SameClass(cmp, y, StableInsert(cmp, x, s)) == SameClass(cmp, y, [x] + s)
  {
    assert ([x] + s)[1..] == s;
    if !(s == [] || cmp(x, s[0]) <= 0) {
      var t := StableInsert(cmp, x, s[1..]);
      StableInsertClass(cmp, U, x, s[1..], y);
      assert ([s[0]] + t)[1..] == t;
      assert ([x] + s[1..])[1..] == s[1..];
      // x and s[0] differ, so at most one of them belongs to the class of y
      assert !(cmp(x, y) == 0 && cmp(s[0], y) == 0);
    }
  }

  /** The reference really is a stable sort. */
  lemma {:induction false} StableSortCorrect<T>(cmp: (T, T) -> int, U: set<T>, s: seq<T>)
    requires Preorder(cmp, U) && Within(s, U)
    ensures Sorted(cmp, StableSort(cmp, s))
    ensures StableRearrangement(cmp, U, s, StableSort(cmp, s))
  {
    StableSortWithin(cmp, U, s);
    if s != [] {
      var t := StableSort(cmp, s[1..]);
      StableSortCorrect(cmp, U, s[1..]);
      StableInsertSorted(cmp, U, s[0], t);
      forall x | x in U ensures SameClass(cmp, x, s) == SameClass(cmp, x, StableSort(cmp, s)) {
        StableInsertClass(cmp, U, s[0], t, x);
        assert ([s[0]] + t)[1..] == t;
      }
    }
  }

  // ---- uniqueness of the stable sorted arrangement

  lemma {:induction false} SameClassMember<T>(cmp: (T, T) -> int, x: T, s: seq<T>)
    ensures forall y :: y in SameClass(cmp, x, s) <==> y in s && cmp(y, x) == 0
  {
    if s != [] {
      SameClassMember(cmp, x, s[1..]);
      assert s == [s[0]] + s[1..];
    }
  }

  lemma HeadsAgree<T>(cmp: (T, T) -> int, U: set<T>, a: seq<T>, b: seq<T>)
    requires Preorder(cmp, U) && a != [] && b != []
    requires Sorted(cmp, a) && Sorted(cmp, b) && StableRearrangement(cmp, U, a, b)
    ensures a[0] == b[0]
  {
    SameClassMember(cmp, a[0], a);
    SameClassMember(cmp, a[0], b);
    assert a[0] in SameClass(cmp, a[0], a);
    SameClassMember(cmp, b[0], a);
    SameClassMember(cmp, b[0], b);
    assert b[0] in SameClass(cmp, b[0], b);
    assert a[0] in b && b[0] in a;
    assert cmp(b[0], a[0]) == 0;
    assert SameClass(cmp, a[0], a)[0] == a[0] && SameClass(cmp, a[0], b)[0] == b[0];
  }

  lemma TailsAgree<T>(cmp: (T, T) -> int, U: set<T>, a: seq<T>, b: seq<T>)
    requires a != [] && b != [] && a[0] == b[0]
    requires Sorted(cmp, a) && Sorted(cmp, b) && StableRearrangement(cmp, U, a, b)
    ensures Sorted(cmp, a[1..]) && Sorted(cmp, b[1..]) && StableRearrangement(cmp, U, a[1..], b[1..])
  {
    forall y | y in U ensures SameClass(cmp, y, a[1..]) == SameClass(cmp, y, b[1..]) {
      var h := if cmp(a[0], y) == 0 then [a[0]] else [];
      assert SameClass(cmp, y, a[1..]) == SameClass(cmp, y, a)[|h|..];
      assert SameClass(cmp, y, b[1..]) == SameClass(cmp, y, b)[|h|..];
    }
  }

  lemma EmptyOnlyTogether<T>(cmp: (T, T) -> int, U: set<T>, a: seq<T>, b: seq<T>)
    requires Preorder(cmp, U) && StableRearrangement(cmp, U, a, b) && a == []
    ensures b == []
  {
    if b != [] {
      SameClassMember(cmp, b[0], b);
      assert SameClass(cmp, b[0], a) == [];
    }
  }

  /** Sorting and stability leave no freedom: two such arrangements are the same sequence. */
  lemma {:induction false} StableSortedUnique<T>(cmp: (T, T) -> int, U: set<T>, a: seq<T>, b: seq<T>)
    requires Preorder(cmp, U)
    requires Sorted(cmp, a) && Sorted(cmp, b) && StableRearrangement(cmp, U, a, b)
    ensures a == b
  {
    if a == [] {
      EmptyOnlyTogether(cmp, U, a, b);
    } else if b == [] {
      EmptyOnlyTogether(cmp, U, b, a);
    } else {
      HeadsAgree(cmp, U, a, b);
      TailsAgree(cmp, U, a, b);
      StableSortedUnique(cmp, U, a[1..], b[1..]);
      assert a == [a[0]] + a[1..] && b == [b[0]] + b[1..];
    }
  }

  // ---- adjacent exchanges

  lemma {:induction false} SwapBelow<T>(cmp: (T, T) -> int, x: T, s: seq<T>, i: nat)
    requires i + 1 < |s|
    ensures Below(cmp, x, Swapped(s, i)) == Below(cmp, x, s)
  {
    var t := Swapped(s, i);
    if i == 0 {
      assert s[1..][1..] == t[1..][1..];
    } else {
      assert t[1..] == Swapped(s[1..], i - 1);
      SwapBelow(cmp, x, s[1..], i - 1);
    }
  }

  /** Exchanging one out-of-order neighbouring pair removes exactly one inversion. */
  lemma {:induction false} SwapRemovesOneInversion<T>(cmp: (T, T) -> int, U: set<T>, s: seq<T>, i: nat)
    requires Preorder(cmp, U) && Within(s, U)
    requires i + 1 < |s| && cmp(s[i], s[i + 1]) > 0
    ensures Inversions(cmp, Swapped(s, i)) == Inversions(cmp, s) - 1
  {
    var t := Swapped(s, i);
    if i == 0 {
      assert s[1..][1..] == t[1..][1..];
      assert cmp(t[0], t[1]) < 0;
      assert Below(cmp, s[0], s[1..]) == 1 + Below(cmp, s[0], s[1..][1..]);
      assert Below(cmp, t[0], t[1..]) == Below(cmp, s[1], s[1..][1..]);
    } else {
      assert t[1..] == Swapped(s[1..], i - 1);
      SwapRemovesOneInversion(cmp, U, s[1..], i - 1);
      SwapBelow(cmp, s[0], s[1..], i - 1);
    }
  }

  lemma {:induction false} SwapKeepsClass<T>(cmp: (T, T) -> int, U: set<T>, s: seq<T>, i: nat, x: T)
    requires Preorder(cmp, U) && Within(s, U) && x in U
    requires i + 1 < |s| && cmp(s[i], s[i + 1]) > 0
    ensures SameClass(cmp, x, Swapped(s, i)) == SameClass(cmp, x, s)
  {
    var t := Swapped(s, i);
    if i == 0 {
      assert s[1..][1..] == t[1..][1..];
      assert !(cmp(s[0], x) == 0 && cmp(s[1], x) == 0);
    } else {
      assert t[1..] == Swapped(s[1..], i - 1);
      SwapKeepsClass(cmp, U, s[1..], i - 1, x);
    }
  }

  lemma {:induction false} SortedHasNoInversions<T>(cmp: (T, T) -> int, s: seq<T>)
    requires Sorted(cmp, s)
    ensures Inversions(cmp, s) == 0
  {
    if s != [] {
      SortedHasNoInversions(cmp, s[1..]);
      NothingBelow(cmp, s[0], s[1..]);
    }
  }

  lemma {:induction false} NothingBelow<T>(cmp: (T, T) -> int, x: T, s: seq<T>)
    requires forall j :: 0 <= j < |s| ==> cmp(x, s[j]) <= 0
    ensures Below(cmp, x, s) == 0
  {
    if s != [] {
      NothingBelow(cmp, x, s[1..]);
    }
  }

  lemma {:induction false} AdjacentSorted<T>(cmp: (T, T) -> int, U: set<T>, s: seq<T>, n: nat)
    requires Preorder(cmp, U) && Within(s, U) && n <= |s|
    requires forall p :: 0 <= p && p + 1 < n ==> cmp(s[p], s[p + 1]) <= 0
    ensures Sorted(cmp, s[..n])
  {
    if n > 0 {
      AdjacentSorted(cmp, U, s, n - 1);
      var a, b := s[..n], s[..n - 1];
      forall i, j | 0 <= i < j < n ensures cmp(a[i], a[j]) <= 0 {
        assert j < n - 1 ==> a[i] == b[i] && a[j] == b[j];
        if j == n - 1 {
          assert s[j - 1] in U && s[j] in U && s[i] in U;
          assert cmp(s[j - 1], s[j - 1 + 1]) <= 0;
          assert i < j - 1 ==> cmp(b[i], b[j - 1]) <= 0;
        }
      }
    }
  }
}
