/** Small vocabulary shared by the models: optional values and edits of sequences. */
module Util {
  datatype Option<+T> = None | Some(value: T)

  function InsertAt<T>(s: seq<T>, c: nat, e: T): seq<T>
    requires c <= |s|
  {
    s[..c] + [e] + s[c..]
  }

  function RemoveAt<T>(s: seq<T>, c: nat): seq<T>
    requires c < |s|
  {
    s[..c] + s[c + 1..]
  }

  function Reverse<T>(s: seq<T>): (r: seq<T>)
    ensures |r| == |s|
    ensures forall i :: 0 <= i < |s| ==> r[i] == s[|s| - 1 - i]
  {
    if s == [] then [] else Reverse(s[1..]) + [s[0]]
  }

  function Elements<T>(s: seq<T>): set<T> {
    set x | x in s
  }

  /** Every element occurs once. (NoDuplicatesIndexed gives the pairwise form.) */
  ghost predicate NoDuplicates<T>(s: seq<T>) {
    forall x {:trigger multiset(s)[x]} | x in s :: multiset(s)[x] == 1
  }

  ghost predicate PairwiseDistinct<T>(s: seq<T>) {
    forall i, j :: 0 <= i < j < |s| ==> s[i] != s[j]
  }

  lemma {:induction false} PairwiseCount<T>(s: seq<T>, x: T)
    requires PairwiseDistinct(s) && x in s
    ensures multiset(s)[x] == 1
  {
    var n := |s| - 1;
    assert s == s[..n] + [s[n]];
    if x in s[..n] {
      assert x != s[n];
      PairwiseCount(s[..n], x);
    }
  }

  lemma NoDuplicatesIndexed<T>(s: seq<T>)
    ensures NoDuplicates(s) <==> PairwiseDistinct(s)
  {
    if PairwiseDistinct(s) {
      forall x | x in s ensures multiset(s)[x] == 1 { PairwiseCount(s, x); }
    } else {
      var i, j :| 0 <= i < j < |s| && s[i] == s[j];
      assert s == s[..j] + s[j..];
      assert s[i] in s[..j] && s[j] in s[j..];
      assert multiset(s)[s[i]] >= 2;
    }
  }

  lemma OthersDiffer<T>(s: seq<T>, c: int)
    requires NoDuplicates(s)
    ensures 0 <= c < |s| ==> forall i :: 0 <= i < |s| && i != c ==> s[i] != s[c]
  {
    NoDuplicatesIndexed(s);
  }

  /** The values present in a sequence of optional values, in order. */
  function Somes<T>(s: seq<Option<T>>): seq<T> {
    if s == [] then []
    else (match s[0] case None => [] case Some(x) => [x]) + Somes(s[1..])
  }

  lemma {:induction false} SomesConcat<T>(s: seq<Option<T>>, t: seq<Option<T>>)
    ensures Somes(s + t) == Somes(s) + Somes(t)
  {
    if s == [] {
      assert s + t == t;
    } else {
      assert (s + t)[1..] == s[1..] + t;
      SomesConcat(s[1..], t);
    }
  }

  lemma InsertAtForms<T>(s: seq<T>, c: nat, e: T)
    requires c <= |s|
    ensures InsertAt(s, c, e) == s[..c] + [e] + s[c..] && InsertAt(s, c, e)[c] == e
    ensures c == 0 ==> InsertAt(s, c, e) == [e] + s
    ensures c == |s| ==> InsertAt(s, c, e) == s + [e]
  {
  }

  lemma InsertAtEnd<T>(s: seq<T>, e: T)
    ensures InsertAt(s, |s|, e) == s + [e]
  {
    assert s[..|s|] == s;
  }

  lemma InsertThenRemove<T>(s: seq<T>, c: nat, e: T)
    requires c <= |s|
    ensures RemoveAt(InsertAt(s, c, e), c) == s
  {
    assert RemoveAt(InsertAt(s, c, e), c) == s;
  }

  lemma RemoveThenInsert<T>(s: seq<T>, c: nat)
    requires c < |s|
    ensures InsertAt(RemoveAt(s, c), c, s[c]) == s
  {
    assert InsertAt(RemoveAt(s, c), c, s[c]) == s;
  }

  lemma InsertAtMultiset<T>(s: seq<T>, c: nat, e: T)
    requires c <= |s|
    ensures multiset(InsertAt(s, c, e)) == multiset(s) + multiset{e}
  {
    assert s == s[..c] + s[c..];
  }

  lemma RemoveAtMultiset<T>(s: seq<T>, c: nat)
    requires c < |s|
    ensures multiset(s) == multiset(RemoveAt(s, c)) + multiset{s[c]}
  {
    assert s == s[..c] + [s[c]] + s[c + 1..];
  }

  lemma SameMembers<T>(s: seq<T>, t: seq<T>, e: T)
    requires multiset(t) == multiset(s) + multiset{e}
    ensures forall x :: x in t <==> x in s || x == e
  {
    forall x ensures x in t <==> x in s || x == e {
      assert x in t <==> x in multiset(t);
      assert x in s <==> x in multiset(s);
    }
  }

  lemma InsertAtMembers<T>(s: seq<T>, c: nat, e: T)
    requires c <= |s|
    ensures forall x :: x in InsertAt(s, c, e) <==> x in s || x == e
  {
    InsertAtMultiset(s, c, e);
    SameMembers(s, InsertAt(s, c, e), e);
  }

  lemma NoDuplicatesInsert<T>(s: seq<T>, c: nat, e: T)
    requires c <= |s| && NoDuplicates(s) && e !in s
    ensures NoDuplicates(InsertAt(s, c, e))
    ensures forall x :: x in InsertAt(s, c, e) <==> x in s || x == e
  {
    InsertAtMultiset(s, c, e);
    InsertAtMembers(s, c, e);
  }

  lemma NoDuplicatesRemove<T>(s: seq<T>, c: nat)
    requires c < |s| && NoDuplicates(s)
    ensures NoDuplicates(RemoveAt(s, c)) && s[c] !in RemoveAt(s, c)
    ensures forall x :: x in s <==> x in RemoveAt(s, c) || x == s[c]
  {
    var t := RemoveAt(s, c);
    RemoveAtMultiset(s, c);
    SameMembers(t, s, s[c]);
    forall x | x in t ensures multiset(t)[x] == 1 {
      assert multiset(s)[x] == 1;
    }
    assert multiset(s)[s[c]] == 1;
    assert multiset(t)[s[c]] == 0;
  }

  lemma NoDuplicatesConcat<T>(a: seq<T>, b: seq<T>)
    requires NoDuplicates(a) && NoDuplicates(b)
    requires forall x :: x in b ==> x !in a
    ensures NoDuplicates(a + b)
    ensures Elements(a + b) == Elements(a) + Elements(b)
  {
    forall x | x in a + b ensures multiset(a + b)[x] == 1 {
      assert multiset(a + b)[x] == multiset(a)[x] + multiset(b)[x];
    }
  }

  // ---- accounting for linked and freed nodes

  /** Every node ever linked is in the chain or was freed, never both, and was freed once. */
  ghost predicate Accounted<N>(nodes: seq<N>, freed: seq<N>, linked: set<N>) {
    && NoDuplicates(freed)
    && (forall n :: n in nodes ==> n !in freed)
    && linked == Elements(nodes) + Elements(freed)
  }

  lemma AccountInsert<N>(s: seq<N>, freed: seq<N>, linked: set<N>, c: nat, n: N)
    requires c <= |s| && NoDuplicates(s) && Accounted(s, freed, linked) && n !in linked
    ensures Accounted(InsertAt(s, c, n), freed, linked + {n})
  {
    NoDuplicatesInsert(s, c, n);
    assert forall m :: m in freed ==> m in linked;
  }

  lemma AccountRemove<N>(s: seq<N>, freed: seq<N>, linked: set<N>, c: nat)
    requires c < |s| && NoDuplicates(s) && Accounted(s, freed, linked)
    ensures Accounted(RemoveAt(s, c), freed + [s[c]], linked)
  {
    NoDuplicatesRemove(s, c);
    NoDuplicatesConcat(freed, [s[c]]);
    assert forall m :: m in freed + [s[c]] <==> m in freed || m == s[c];
  }
}
