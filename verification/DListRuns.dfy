/** Whole histories of dplist calls: every sequence of operations keeps the chain sound and follows the
    sequence model, operations that should cancel do cancel, and copies live their own lives. */
module DListRuns {
  import opened Util
  import opened Ordering
  import opened ListLaws
  import opened DList

  // ---- following the pointers

  /** The nodes met by following `next` from `n` until NULL; None when the walk leaves `S` or comes back
      to a node it has already met. */
  ghost function WalkNext<T>(n: Node?<T>, S: set<Node<T>>): Option<seq<Node<T>>>
    reads S
    decreases S
  {
    if n == null then Some([])
    else if n !in S then None
    else match WalkNext(n.next, S - {n})
      case None => None
      case Some(rest) => Some([n] + rest)
  }

  /** The same along `prev`. */
  ghost function WalkPrev<T>(n: Node?<T>, S: set<Node<T>>): Option<seq<Node<T>>>
    reads S
    decreases S
  {
    if n == null then Some([])
    else if n !in S then None
    else match WalkPrev(n.prev, S - {n})
      case None => None
      case Some(rest) => Some([n] + rest)
  }

  lemma {:induction false} WalkNextSuffix<T>(s: seq<Node<T>>, i: nat, S: set<Node<T>>)
    requires Chained(s) && i <= |s|
    requires forall j :: i <= j < |s| ==> s[j] in S
    ensures WalkNext(At(s, i), S) == Some(s[i..])
    decreases |s| - i
  {
    hide NoDuplicates;
    if i < |s| {
      OthersDiffer(s, i);
      assert s[i].next == At(s, i + 1);
      WalkNextSuffix(s, i + 1, S - {s[i]});
      assert s[i..] == [s[i]] + s[i + 1..];
    }
  }

  lemma {:induction false} WalkPrevPrefix<T>(s: seq<Node<T>>, i: nat, S: set<Node<T>>)
    requires Chained(s) && i <= |s|
    requires forall j :: 0 <= j < i ==> s[j] in S
    ensures WalkPrev(At(s, i - 1), S) == Some(Reverse(s[..i]))
    decreases i
  {
    hide NoDuplicates, Reverse;
    if i > 0 {
      OthersDiffer(s, i - 1);
      assert s[i - 1].prev == At(s, i - 2);
      WalkPrevPrefix(s, i - 1, S - {s[i - 1]});
      assert s[..i] == s[..i - 1] + [s[i - 1]];
      ReverseAppend(s[..i - 1], s[i - 1]);
    } else {
      ReverseEmpty<Node<T>>();
      assert s[..i] == [];
    }
  }

  lemma ReverseEmpty<T>()
    ensures Reverse<T>([]) == []
  {
  }

  lemma {:induction false} ReverseAppend<T>(s: seq<T>, e: T)
    ensures Reverse(s + [e]) == [e] + Reverse(s)
  {
    if s == [] {
      assert s + [e] == [e] && [e][1..] == [];
    } else {
      assert (s + [e])[1..] == s[1..] + [e];
      ReverseAppend(s[1..], e);
    }
  }

  /** A completed walk met each node once, along the links, up to NULL. */
  lemma {:induction false} WalkNextShape<T>(n: Node?<T>, S: set<Node<T>>, s: seq<Node<T>>)
    requires WalkNext(n, S) == Some(s)
    ensures n == At(s, 0) && NoDuplicates(s) && forall m :: m in s ==> m in S
    ensures forall i {:trigger s[i].next} :: 0 <= i < |s| ==> s[i].next == At(s, i + 1)
    decreases S
  {
    hide NoDuplicates;
    if n == null {
      NoDuplicatesIndexed(s);
    } else {
      var m: Node<T> := n;
      var rest := WalkNext(m.next, S - {m}).value;
      assert s == [m] + rest;
      WalkNextShape(m.next, S - {m}, rest);
      NoDuplicatesIndexed([m]);
      NoDuplicatesConcat([m], rest);
      assert forall i :: 0 < i < |s| ==> s[i] == rest[i - 1];
      assert forall i :: 0 < i <= |s| ==> At(s, i) == At(rest, i - 1);
    }
  }

  lemma {:induction false} WalkPrevShape<T>(n: Node?<T>, S: set<Node<T>>, s: seq<Node<T>>)
    requires WalkPrev(n, S) == Some(s)
    ensures n == At(s, 0)
    ensures forall i {:trigger s[i].prev} :: 0 <= i < |s| ==> s[i].prev == At(s, i + 1)
    decreases S
  {
    if n != null {
      var rest := WalkPrev(n.prev, S - {n}).value;
      assert s == [n] + rest;
      WalkPrevShape(n.prev, S - {n}, rest);
      assert forall i :: 0 < i < |s| ==> s[i] == rest[i - 1];
      assert forall i :: 0 < i <= |s| ==> At(s, i) == At(rest, i - 1);
    }
  }

  /** The invariant on links says exactly this: from head, `next` visits the nodes of the chain, each
      once, and then reaches NULL; from tail, `prev` visits them in the opposite order and then
      reaches NULL. */
  lemma ChainedIffWalks<T>(s: seq<Node<T>>, head: Node?<T>, tail: Node?<T>)
    ensures Chained(s) && head == At(s, 0) && tail == At(s, |s| - 1)
            <==> WalkNext(head, Elements(s)) == Some(s) && WalkPrev(tail, Elements(s)) == Some(Reverse(s))
  {
    hide Chained, WalkNext, WalkPrev, NoDuplicates, Reverse;
    if Chained(s) && head == At(s, 0) && tail == At(s, |s| - 1) {
      WalkNextSuffix(s, 0, Elements(s));
      WalkPrevPrefix(s, |s|, Elements(s));
      assert s[..|s|] == s && s[0..] == s;
    }
    if WalkNext(head, Elements(s)) == Some(s) && WalkPrev(tail, Elements(s)) == Some(Reverse(s)) {
      WalksImplyChained(s, head, tail);
    }
  }

  lemma WalksImplyChained<T>(s: seq<Node<T>>, head: Node?<T>, tail: Node?<T>)
    requires WalkNext(head, Elements(s)) == Some(s) && WalkPrev(tail, Elements(s)) == Some(Reverse(s))
    ensures Chained(s) && head == At(s, 0) && tail == At(s, |s| - 1)
  {
    hide WalkNext, WalkPrev, NoDuplicates;
    WalkNextShape(head, Elements(s), s);
    WalkPrevShape(tail, Elements(s), Reverse(s));
    var r := Reverse(s);
    forall i {:trigger s[i].prev} | 0 <= i < |s| ensures s[i].prev == At(s, i - 1) {
      var j := |s| - 1 - i;
      assert r[j] == s[i] && r[j].prev == At(r, j + 1);
      assert i > 0 ==> r[j + 1] == s[i - 1];
    }
  }

  /** In a valid list both walks visit `size` nodes and end at NULL. */
  lemma WalksAgree<T>(list: List<T>)
    requires list.Valid()
    ensures WalkNext(list.head, Elements(list.nodes)) == Some(list.nodes)
    ensures WalkPrev(list.tail, Elements(list.nodes)) == Some(Reverse(list.nodes))
    ensures |list.nodes| == list.size
  {
    hide Accounted, Chained, WalkNext, WalkPrev, Reverse;
    ChainedIffWalks(list.nodes, list.head, list.tail);
  }

  // ---- searches agree with one another

  /** By element or by reference, every search names the same place, the first match; and going from an
      index to its reference and back gives the clamped index. */
  method SearchesAgree<T>(list: List<T>, x: T, index: int)
    returns (byElement: int, byReference: int, back: int)
    requires list.Valid()
    ensures byElement == FirstMatch(list.compare, list.Contents(), x)
    ensures byReference == byElement
    ensures list.nodes != [] ==> back == Clamp(index, |list.nodes| - 1)
    ensures list.nodes == [] ==> back == -1
  {
    hide List.Valid, NoDuplicates, FirstMatch, PositionOf;
    byElement := list.GetIndexOfElement(x);
    var reference := list.GetReferenceOfElement(x);
    byReference := list.GetIndexOfReference(reference);
    list.MatchPosition(byElement);
    list.MatchPosition(byReference);
    var node := list.GetReferenceAtIndex(index);
    back := list.GetIndexOfReference(node);
    list.MatchPosition(back);
    if list.nodes != [] {
      list.MatchPosition(Clamp(index, |list.nodes| - 1));
    }
  }

  /** Going from any member to its index and back leads to that member. */
  method ReferenceRoundTrip<T>(list: List<T>, member: Node<T>) returns (home: Node?<T>)
    requires list.Valid() && member in list.nodes
    ensures home == member
  {
    hide Accounted, NoDuplicates, Payloads, Chained;
    var position := list.GetIndexOfReference(member);
    home := list.GetReferenceAtIndex(position);
  }

  /** One round of the loop below: if there is a match, it is removed. */
  method RemoveNext<T>(list: List<T>, x: T, freeElement: bool) returns (found: bool)
    requires list.Valid()
    modifies list, list.nodes
    ensures list.Valid() && found == (FirstMatch(list.compare, old(list.Contents()), x) >= 0)
    ensures list.Contents() == if found then RemoveMatch(list.compare, old(list.Contents()), x)
                               else old(list.Contents())
    ensures |list.freed| == |old(list.freed)| + (if found then 1 else 0) && list.linked == old(list.linked)
    ensures forall i :: 0 <= i < |list.nodes| ==> list.nodes[i] in old(list.nodes)
  {
    hide Accounted, NoDuplicates, Payloads, Chained, FirstMatch, RemoveMatch, RemoveAt;
    var index := list.GetIndexOfElement(x);
    found := index != -1;
    if found {
      RemoveAtIndices(list.nodes, index);
      var r := list.RemoveElement(x, freeElement);
    }
  }

  lemma TimesStep<T>(cmp: (T, T) -> int, s: seq<T>, x: T, n: nat)
    ensures RemoveMatchTimes(cmp, s, x, 0) == s
    ensures RemoveMatchTimes(cmp, s, x, n + 1) == RemoveMatch(cmp, RemoveMatchTimes(cmp, s, x, n), x)
  {
  }

  /** Calling dpl_remove_element(x) until nothing matches: it takes exactly as many removals as there are
      matches, and leaves exactly the other elements in their order. */
  method RemoveAllEqual<T>(list: List<T>, x: T, freeElement: bool) returns (removals: nat)
    requires list.Valid()
    modifies list, list.nodes
    ensures list.Valid()
    ensures removals == |SameClass(list.compare, x, old(list.Contents()))|
    ensures list.Contents() == OtherClasses(list.compare, x, old(list.Contents()))
    ensures |list.freed| == |old(list.freed)| + removals && list.linked == old(list.linked)
  {
    hide List.Valid, List.Contents, FirstMatch, RemoveMatch, RemoveMatchTimes, SameClass, OtherClasses;
    removals := 0;
    ghost var s := list.Contents();
    TimesStep(list.compare, s, x, 0);
    var found := true;
    while found
      invariant list.Valid() && removals <= |SameClass(list.compare, x, s)|
      invariant list.Contents() == RemoveMatchTimes(list.compare, s, x, removals)
      invariant !found ==> removals == |SameClass(list.compare, x, s)|
      invariant forall i :: 0 <= i < |list.nodes| ==> list.nodes[i] in old(list.nodes)
      invariant |list.freed| == |old(list.freed)| + removals && list.linked == old(list.linked)
      decreases |SameClass(list.compare, x, s)| - removals, found
    {
      RemoveAllMatches(list.compare, s, x, removals);
      TimesStep(list.compare, s, x, removals);
      found := RemoveNext(list, x, freeElement);
      removals := removals + if found then 1 else 0;
    }
    RemoveAllMatches(list.compare, s, x, removals);
  }

  /** Sorting and then looking `x` up tells how many elements of the unsorted list were smaller. */
  method SortThenFind<T>(list: List<T>, x: T, ghost U: set<T>) returns (index: int)
    requires list.Valid() && list.nodes != []
    requires Preorder(list.compare, U) && Within(list.Contents(), U) && x in U
    modifies list.nodes`element
    ensures list.Valid()
    ensures index == if FirstMatch(list.compare, old(list.Contents()), x) >= 0
                     then Below(list.compare, x, old(list.Contents())) else -1
  {
    hide Preorder, Accounted, NoDuplicates, Chained, StableSort, FirstMatch, Below;
    SortedLookupIsRank(list.compare, U, list.Contents(), x);
    var r; ghost var passes, comparisons, swaps;
    r, passes, comparisons, swaps := list.Sort(U);
    index := list.GetIndexOfElement(x);
  }

  /** dpl_insert_sorted on a sorted list leaves it sorted exactly when it was empty or held an equal element. */
  method InsertSortedOnList<T>(list: List<T>, e: T, ghost U: set<T>)
    requires list.Valid() && Preorder(list.compare, U) && Within(list.Contents(), U) && e in U
    requires Sorted(list.compare, list.Contents())
    modifies list, list.nodes
    ensures list.Valid() && |list.Contents()| == |old(list.Contents())| + 1
    ensures Sorted(list.compare, list.Contents())
            <==> old(list.Contents()) == [] || FirstMatch(list.compare, old(list.Contents()), e) >= 0
  {
    hide List.Valid, Preorder, Within, Sorted, FirstMatch, SortedPlace;
    ghost var s := list.Contents();
    InsertSortedSortedIff(list.compare, U, s, e);
    ghost var n := list.InsertSorted(e, false, e);
    assert list.Contents() == InsertSortedSeq(list.compare, s, e);
  }

  lemma MultisetAppend<T>(es: seq<T>, i: nat)
    requires i < |es|
    ensures multiset(es[..i + 1]) == multiset(es[..i]) + multiset{es[i]}
  {
    assert es[..i + 1] == es[..i] + [es[i]];
  }

  lemma WithinEach<T>(es: seq<T>, U: set<T>)
    requires Within(es, U)
    ensures forall i :: 0 <= i < |es| ==> es[i] in U
  {
  }

  method InsertAllSorted<T>(list: List<T>, es: seq<T>, ghost U: set<T>)
    requires list.Valid() && Within(list.Contents(), U) && Within(es, U)
    modifies list, list.nodes
    ensures list.Valid() && Within(list.Contents(), U)
    ensures multiset(list.Contents()) == multiset(old(list.Contents())) + multiset(es)
    ensures |list.nodes| == |old(list.nodes)| + |es|
    ensures forall j :: 0 <= j < |list.nodes| ==> list.nodes[j] in old(list.nodes) || fresh(list.nodes[j])
  {
    hide List.Valid, List.Contents, SortedPlace, InsertAt, AllBelow, IsFirstNotBelow, Within;
    assert forall i :: 0 <= i < |es| ==> es[i] in U by { WithinEach(es, U); }
    ghost var s := list.Contents();
    for i := 0 to |es|
      invariant list.Valid() && Within(list.Contents(), U)
      invariant multiset(list.Contents()) == multiset(s) + multiset(es[..i])
      invariant |list.nodes| == |old(list.nodes)| + i
      invariant forall j :: 0 <= j < |list.nodes| ==> list.nodes[j] in old(list.nodes) || fresh(list.nodes[j])
    {
      ghost var t, before := list.Contents(), list.nodes;
      ghost var c := SortedPlace(list.compare, t, es[i]);
      InsertAtWithin(U, t, c, es[i]);
      InsertAtMultiset(t, c, es[i]);
      ghost var n := list.InsertSorted(es[i], false, es[i]);
      InsertAtIndices(before, c, n);
      MultisetAppend(es, i);
    }
    assert es[..|es|] == es;
  }

  /** A sort after any number of such insertions leaves exactly the old and the new elements, sorted. */
  method InsertSortedThenSorted<T>(list: List<T>, es: seq<T>, ghost U: set<T>)
    requires list.Valid() && Preorder(list.compare, U) && Within(list.Contents(), U) && Within(es, U)
    requires list.nodes != [] || es != []
    modifies list, list.nodes
    ensures list.Valid() && Sorted(list.compare, list.Contents())
    ensures multiset(list.Contents()) == multiset(old(list.Contents())) + multiset(es)
  {
    hide List.Valid, List.Contents, Within, Preorder, Sorted, StableSort, Inversions, StableRearrangement;
    InsertAllSorted(list, es, U);
    ghost var t := list.Contents();
    StableSortCorrect(list.compare, U, t);
    StableSortMultiset(list.compare, t);
    var r; ghost var passes, comparisons, swaps;
    r, passes, comparisons, swaps := list.Sort(U);
  }

  // ---- operations that cancel

  /** The chain fixes every link: same nodes in the same order, same prev and next. */
  twostate lemma SameChainSameLinks<T>(s: seq<Node<T>>)
    requires old(Chained(s)) && Chained(s)
    ensures forall n :: n in s ==> n.prev == old(n.prev) && n.next == old(n.next)
  {
    forall n | n in s ensures n.prev == old(n.prev) && n.next == old(n.next) {
      var i :| 0 <= i < |s| && s[i] == n;
      assert s[i].next == At(s, i + 1) && s[i].prev == At(s, i - 1);
      assert old(s[i].next) == At(s, i + 1) && old(s[i].prev) == At(s, i - 1);
    }
  }

  twostate lemma SamePayloadsSameElements<T>(s: seq<Node<T>>)
    requires old(Payloads(s)) == Payloads(s)
    ensures forall n :: n in s ==> n.element == old(n.element)
  {
    forall n | n in s ensures n.element == old(n.element) {
      var i :| 0 <= i < |s| && s[i] == n;
      assert Payloads(s)[i] == n.element && old(Payloads(s))[i] == old(n.element);
    }
  }

  /** The node that an insertion after `reference`, or in front, has just linked. */
  method Inserted<T>(list: List<T>, reference: Node?<T>, ghost before: seq<Node<T>>, ghost n: Node<T>)
    returns (inserted: Node?<T>)
    requires list.Valid() && (reference != null ==> reference in before)
    requires list.nodes == InsertAt(before, After(reference, before), n)
    ensures inserted == n && n in list.nodes && PositionOf(n, list.nodes) == After(reference, before)
  {
    hide Accounted, NoDuplicates, InsertAt;
    ghost var c := After(reference, before);
    InsertAtPositions(before, c, n);
    list.MatchPosition(c);
    inserted := if reference == null then list.head else reference.next;
  }

  /** Inserting after a reference (or in front) and removing the new node restores nodes and contents. */
  method InsertThenRemoveNodes<T>(list: List<T>, e: T, reference: Node?<T>)
    requires list.Valid() && (reference != null ==> reference in list.nodes)
    modifies list, list.nodes
    ensures list.Valid() && list.nodes == old(list.nodes) && list.Contents() == old(list.Contents())
  {
    hide List.Valid, List.Contents, InsertAt, RemoveAt;
    ghost var before, contents := list.nodes, list.Contents();
    list.SameLength();
    ghost var c := After(reference, before);
    ghost var n := list.InsertAtReference(e, reference, false, e);
    InsertAtIndices(before, c, n);
    var inserted := Inserted(list, reference, before, n);
    InsertThenRemove(before, c, n);
    InsertThenRemove(contents, c, e);
    var r := list.RemoveAtReference(inserted, false);
  }

  /** Inserting after a reference (or in front) and removing the new node restores every pointer. */
  method InsertThenRemoveRestores<T>(list: List<T>, e: T, reference: Node?<T>)
    requires list.Valid() && (reference != null ==> reference in list.nodes)
    modifies list, list.nodes
    ensures list.Valid() && list.nodes == old(list.nodes) && list.Contents() == old(list.Contents())
    ensures list.head == old(list.head) && list.tail == old(list.tail) && list.size == old(list.size)
    ensures forall n :: n in list.nodes ==>
              n.prev == old(n.prev) && n.next == old(n.next) && n.element == old(n.element)
  {
    hide Chained, Accounted, Payloads;
    InsertThenRemoveNodes(list, e, reference);
    SameChainSameLinks(list.nodes);
    SamePayloadsSameElements(list.nodes);
  }

  lemma InsertAtPositions<T>(s: seq<Node<T>>, c: nat, n: Node<T>)
    requires c <= |s|
    ensures |InsertAt(s, c, n)| == |s| + 1 && InsertAt(s, c, n)[c] == n
    ensures c > 0 ==> InsertAt(s, c, n)[c - 1] == s[c - 1]
  {
  }

  /** Removing a node and re-inserting its element after its old predecessor restores the elements. */
  method RemoveThenReinsertRestores<T>(list: List<T>, reference: Node<T>)
    requires list.Valid() && reference in list.nodes
    modifies list, list.nodes
    ensures list.Valid() && list.Contents() == old(list.Contents())
    ensures list.freed == old(list.freed) + [reference]
  {
    hide List.Valid, NoDuplicates, InsertAt, RemoveAt, PositionOf;
    ghost var before, contents := list.nodes, list.Contents();
    ghost var c: int := PositionOf(reference, before);
    list.Around(c);
    var e, predecessor := reference.element, reference.prev;
    var r := list.RemoveAtReference(reference, false);
    RemoveAtPositions(before, c);
    RemoveThenInsert(contents, c);
    list.MatchPosition(c - 1);
    assert forall i :: 0 <= i < |list.nodes| ==> list.nodes[i] in before;
    ghost var n := list.InsertAtReference(e, predecessor, false, e);
  }

  lemma RemoveAtPositions<T>(s: seq<Node<T>>, c: nat)
    requires c < |s|
    ensures |RemoveAt(s, c)| == |s| - 1
    ensures c > 0 ==> RemoveAt(s, c)[c - 1] == s[c - 1]
    ensures forall i :: 0 <= i < |s| - 1 ==> RemoveAt(s, c)[i] in s
  {
  }

  // ---- arbitrary histories

  /** Where an insertion goes: to an index, after the node at a position (in front when there is none), or
      where dpl_insert_sorted puts it. */
  datatype Where = ByIndex(index: int) | ByReference(position: int) | ByOrder

  /** What a removal names: an index, the node at a position (NULL when there is none), or an element. */
  datatype Which<T> = ThatIndex(index: int) | ThatNode(position: int) | EqualTo(e: T)

  /** `copy` is what element_copy returns if insert_copy is set; `free` is free_element. */
  datatype Op<T> =
    | Insert(e: T, at: Where, copy: Option<T>)
    | Remove(which: Which<T>, free: bool)
    | SortAll

  /** The elements that a call hands over to the list. */
  function Stored<T>(op: Op<T>): seq<T> {
    if op.Insert? then [if op.copy.Some? then op.copy.value else op.e] else []
  }

  function Place<T>(cmp: (T, T) -> int, s: seq<T>, e: T, at: Where): (c: nat)
    ensures c <= |s|
  {
    match at
    case ByIndex(index) => Clamp(index, |s|)
    case ByReference(position) => if 0 <= position < |s| then position + 1 else 0
    case ByOrder => SortedPlace(cmp, s, e)
  }

  /** The position that a removal empties, if any. */
  function Spot<T>(cmp: (T, T) -> int, s: seq<T>, which: Which<T>): (r: Option<nat>)
    ensures r.Some? ==> r.value < |s|
  {
    match which
    case ThatIndex(index) => if s == [] then None else Some(Clamp(index, |s| - 1))
    case ThatNode(position) => if 0 <= position < |s| then Some(position) else None
    case EqualTo(e) => if FirstMatch(cmp, s, e) >= 0 then Some(FirstMatch(cmp, s, e)) else None
  }

  /** The calls that stop at a NULL dereference. */
  predicate Stops<T>(s: seq<T>, op: Op<T>) {
    match op
    case Insert(_, _, _) => false
    case Remove(which, _) => which.ThatIndex? && 0 < which.index == |s| - 1
    case SortAll => s == []
  }

  /** One call on the sequence; None when the source stops. */
  function Apply<T>(cmp: (T, T) -> int, s: seq<T>, op: Op<T>): Option<seq<T>> {
    if Stops(s, op) then None
    else match op
      case Insert(e, at, _) => Some(InsertAt(s, Place(cmp, s, e, at), Stored(op)[0]))
      case Remove(which, _) =>
        var c := Spot(cmp, s, which);
        Some(if c.Some? then RemoveAt(s, c.value) else s)
      case SortAll => Some(StableSort(cmp, s))
  }

  /** The elements that leave the list in a call. */
  function Taken<T>(cmp: (T, T) -> int, s: seq<T>, op: Op<T>): seq<T> {
    if op.Remove? && Spot(cmp, s, op.which).Some? then [s[Spot(cmp, s, op.which).value]] else []
  }

  /** The elements for which a call runs element_free. */
  function Released<T>(cmp: (T, T) -> int, s: seq<T>, op: Op<T>): seq<T> {
    if op.Remove? && op.free then Taken(cmp, s, op) else []
  }

  function ApplyAll<T>(cmp: (T, T) -> int, s: seq<T>, ops: seq<Op<T>>): Option<seq<T>>
    decreases |ops|
  {
    if ops == [] then Some(s)
    else match Apply(cmp, s, ops[0])
      case None => None
      case Some(t) => ApplyAll(cmp, t, ops[1..])
  }

  function StoredAll<T>(ops: seq<Op<T>>): seq<T> {
    if ops == [] then [] else Stored(ops[0]) + StoredAll(ops[1..])
  }

  function TakenAll<T>(cmp: (T, T) -> int, s: seq<T>, ops: seq<Op<T>>): seq<T>
    decreases |ops|
  {
    if ops == [] || Apply(cmp, s, ops[0]).None? then []
    else Taken(cmp, s, ops[0]) + TakenAll(cmp, Apply(cmp, s, ops[0]).value, ops[1..])
  }

  function ReleasedAll<T>(cmp: (T, T) -> int, s: seq<T>, ops: seq<Op<T>>): seq<T>
    decreases |ops|
  {
    if ops == [] || Apply(cmp, s, ops[0]).None? then []
    else Released(cmp, s, ops[0]) + ReleasedAll(cmp, Apply(cmp, s, ops[0]).value, ops[1..])
  }

  /** How a history splits into its first call and the rest. */
  lemma FirstThenRest<T>(cmp: (T, T) -> int, s: seq<T>, ops: seq<Op<T>>)
    ensures ops == [] ==>
              && ApplyAll(cmp, s, ops) == Some(s)
              && StoredAll(ops) == TakenAll(cmp, s, ops) == ReleasedAll(cmp, s, ops) == []
    ensures ops != [] && Apply(cmp, s, ops[0]).None? ==> ApplyAll(cmp, s, ops) == None
    ensures ops != [] && Apply(cmp, s, ops[0]).Some? ==>
              var t, rest := Apply(cmp, s, ops[0]).value, ops[1..];
              && ApplyAll(cmp, s, ops) == ApplyAll(cmp, t, rest)
              && StoredAll(ops) == Stored(ops[0]) + StoredAll(rest)
              && TakenAll(cmp, s, ops) == Taken(cmp, s, ops[0]) + TakenAll(cmp, t, rest)
              && ReleasedAll(cmp, s, ops) == Released(cmp, s, ops[0]) + ReleasedAll(cmp, t, rest)
  {
    hide Apply, Stored, Taken, Released;
  }

  lemma NothingLostByOne<T>(cmp: (T, T) -> int, s: seq<T>, op: Op<T>)
    requires Apply(cmp, s, op).Some?
    ensures multiset(s) + multiset(Stored(op)) == multiset(Apply(cmp, s, op).value) + multiset(Taken(cmp, s, op))
  {
    match op
    case Insert(e, at, _) => InsertAtMultiset(s, Place(cmp, s, e, at), Stored(op)[0]);
    case Remove(which, _) =>
      if Spot(cmp, s, which).Some? {
        RemoveAtMultiset(s, Spot(cmp, s, which).value);
      }
    case SortAll => StableSortMultiset(cmp, s);
  }

  /** Over any history, what was in the list and what was put into it is, with multiplicity, what left it
      and what is in it. */
  lemma {:induction false} NothingLost<T>(cmp: (T, T) -> int, s: seq<T>, ops: seq<Op<T>>)
    requires ApplyAll(cmp, s, ops).Some?
    ensures multiset(s) + multiset(StoredAll(ops))
            == multiset(ApplyAll(cmp, s, ops).value) + multiset(TakenAll(cmp, s, ops))
    decreases |ops|
  {
    hide Apply, Taken, Stored;
    if ops == [] {
      assert TakenAll(cmp, s, ops) == [] && StoredAll(ops) == [];
    } else {
      var t := Apply(cmp, s, ops[0]).value;
      NothingLostByOne(cmp, s, ops[0]);
      NothingLost(cmp, t, ops[1..]);
      MergeMultisets(multiset(s), multiset(Stored(ops[0])), multiset(StoredAll(ops[1..])), multiset(t),
                     multiset(Taken(cmp, s, ops[0])), multiset(ApplyAll(cmp, s, ops).value),
                     multiset(TakenAll(cmp, t, ops[1..])));
    }
  }

  lemma MergeMultisets<T>(s: multiset<T>, a: multiset<T>, b: multiset<T>, t: multiset<T>, c: multiset<T>,
                          u: multiset<T>, d: multiset<T>)
    requires s + a == t + c && t + b == u + d
    ensures s + (a + b) == u + (c + d)
  {
    assert s + (a + b) == (t + c) + b == (t + b) + c;
  }

  predicate FreesElements<T>(ops: seq<Op<T>>) {
    forall i :: 0 <= i < |ops| ==> ops[i].Remove? ==> ops[i].free
  }

  lemma {:induction false} AllReleased<T>(cmp: (T, T) -> int, s: seq<T>, ops: seq<Op<T>>)
    requires FreesElements(ops)
    ensures ReleasedAll(cmp, s, ops) == TakenAll(cmp, s, ops)
    decreases |ops|
  {
    hide Apply, Spot;
    if ops != [] && Apply(cmp, s, ops[0]).Some? {
      assert forall i :: 0 <= i < |ops[1..]| ==> ops[1..][i] == ops[i + 1];
      AllReleased(cmp, Apply(cmp, s, ops[0]).value, ops[1..]);
    }
  }

  /** If every removal frees its element and the remaining ones are freed at the end, each element handed to a
      new list is freed exactly as often as it was handed over. */
  lemma EveryElementFreed<T>(cmp: (T, T) -> int, ops: seq<Op<T>>)
    requires ApplyAll(cmp, [], ops).Some? && FreesElements(ops)
    ensures multiset(ReleasedAll(cmp, [], ops) + ApplyAll(cmp, [], ops).value) == multiset(StoredAll(ops))
  {
    hide ApplyAll, ReleasedAll, TakenAll, StoredAll;
    NothingLost(cmp, [], ops);
    AllReleased(cmp, [], ops);
    var taken, left := TakenAll(cmp, [], ops), ApplyAll(cmp, [], ops).value;
    assert multiset(taken + left) == multiset(left) + multiset(taken);
  }

  /** Two insertions at the end, then a removal at the last index: the source stops at a NULL dereference. */
  lemma RemoveLastIndexStops<T>(cmp: (T, T) -> int, x: T, y: T, free: bool)
    ensures ApplyAll(cmp, [], [Insert(x, ByIndex(0), None), Insert(y, ByIndex(1), None), Remove(ThatIndex(1), free)])
            == None
  {
    var ops := [Insert(x, ByIndex(0), None), Insert(y, ByIndex(1), None), Remove(ThatIndex(1), free)];
    assert ops[1..] == [ops[1], ops[2]] && ops[1..][1..] == [ops[2]];
    assert InsertAt([], 0, x) == [x] && InsertAt([x], 1, y) == [x, y];
    assert Apply(cmp, [], ops[0]) == Some([x]);
    assert Apply(cmp, [x], ops[1]) == Some([x, y]);
    assert ApplyAll(cmp, [x, y], ops[1..][1..]) == None;
    assert ApplyAll(cmp, [x], ops[1..]) == None;
  }

  /** What a history asks of the comparison: nothing, unless it sorts; then a total preorder on all the
      elements involved. */
  ghost predicate Fit<T>(cmp: (T, T) -> int, s: seq<T>, ops: seq<Op<T>>, U: set<T>) {
    (exists i :: 0 <= i < |ops| && ops[i].SortAll?) ==>
      && Preorder(cmp, U) && Within(s, U)
      && forall i :: 0 <= i < |ops| ==> Within(Stored(ops[i]), U)
  }

  lemma ApplyWithin<T>(cmp: (T, T) -> int, U: set<T>, s: seq<T>, op: Op<T>)
    requires Within(s, U) && Within(Stored(op), U) && Apply(cmp, s, op).Some?
    ensures Within(Apply(cmp, s, op).value, U)
  {
    match op
    case Insert(e, at, _) => InsertAtWithin(U, s, Place(cmp, s, e, at), Stored(op)[0]);
    case Remove(_, _) =>
    case SortAll => StableSortWithin(cmp, U, s);
  }

  lemma FitFirst<T>(cmp: (T, T) -> int, s: seq<T>, ops: seq<Op<T>>, U: set<T>)
    requires Fit(cmp, s, ops, U) && ops != []
    ensures ops[0].SortAll? ==> Preorder(cmp, U) && Within(s, U)
  {
  }

  lemma FitRest<T>(cmp: (T, T) -> int, s: seq<T>, ops: seq<Op<T>>, U: set<T>)
    requires Fit(cmp, s, ops, U) && ops != [] && Apply(cmp, s, ops[0]).Some?
    ensures Fit(cmp, Apply(cmp, s, ops[0]).value, ops[1..], U)
  {
    hide Preorder, Stored, Apply, Within;
    if i :| 0 <= i < |ops[1..]| && ops[1..][i].SortAll? {
      assert ops[i + 1].SortAll?;
      ApplyWithin(cmp, U, s, ops[0]);
    }
  }

  /** Only fresh nodes joined the chain, one for each of `insertions` elements, and nodes are only ever
      added to the log of freed ones, each chain or log entry being one node. */
  twostate predicate NodesCounted<T>(list: List<T>, insertions: nat)
    reads list
  {
    && |list.nodes| + |list.freed| == |old(list.nodes)| + |old(list.freed)| + insertions
    && old(list.freed) <= list.freed && old(list.linked) <= list.linked
    && forall i :: 0 <= i < |list.nodes| ==> list.nodes[i] in old(list.nodes) || fresh(list.nodes[i])
  }

  /** The call followed the sequence model, freed the elements it had to and accounted for its nodes. */
  twostate predicate Follows<T>(list: List<T>, op: Op<T>, crashed: bool)
    reads list, list.nodes
  {
    && (crashed <==> Apply(list.compare, old(list.Contents()), op).None?)
    && (!crashed ==>
          && list.Valid()
          && Apply(list.compare, old(list.Contents()), op).value == list.Contents()
          && list.freedElements == old(list.freedElements) + Released(list.compare, old(list.Contents()), op)
          && NodesCounted(list, |Stored(op)|))
  }

  method PerformInsertion<T>(list: List<T>, e: T, at: Where, copy: Option<T>)
    requires list.Valid()
    modifies list, list.nodes
    ensures Follows(list, Insert(e, at, copy), false)
  {
    hide List.Valid, NoDuplicates, SortedPlace, InsertAt, After, PositionOf;
    ghost var s, before := list.Contents(), list.nodes;
    ghost var n;
    var copied := if copy.Some? then copy.value else e;
    match at {
      case ByIndex(index) => n := list.InsertAtIndex(e, index, copy.Some?, copied);
      case ByReference(position) =>
        var reference := NodeAt(list, position);
        AfterPosition(before, reference, position);
        n := list.InsertAtReference(e, reference, copy.Some?, copied);
      case ByOrder => n := list.InsertSorted(e, copy.Some?, copied);
    }
    InsertAtIndices(before, Place(list.compare, s, e, at), n);
  }

  lemma AfterPosition<T>(s: seq<Node<T>>, reference: Node?<T>, position: int)
    requires reference == At(s, position) && (reference != null ==> PositionOf(reference, s) == position)
    ensures reference != null ==> reference in s
    ensures After(reference, s) == if 0 <= position < |s| then position + 1 else 0
  {
  }

  method PerformRemoval<T>(list: List<T>, which: Which<T>, free: bool) returns (crashed: bool)
    requires list.Valid()
    modifies list, list.nodes
    ensures Follows(list, Remove(which, free), crashed)
  {
    hide List.Valid, NoDuplicates, FirstMatch, RemoveAt, PositionOf;
    crashed := false;
    ghost var s, before := list.Contents(), list.nodes;
    match which {
      case ThatIndex(index) =>
        var r := list.RemoveAtIndex(index, free);
        crashed := r == NullDereference;
      case ThatNode(position) =>
        var reference := NodeAt(list, position);
        var r := list.RemoveAtReference(reference, free);
      case EqualTo(e) =>
        var r := list.RemoveElement(e, free);
    }
    if Spot(list.compare, s, which).Some? {
      RemoveAtIndices(before, Spot(list.compare, s, which).value);
    }
  }

  /** One call on the real list does to its contents what Apply does to the sequence. */
  method Perform<T>(list: List<T>, op: Op<T>, ghost U: set<T>) returns (crashed: bool)
    requires list.Valid() && (op.SortAll? ==> Preorder(list.compare, U) && Within(list.Contents(), U))
    modifies list, list.nodes
    ensures Follows(list, op, crashed)
  {
    hide Preorder, Accounted, NoDuplicates, StableSort, Chained, Payloads, Within;
    if op.SortAll? {
      var r; ghost var passes, comparisons, swaps;
      r, passes, comparisons, swaps := list.Sort(U);
      crashed := r == NullDereference;
    } else if op.Remove? {
      crashed := PerformRemoval(list, op.which, op.free);
    } else {
      PerformInsertion(list, op.e, op.at, op.copy);
      crashed := false;
    }
  }

  lemma InsertAtIndices<T>(s: seq<Node<T>>, c: nat, n: Node<T>)
    requires c <= |s|
    ensures |InsertAt(s, c, n)| == |s| + 1
    ensures forall i :: 0 <= i < |InsertAt(s, c, n)| ==> InsertAt(s, c, n)[i] in s || InsertAt(s, c, n)[i] == n
  {
  }

  lemma RemoveAtIndices<T>(s: seq<Node<T>>, c: nat)
    requires c < |s|
    ensures |RemoveAt(s, c)| == |s| - 1
    ensures forall i :: 0 <= i < |RemoveAt(s, c)| ==> RemoveAt(s, c)[i] in s
  {
  }

  /** The reference at a position, as a caller obtains it; NULL outside the list. */
  method NodeAt<T>(list: List<T>, position: int) returns (r: Node?<T>)
    requires list.Valid()
    ensures r == At(list.nodes, position)
    ensures r != null ==> PositionOf(r, list.nodes) == position
    ensures r == null ==> !(0 <= position < |list.nodes|)
  {
    list.MatchPosition(position);
    if position < 0 || position >= list.size {
      return null;
    }
    r := list.GetReferenceAtIndex(position);
  }

  /** Every history: the list stays valid and equal to the sequence model until the history ends or hits
      one of the two NULL dereferences, which happens exactly when the model says so; the nodes and
      the elements freed on the way are exactly those the calls had to free. */
  method PerformAll<T>(list: List<T>, ops: seq<Op<T>>, ghost U: set<T>) returns (crashed: bool)
    requires list.Valid() && Fit(list.compare, list.Contents(), ops, U)
    modifies list, list.nodes
    ensures crashed <==> ApplyAll(list.compare, old(list.Contents()), ops).None?
    ensures !crashed ==> list.Valid() && ApplyAll(list.compare, old(list.Contents()), ops).value == list.Contents()
    ensures !crashed ==> NodesCounted(list, |StoredAll(ops)|)
    ensures !crashed ==> list.freedElements
                         == old(list.freedElements) + ReleasedAll(list.compare, old(list.Contents()), ops)
    decreases |ops|
  {
    hide Apply, ApplyAll, StoredAll, ReleasedAll, Stored, Released, Fit, List.Valid, List.Contents;
    crashed := false;
    ghost var s := list.Contents();
    FirstThenRest(list.compare, s, ops);
    if ops != [] {
      FitFirst(list.compare, s, ops, U);
      crashed := Perform(list, ops[0], U);
      if !crashed {
        FitRest(list.compare, s, ops, U);
        crashed := PerformAll(list, ops[1..], U);
      }
    }
  }

  /** A history on a new list that ends with dpl_free. As many nodes were freed as insertions were made,
      no node twice. The elements freed are those of the removals that asked for it, in order, then,
      if dpl_free asks for it, the remaining ones; and if every call asks for it, each element
      handed to the list has been freed exactly as often as it was handed over. */
  method HistoryThenFree<T>(ops: seq<Op<T>>, compare: (T, T) -> int, freeElement: bool, ghost U: set<T>)
    returns (crashed: bool, list: List<T>)
    requires Fit(compare, [], ops, U)
    ensures crashed <==> ApplyAll(compare, [], ops).None?
    ensures !crashed ==> NoDuplicates(list.freed) && Elements(list.freed) == list.linked
    ensures !crashed ==> |list.freed| == |StoredAll(ops)|
    ensures !crashed ==> list.freedElements == ReleasedAll(compare, [], ops)
                                               + (if freeElement then ApplyAll(compare, [], ops).value else [])
    ensures !crashed && freeElement && FreesElements(ops) ==>
              multiset(list.freedElements) == multiset(StoredAll(ops))
  {
    hide Fit, ApplyAll, ReleasedAll, StoredAll, TakenAll, FreesElements, Accounted, NoDuplicates, Chained, Payloads;
    list := new List<T>(compare);
    assert list.Contents() == [];
    crashed := PerformAll(list, ops, U);
    if !crashed {
      assert [] + ReleasedAll(compare, [], ops) == ReleasedAll(compare, [], ops);
      list.Free(freeElement);
      if FreesElements(ops) {
        EveryElementFreed(compare, ops);
      }
    }
  }

  // ---- copies

  /** A call made while a list and its copy are both in use. */
  datatype Call<T> = OnCopy(op: Op<T>) | OnList(op: Op<T>)

  /** The calls made on the copy, or those made on the original, in order. */
  function CallsOn<T>(calls: seq<Call<T>>, copy: bool): seq<Op<T>> {
    if calls == [] then []
    else (if calls[0].OnCopy? == copy then [calls[0].op] else []) + CallsOn(calls[1..], copy)
  }

  lemma CallsOnCons<T>(calls: seq<Call<T>>)
    requires calls != []
    ensures var c := calls[0].OnCopy?;
            && CallsOn(calls, c) != [] && CallsOn(calls, c)[0] == calls[0].op
            && CallsOn(calls, c)[1..] == CallsOn(calls[1..], c)
            && CallsOn(calls, !c) == CallsOn(calls[1..], !c)
  {
  }

  ghost predicate Apart<T>(a: List<T>, b: List<T>)
    reads a, b
  {
    && a != b
    && (forall i :: 0 <= i < |a.nodes| ==> a.nodes[i] !in b.nodes)
    && forall i :: 0 <= i < |b.nodes| ==> b.nodes[i] !in a.nodes
  }

  /** The first of `ops`, performed on one of two lists, leaves the other as it is. */
  method PerformBeside<T>(target: List<T>, other: List<T>, op: Op<T>, ghost ops: seq<Op<T>>, ghost U: set<T>)
    returns (crashed: bool)
    requires target.Valid() && other.Valid() && Apart(target, other)
    requires ops != [] && ops[0] == op && Fit(target.compare, target.Contents(), ops, U)
    modifies target, target.nodes
    ensures crashed <==> Apply(target.compare, old(target.Contents()), op).None?
    ensures !crashed ==>
              && target.Valid() && Apply(target.compare, old(target.Contents()), op) == Some(target.Contents())
              && Fit(target.compare, target.Contents(), ops[1..], U)
    ensures !crashed ==> forall i :: 0 <= i < |target.nodes| ==>
              target.nodes[i] in old(target.nodes) || fresh(target.nodes[i])
    ensures other.Valid() && other.Contents() == old(other.Contents()) && other.nodes == old(other.nodes)
  {
    hide Preorder, Apply, Accounted, NoDuplicates, Chained, Stored, Released, Fit;
    ghost var s := target.Contents();
    FitFirst(target.compare, s, ops, U);
    crashed := Perform(target, op, U);
    assert other.nodes == old(other.nodes);
    assert other.Contents() == old(other.Contents());
    if !crashed {
      FitRest(target.compare, s, ops, U);
    }
  }

  /** Calls on two lists without common nodes, in any order: each list follows its own calls. */
  method PerformBoth<T>(list: List<T>, copy: List<T>, calls: seq<Call<T>>, ghost U: set<T>) returns (crashed: bool)
    requires list.Valid() && copy.Valid() && Apart(list, copy)
    requires Fit(copy.compare, copy.Contents(), CallsOn(calls, true), U)
    requires Fit(list.compare, list.Contents(), CallsOn(calls, false), U)
    modifies list, list.nodes, copy, copy.nodes
    ensures crashed <==> || ApplyAll(copy.compare, old(copy.Contents()), CallsOn(calls, true)).None?
                         || ApplyAll(list.compare, old(list.Contents()), CallsOn(calls, false)).None?
    ensures !crashed ==>
              && list.Valid() && copy.Valid()
              && ApplyAll(copy.compare, old(copy.Contents()), CallsOn(calls, true)) == Some(copy.Contents())
              && ApplyAll(list.compare, old(list.Contents()), CallsOn(calls, false)) == Some(list.Contents())
    decreases |calls|
  {
    hide Preorder, Apply, Accounted, NoDuplicates, Chained, Payloads, Stored, Released, Fit, CallsOn;
    crashed := false;
    if calls == [] {
      NoCalls<T>();
      return;
    }
    CallsOnCons(calls);
    if calls[0].OnCopy? {
      crashed := PerformBeside(copy, list, calls[0].op, CallsOn(calls, true), U);
    } else {
      crashed := PerformBeside(list, copy, calls[0].op, CallsOn(calls, false), U);
    }
    if !crashed {
      crashed := PerformBoth(list, copy, calls[1..], U);
    }
  }

  lemma NoCalls<T>()
    ensures CallsOn<T>([], true) == [] && CallsOn<T>([], false) == []
  {
  }

  /** Whatever calls follow on a copy and on the original, in whatever order, each keeps its own history. */
  method CopyThenDiverge<T>(list: List<T>, copies: seq<T>, calls: seq<Call<T>>, ghost U: set<T>)
    returns (copy: List<T>, crashed: bool)
    requires list.Valid() && |copies| == list.size
    requires Fit(list.compare, copies, CallsOn(calls, true), U)
    requires Fit(list.compare, list.Contents(), CallsOn(calls, false), U)
    modifies list, list.nodes
    ensures crashed <==> || ApplyAll(list.compare, copies, CallsOn(calls, true)).None?
                         || ApplyAll(list.compare, old(list.Contents()), CallsOn(calls, false)).None?
    ensures !crashed ==>
              && list.Valid() && copy.Valid()
              && ApplyAll(list.compare, copies, CallsOn(calls, true)) == Some(copy.Contents())
              && ApplyAll(list.compare, old(list.Contents()), CallsOn(calls, false)) == Some(list.Contents())
  {
    hide Fit, ApplyAll, Accounted, NoDuplicates, Chained, Payloads, CallsOn;
    copy := list.Copy(copies);
    assert Apart(list, copy);
    crashed := PerformBoth(list, copy, calls, U);
  }
}
