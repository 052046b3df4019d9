/** lib/dplist.c: a doubly linked list of caller-owned elements, with every pointer updated in place. */
module DList {
  import opened Util
  import opened Ordering
  import opened ListLaws
  import opened BubblePass

  /** How a call ends: it hands the list back, hands NULL back, or stops at a NULL dereference. */
  datatype Outcome = ReturnsList | ReturnsNull | NullDereference

  class Node<T> {
    var element: T
    var prev: Node?<T>
    var next: Node?<T>

    constructor (element: T)
      ensures this.element == element && prev == null && next == null
    {
      this.element := element;
      prev, next := null, null;
    }
  }

  class List<T> {
    var head: Node?<T>
    var tail: Node?<T>
    var size: int
    const compare: (T, T) -> int

    /** The chain from head to tail. */
    ghost var nodes: seq<Node<T>>
    /** Every node that was ever linked into this list. */
    ghost var linked: set<Node<T>>
    /** The calls of free() on nodes and of element_free on elements, in order. */
    ghost var freed: seq<Node<T>>
    ghost var freedElements: seq<T>

    /** head, tail, prev and next agree with the chain; size is its length; every node ever linked
        is either still in the chain or was freed, and freed exactly once. */
    ghost predicate Valid()
      reads this, nodes
    {
      && size == |nodes|
      && head == At(nodes, 0) && tail == At(nodes, |nodes| - 1)
      && Chained(nodes)
      && Accounted(nodes, freed, linked)
    }

    ghost function Contents(): (s: seq<T>)
      reads this, nodes
      ensures |s| == |nodes|
      ensures forall i :: 0 <= i < |s| ==> s[i] == nodes[i].element
    {
      Payloads(nodes)
    }

    constructor (compare: (T, T) -> int)
      ensures Valid() && nodes == [] && linked == {} && freed == [] && freedElements == []
      ensures this.compare == compare
    {
      head, tail, size := null, null, 0;
      this.compare := compare;
      nodes, linked, freed, freedElements := [], {}, [], [];
    }

    /** Records that `n` has been wired in at position `c`. */
    ghost method NoteInsert(c: nat, n: Node<T>, before: seq<T>)
      requires Accounted(nodes, freed, linked) && n !in linked
      requires Spliced(nodes, c, n, before)
      requires size == |nodes| + 1
      requires head == (if c == 0 then n else At(nodes, 0))
      requires tail == (if c == |nodes| then n else At(nodes, |nodes| - 1))
      modifies `nodes, `linked
      ensures Valid() && nodes == InsertAt(old(nodes), c, n)
      ensures Contents() == InsertAt(before, c, n.element)
      ensures linked == old(linked) + {n}
    {
      ChainAfterInsert(nodes, c, n, before);
      AccountInsert(nodes, freed, linked, c, n);
      nodes := InsertAt(nodes, c, n);
      linked := linked + {n};
    }

    /** Records that `node`, until now at position `c`, has been unwired and freed, after a call of
        element_free on its element if `freeElement` is set. */
    ghost method NoteRemove(node: Node<T>, c: nat, before: seq<T>, freeElement: bool)
      requires Accounted(nodes, freed, linked) && Unspliced(nodes, c, before) && node == nodes[c]
      requires size == |nodes| - 1
      requires head == (if c == 0 then At(nodes, 1) else At(nodes, 0))
      requires tail == (if c == |nodes| - 1 then At(nodes, c - 1) else At(nodes, |nodes| - 1))
      modifies `nodes, `freed, `freedElements
      ensures Valid() && nodes == RemoveAt(old(nodes), c)
      ensures Contents() == RemoveAt(before, c)
      ensures freed == old(freed) + [node]
      ensures freedElements == old(freedElements) + (if freeElement then [before[c]] else [])
    {
      ChainAfterRemove(nodes, c, before);
      AccountRemove(nodes, freed, linked, c);
      freed := freed + [node];
      freedElements := freedElements + (if freeElement then [node.element] else []);
      nodes := RemoveAt(nodes, c);
    }

    // ---- insertion

    /** `node` is wired in at position `c`, and head and tail already account for it. */
    twostate predicate Wired(c: nat, new node: Node<T>)
      reads this, nodes, node
    {
      && nodes == old(nodes) && size == old(size)
      && Spliced(nodes, c, node, old(Contents()))
      && head == (if c == 0 then node else At(nodes, 0))
      && tail == (if c == |nodes| then node else At(nodes, |nodes| - 1))
    }

    /** Of all links in the chain, exactly `next` of position `p` and `prev` of position `q` were written. */
    twostate predicate Rewired(p: int, new x: Node?<T>, q: int, new y: Node?<T>)
      reads this, nodes
    {
      && nodes == old(nodes) && size == old(size)
      && (forall i {:trigger nodes[i].next} :: 0 <= i < |nodes| ==>
            nodes[i].next == if i == p then x else old(nodes[i].next))
      && (forall i {:trigger nodes[i].prev} :: 0 <= i < |nodes| ==>
            nodes[i].prev == if i == q then y else old(nodes[i].prev))
      && (forall i {:trigger nodes[i].element} :: 0 <= i < |nodes| ==> nodes[i].element == old(nodes[i].element))
    }

    twostate lemma WiredBy(c: nat, new node: Node<T>)
      requires old(Valid()) && node !in nodes && c <= |nodes|
      requires Rewired(c - 1, node, c, node)
      requires node.next == At(nodes, c) && node.prev == At(nodes, c - 1)
      requires head == (if c == 0 then node else At(nodes, 0))
      requires tail == (if c == |nodes| then node else At(nodes, |nodes| - 1))
      ensures Wired(c, node)
    {
      hide Accounted, NoDuplicates;
    }

    /** The node at position `c`: its links, and that it occurs nowhere else in the chain. */
    lemma Around(c: int)
      requires Valid()
      ensures 0 <= c < |nodes| ==>
                && nodes[c].next == At(nodes, c + 1) && nodes[c].prev == At(nodes, c - 1)
                && forall i :: 0 <= i < |nodes| && i != c ==> nodes[i] != nodes[c]
    {
      OthersDiffer(nodes, c);
    }

    /** The first branch of dpl_insert_at_index. */
    method LinkFirst(node: Node<T>)
      requires Valid() && node !in nodes
      modifies `head, `tail, nodes`prev, node`prev, node`next
      ensures Wired(0, node)
    {
      hide Chained, Accounted, NoDuplicates, Payloads, Spliced, Unspliced;
      Around(0);
      node.prev := null;
      node.next := head;
      if head != null {
        head.prev := node;
      } else {
        tail := node;
      }
      head := node;
      WiredBy(0, node);
    }

    /** The second branch of dpl_insert_at_index. */
    method LinkLast(node: Node<T>)
      requires Valid() && node !in nodes
      modifies `head, `tail, nodes`next, node`prev, node`next
      ensures Wired(|nodes|, node)
    {
      hide Chained, Accounted, NoDuplicates, Payloads, Spliced, Unspliced;
      Around(|nodes| - 1);
      node.prev := tail;
      node.next := null;
      if tail != null {
        tail.next := node;
      } else {
        head := node;
      }
      tail := node;
      WiredBy(|nodes|, node);
    }

    /** The loop that follows `next` from head to position `index`. */
    method Walk(index: nat) returns (r: Node<T>)
      requires Valid() && index < size
      ensures r == nodes[index]
    {
      hide Accounted, NoDuplicates;
      r := head;
      for i := 0 to index
        invariant r == nodes[i]
      {
        r := r.next;
      }
    }

    /** The third branch of dpl_insert_at_index. */
    method LinkInner(node: Node<T>, index: int)
      requires Valid() && node !in nodes && 0 < index < size
      modifies nodes`prev, nodes`next, node`prev, node`next
      ensures Wired(index, node)
    {
      hide Chained, Accounted, NoDuplicates, Payloads, Spliced, Unspliced;
      Around(index - 1);
      Around(index);
      var curr := Walk(index - 1);
      node.prev := curr;
      node.next := curr.next;
      curr.next.prev := node;
      curr.next := node;
      WiredBy(index, node);
    }

    /** `copied` is what the element_copy callback returns; it is used only when `insertCopy` is set. */
    method InsertAtIndex(element: T, index: int, insertCopy: bool, copied: T) returns (ghost n: Node<T>)
      requires Valid()
      modifies this, nodes
      ensures Valid() && fresh(n)
      ensures nodes == InsertAt(old(nodes), Clamp(index, |old(nodes)|), n)
      ensures Contents() == InsertAt(old(Contents()), Clamp(index, |old(nodes)|),
                                     if insertCopy then copied else element)
      ensures linked == old(linked) + {n} && freed == old(freed) && freedElements == old(freedElements)
      ensures index <= 0 ==> head == n && nodes == [n] + old(nodes)
      ensures index >= |old(nodes)| ==> tail == n && nodes == old(nodes) + [n]
      ensures 0 < index < |old(nodes)| ==> nodes[index] == n && nodes == old(nodes)[..index] + [n] + old(nodes)[index..]
      ensures n.element == if insertCopy then copied else element
    {
      hide Chained, Accounted, Payloads, Spliced, InsertAt;
      var node := new Node<T>(if insertCopy then copied else element);
      n := node;
      ghost var before := Contents();
      if index <= 0 {
        LinkFirst(node);
      } else if index >= size {
        LinkLast(node);
      } else {
        LinkInner(node, index);
      }
      size := size + 1;
      ghost var chain := nodes;
      NoteInsert(Clamp(index, |nodes|), n, before);
      InsertAtForms(chain, Clamp(index, |chain|), n);
    }

    /** The pointer updates of dpl_insert_at_reference, including the tail adjustment. */
    method LinkAfter(node: Node<T>, reference: Node?<T>)
      requires Valid() && node !in nodes
      requires reference != null ==> reference in nodes
      modifies `head, `tail, nodes`prev, nodes`next, node`prev, node`next
      ensures Wired(After(reference, nodes), node)
    {
      ghost var c: int := After(reference, nodes);
      hide Chained, Accounted, NoDuplicates, Payloads, Spliced, Unspliced, After;
      Around(c - 1);
      Around(c);
      if reference == null {
        node.prev := null;
        node.next := head;
        if head != null {
          head.prev := node;
        }
        head := node;
      } else {
        node.prev := reference;
        node.next := reference.next;
        if reference.next != null {
          reference.next.prev := node;
        }
        reference.next := node;
      }
      if node.next == null {
        tail := node;
      }
      WiredBy(c, node);
    }

    /** Inserts after `reference`, or in front when it is NULL. */
    method InsertAtReference(element: T, reference: Node?<T>, insertCopy: bool, copied: T)
      returns (ghost n: Node<T>)
      requires Valid()
      requires reference != null ==> reference in nodes
      modifies this, nodes
      ensures Valid() && fresh(n)
      ensures nodes == InsertAt(old(nodes), After(reference, old(nodes)), n)
      ensures Contents() == InsertAt(old(Contents()), After(reference, old(nodes)),
                                     if insertCopy then copied else element)
      ensures linked == old(linked) + {n} && freed == old(freed) && freedElements == old(freedElements)
      ensures reference == null ==> head == n
      ensures reference != null ==> n.prev == reference && reference.next == n && n.next == old(reference.next)
      ensures n.element == if insertCopy then copied else element
    {
      hide Chained, Accounted, Payloads, Spliced, InsertAt, After;
      var node := new Node<T>(if insertCopy then copied else element);
      n := node;
      ghost var before, chain := Contents(), nodes;
      ghost var c: int := After(reference, nodes);
      Around(c - 1);
      LinkAfter(node, reference);
      size := size + 1;
      NoteInsert(c, n, before);
      InsertAtParts(chain, c, n);
      Around(c - 1);
      Around(c);
    }

    /** The walk of dpl_insert_sorted: the first node not below `element`, NULL if all are below. */
    method SeekNotBelow(element: T) returns (node: Node?<T>)
      requires Valid()
      ensures node == At(nodes, FirstNotBelow(compare, Contents(), element))
    {
      hide Accounted, NoDuplicates;
      node := head;
      ghost var i := 0;
      while node != null && compare(node.element, element) < 0
        invariant 0 <= i <= |nodes|
        invariant node == At(nodes, i)
        invariant forall j :: 0 <= j < i ==> compare(Contents()[j], element) < 0
        decreases |nodes| - i
      {
        node := node.next;
        i := i + 1;
      }
      FirstNotBelowUnique(compare, Contents(), element, i);
    }

    /** Meant for a sorted list; walks to the first node not below `element` and inserts after it. */
    method InsertSorted(element: T, insertCopy: bool, copied: T) returns (ghost n: Node<T>)
      requires Valid()
      modifies this, nodes
      ensures Valid() && fresh(n)
      ensures var c := SortedPlace(compare, old(Contents()), element);
              && nodes == InsertAt(old(nodes), c, n)
              && Contents() == InsertAt(old(Contents()), c, if insertCopy then copied else element)
      ensures linked == old(linked) + {n} && freed == old(freed) && freedElements == old(freedElements)
      ensures AllBelow(compare, old(Contents()), element) ==> head == n && nodes == [n] + old(nodes)
      ensures forall p: nat :: IsFirstNotBelow(compare, old(Contents()), element, p) ==>
                n.prev == old(nodes)[p] && nodes == old(nodes)[..p + 1] + [n] + old(nodes)[p + 1..]
    {
      hide Valid, NoDuplicates, InsertAt, FirstNotBelow, SortedPlace, After, AllBelow, IsFirstNotBelow;
      var node := SeekNotBelow(element);
      ghost var s, chain := Contents(), nodes;
      ghost var c := SortedPlace(compare, s, element);
      ValidDistinct();
      AfterAt(nodes, FirstNotBelow(compare, s, element));
      AfterPlace(chain, s, element);
      n := InsertAtReference(element, node, insertCopy, copied);
      HeadAt();
      InsertAtForms(chain, c, n);
    }

    lemma HeadAt()
      requires Valid()
      ensures head == At(nodes, 0) && tail == At(nodes, |nodes| - 1)
    {
    }

    lemma AfterPlace(chain: seq<Node<T>>, s: seq<T>, element: T)
      requires |s| == |chain|
      ensures var p := FirstNotBelow(compare, s, element);
              SortedPlace(compare, s, element) == if p < |chain| then p + 1 else 0
      ensures AllBelow(compare, s, element) ==> SortedPlace(compare, s, element) == 0
      ensures forall p: nat :: IsFirstNotBelow(compare, s, element, p) ==>
                && p < |s| && FirstNotBelow(compare, s, element) == p
                && SortedPlace(compare, s, element) == p + 1
    {
      SortedPlaceIs(compare, s, element);
    }

    // ---- removal

    /** The chain bypasses the node at position `c`, and head and tail already account for it. */
    twostate predicate Bypassed(c: nat)
      reads this, nodes
    {
      && nodes == old(nodes)
      && Unspliced(nodes, c, old(Contents()))
      && head == (if c == 0 then At(nodes, 1) else At(nodes, 0))
      && tail == (if c == |nodes| - 1 then At(nodes, c - 1) else At(nodes, |nodes| - 1))
    }

    twostate lemma BypassedBy(c: nat)
      requires old(Valid()) && c < |nodes|
      requires Rewired(c - 1, At(nodes, c + 1), c + 1, At(nodes, c - 1))
      requires head == (if c == 0 then At(nodes, 1) else At(nodes, 0))
      requires tail == (if c == |nodes| - 1 then At(nodes, c - 1) else At(nodes, |nodes| - 1))
      ensures Bypassed(c)
    {
      hide Accounted;
    }

    /** The first branch of dpl_remove_at_index. */
    method UnlinkFirst() returns (node: Node<T>)
      requires Valid() && nodes != []
      modifies `head, `tail, nodes`next, nodes`prev
      ensures node == nodes[0] && Bypassed(0)
    {
      hide Chained, Accounted, NoDuplicates, Payloads, Spliced, Unspliced;
      Around(0);
      Around(1);
      node := head;
      head := node.next;
      if head == null {
        tail := null;
      } else {
        head.prev := null;
      }
      BypassedBy(0);
    }

    /** The second branch of dpl_remove_at_index. */
    method UnlinkLast() returns (node: Node<T>)
      requires Valid() && nodes != []
      modifies `head, `tail, nodes`next, nodes`prev
      ensures node == nodes[|nodes| - 1] && Bypassed(|nodes| - 1)
    {
      hide Chained, Accounted, NoDuplicates, Payloads, Spliced, Unspliced;
      Around(|nodes| - 1);
      Around(|nodes| - 2);
      node := tail;
      tail := node.prev;
      if tail == null {
        head := null;
      } else {
        tail.next := null;
      }
      BypassedBy(|nodes| - 1);
    }

    /** The third branch of dpl_remove_at_index; NULL stands for the dereference of a NULL `next`. */
    method UnlinkInner(index: int) returns (node: Node?<T>)
      requires Valid() && 0 < index < size
      modifies nodes`next, nodes`prev
      ensures if index == |nodes| - 1 then node == null else node == nodes[index] && Bypassed(index)
    {
      hide Chained, Accounted, NoDuplicates, Payloads, Spliced, Unspliced;
      Around(index - 1);
      Around(index);
      Around(index + 1);
      node := Walk(index);
      node.prev.next := node.next;
      if node.next == null {
        return null;
      }
      node.next.prev := node.prev;
      BypassedBy(index);
    }

    /** Stops at a NULL dereference exactly for the last index of a list of two or more. */
    method RemoveAtIndex(index: int, freeElement: bool) returns (r: Outcome)
      requires Valid()
      modifies this, nodes
      ensures r == NullDereference <==> 0 < index == |old(nodes)| - 1
      ensures r == ReturnsNull <==> old(nodes) == []
      ensures r == ReturnsNull ==> Valid() && nodes == [] && freed == old(freed)
                                   && linked == old(linked) && freedElements == old(freedElements)
      ensures r == ReturnsList ==> Valid() && RemovedAt(Clamp(index, |old(nodes)| - 1), freeElement)
      ensures r == ReturnsList ==>
                && freed == old(freed) + [if index <= 0 then old(nodes)[0]
                                          else if index >= |old(nodes)| then old(nodes)[|old(nodes)| - 1]
                                          else old(nodes)[index]]
                && (index <= 0 ==> freed[|freed| - 1] == old(head))
                && (index >= |old(nodes)| ==> freed[|freed| - 1] == old(tail))
    {
      hide Chained, Accounted, Payloads, Unspliced;
      if size == 0 {
        return ReturnsNull;
      }
      ghost var before := Contents();
      var node;
      if index <= 0 {
        node := UnlinkFirst();
      } else if index >= size {
        node := UnlinkLast();
      } else {
        node := UnlinkInner(index);
        if node == null {
          return NullDereference;
        }
      }
      size := size - 1;
      NoteRemove(node, Clamp(index, |nodes| - 1), before, freeElement);
      r := ReturnsList;
    }

    /** The pointer updates of dpl_remove_at_reference for the node at position `c`. */
    method Unlink(reference: Node<T>, ghost c: nat)
      requires Valid() && c < |nodes| && reference == nodes[c]
      modifies `head, `tail, nodes`next, nodes`prev
      ensures Bypassed(c)
    {
      hide Chained, Accounted, NoDuplicates, Payloads, Spliced, Unspliced;
      Around(c - 1);
      Around(c);
      Around(c + 1);
      if reference.prev != null {
        reference.prev.next := reference.next;
      }
      if reference.next != null {
        reference.next.prev := reference.prev;
      }
      if reference == head {
        head := reference.next;
      }
      if reference == tail {
        tail := reference.prev;
      }
      BypassedBy(c);
    }

    method RemoveAtReference(reference: Node?<T>, freeElement: bool) returns (r: Outcome)
      requires Valid()
      requires reference != null ==> reference in nodes
      modifies this, nodes
      ensures Valid() && r == if reference == null then ReturnsNull else ReturnsList
      ensures reference == null ==> nodes == old(nodes) && Contents() == old(Contents()) && freed == old(freed)
                                    && linked == old(linked) && freedElements == old(freedElements)
      ensures reference != null ==> RemovedAt(PositionOf(reference, old(nodes)), freeElement)
      ensures reference != null ==> freed == old(freed) + [reference]
    {
      hide Chained, Accounted, Payloads, Unspliced;
      if reference == null {
        return ReturnsNull;
      }
      ghost var c, before := PositionOf(reference, nodes), Contents();
      Unlink(reference, c);
      size := size - 1;
      NoteRemove(reference, c, before, freeElement);
      r := ReturnsList;
    }

    /** Removes the first element comparing equal to `element`, if there is one. */
    method RemoveElement(element: T, freeElement: bool) returns (r: Outcome)
      requires Valid()
      modifies this, nodes
      ensures Valid() && r == ReturnsList
      ensures Contents() == RemoveMatch(compare, old(Contents()), element)
      ensures var i := FirstMatch(compare, old(Contents()), element);
              if i < 0 then
                nodes == old(nodes) && freed == old(freed) && linked == old(linked)
                && freedElements == old(freedElements)
              else RemovedAt(i, freeElement)
    {
      hide Chained, Accounted, Payloads, RemoveAt, FirstMatch, NoDuplicates;
      var reference := GetReferenceOfElement(element);
      if reference == null {
        return ReturnsList;
      }
      MatchPosition(FirstMatch(compare, Contents(), element));
      r := RemoveAtReference(reference, freeElement);
    }

    lemma ValidDistinct()
      requires Valid()
      ensures NoDuplicates(nodes)
    {
    }

    lemma SameLength()
      ensures |Contents()| == |nodes|
    {
    }

    lemma MatchPosition(i: int)
      requires Valid()
      ensures 0 <= i < |nodes| ==> PositionOf(nodes[i], nodes) == i
    {
      PositionUnique(nodes, i);
    }

    /** The node at position `c` left the chain and was freed; all other nodes stayed in order. */
    twostate predicate RemovedAt(c: nat, freeElement: bool)
      reads this, nodes
    {
      && c < |old(nodes)|
      && nodes == RemoveAt(old(nodes), c)
      && Contents() == RemoveAt(old(Contents()), c)
      && linked == old(linked)
      && freed == old(freed) + [old(nodes)[c]]
      && freedElements == old(freedElements) + (if freeElement then [old(Contents())[c]] else [])
    }

    /** Reading a field of a node is allowed only before the node is freed. */
    function NextOf(node: Node<T>): Node?<T>
      requires node !in freed
      reads this`freed, node
    {
      node.next
    }

    function ElementOf(node: Node<T>): T
      requires node !in freed
      reads this`freed, node
    {
      node.element
    }

    /** dpl_free: frees every node once, and calls element_free once per element when asked to. */
    method Free(freeElement: bool)
      requires Valid()
      modifies this
      ensures linked == old(linked) && Elements(freed) == linked && NoDuplicates(freed)
      ensures freed == old(freed) + old(nodes)
      ensures freedElements == old(freedElements) + (if freeElement then old(Contents()) else [])
    {
      hide NoDuplicates, Payloads;
      var node := head;
      ghost var i := 0;
      while node != null
        invariant 0 <= i <= |nodes|
        invariant node == At(nodes, i)
        invariant nodes == old(nodes) && linked == old(linked)
        invariant freed == old(freed) + nodes[..i]
        invariant freedElements == old(freedElements) + (if freeElement then old(Contents())[..i] else [])
        decreases |nodes| - i
      {
        OthersDiffer(nodes, i);
        var nextNode := NextOf(node);
        if freeElement {
          freedElements := freedElements + [ElementOf(node)];
        }
        freed := freed + [node];
        node := nextNode;
        i := i + 1;
      }
      NoDuplicatesConcat(old(freed), nodes);
      assert nodes[..i] == nodes;
      assert old(Contents())[..i] == old(Contents());
    }

    // ---- searching

    method GetReferenceAtIndex(index: int) returns (r: Node?<T>)
      requires Valid()
      ensures r == null <==> nodes == []
      ensures nodes != [] ==> r == nodes[Clamp(index, |nodes| - 1)]
      ensures index <= 0 ==> r == head
      ensures index >= |nodes| ==> r == tail
      ensures 0 <= index < |nodes| ==> r == nodes[index]
    {
      if size == 0 {
        return null;
      }
      if index <= 0 {
        return head;
      } else if index >= size {
        return tail;
      } else {
        r := Walk(index);
      }
    }

    method GetElementAtIndex(index: int) returns (e: Option<T>)
      requires Valid()
      ensures e == if nodes == [] then None else Some(Contents()[Clamp(index, |nodes| - 1)])
      ensures e == if head == null then None
                   else if index <= 0 then Some(head.element)
                   else if index >= |nodes| then Some(tail.element)
                   else Some(nodes[index].element)
    {
      var node := GetReferenceAtIndex(index);
      if node == null {
        return None;
      }
      e := Some(node.element);
    }

    method GetIndexOfElement(element: T) returns (r: int)
      requires Valid()
      ensures r == FirstMatch(compare, Contents(), element)
    {
      var node := head;
      var index := 0;
      while node != null
        invariant 0 <= index <= |nodes|
        invariant node == At(nodes, index)
        invariant forall j :: 0 <= j < index ==> compare(Contents()[j], element) != 0
        decreases |nodes| - index
      {
        if compare(node.element, element) == 0 {
          FirstMatchUnique(compare, Contents(), element, index);
          return index;
        }
        node := node.next;
        index := index + 1;
      }
      FirstMatchUnique(compare, Contents(), element, -1);
      return -1;
    }

    method GetReferenceOfElement(element: T) returns (r: Node?<T>)
      requires Valid()
      ensures var i := FirstMatch(compare, Contents(), element);
              r == if i < 0 then null else nodes[i]
    {
      r := head;
      ghost var i := 0;
      while r != null
        invariant 0 <= i <= |nodes|
        invariant r == At(nodes, i)
        invariant forall j :: 0 <= j < i ==> compare(Contents()[j], element) != 0
        decreases |nodes| - i
      {
        if compare(r.element, element) == 0 {
          FirstMatchUnique(compare, Contents(), element, i);
          return;
        }
        r := r.next;
        i := i + 1;
      }
      FirstMatchUnique(compare, Contents(), element, -1);
    }

    method GetIndexOfReference(reference: Node?<T>) returns (r: int)
      requires Valid()
      ensures -1 <= r < |nodes|
      ensures r >= 0 ==> nodes[r] == reference
      ensures r == -1 ==> reference !in nodes
    {
      var node := head;
      var index := 0;
      while node != null
        invariant 0 <= index <= |nodes|
        invariant node == At(nodes, index)
        invariant forall j :: 0 <= j < index ==> nodes[j] != reference
        decreases |nodes| - index
      {
        if node == reference {
          return index;
        }
        node := node.next;
        index := index + 1;
      }
      return -1;
    }

    // ---- sorting and copying

    /** The exchange inside dpl_sort: the payloads of a node and its successor trade places. */
    method ExchangeWithNext(node: Node<T>, ghost i: nat)
      requires Valid() && i + 1 < |nodes| && node == nodes[i]
      modifies nodes`element
      ensures Valid() && Contents() == Swapped(old(Contents()), i)
    {
      OthersDiffer(nodes, i);
      OthersDiffer(nodes, i + 1);
      assert node.next == nodes[i + 1];
      var temp := node.element;
      node.element := node.next.element;
      node.next.element := temp;
    }

    /** One call of the element_compare callback, counted. */
    method Compare(x: T, y: T, ghost calls: nat) returns (c: int, ghost calls': nat)
      ensures c == compare(x, y) && calls' == calls + 1
    {
      c, calls' := compare(x, y), calls + 1;
    }

    /** The conditional in the inner loop of dpl_sort, with the cursor at position `i`. */
    method CompareExchange(node: Node<T>, swapped: bool, ghost U: set<T>, ghost start: seq<T>,
                           ghost i: nat, ghost k: nat, ghost swaps: nat, ghost calls: nat)
      returns (swapped': bool, ghost swaps': nat, ghost calls': nat)
      requires Valid() && i + 1 < |nodes| && node == nodes[i] && swapped == (swaps > 0)
      requires Preorder(compare, U) && SweepTally(compare, U, start, Contents(), i, k, swaps)
      modifies nodes`element
      ensures Valid() && swapped' == (swaps' > 0)
      ensures SweepTally(compare, U, start, Contents(), i + 1, k, swaps')
      ensures swaps <= swaps' <= swaps + 1 && calls' == calls + 1
    {
      hide Preorder, SweepTally, Swapped, Chained, Accounted, Payloads;
      Around(i);
      swapped', swaps' := swapped, swaps;
      var c;
      c, calls' := Compare(node.element, node.next.element, calls);
      if c > 0 {
        TallySwap(compare, U, start, Contents(), i, k, swaps);
        ExchangeWithNext(node, i);
        swapped', swaps' := true, swaps + 1;
      } else {
        TallyKeep(compare, U, start, Contents(), i, k, swaps);
      }
    }

    /** One iteration of the outer loop of dpl_sort on a nonempty list, the (k+1)-st. */
    method SweepOnce(ghost U: set<T>, ghost k: nat)
      returns (swapped: bool, ghost swaps: nat, ghost calls: nat)
      requires Valid() && nodes != []
      requires Preorder(compare, U) && Within(Contents(), U) && Final(compare, Contents(), k)
      modifies nodes`element
      ensures Valid() && swapped == (swaps > 0)
      ensures Swept(compare, U, old(Contents()), Contents(), k, swaps)
      ensures calls == size - 1
    {
      hide Preorder, SweepTally, Swept, Final;
      swapped, swaps, calls := false, 0, 0;
      var node := head;
      ghost var i, start := 0, Contents();
      TallyStart(compare, U, start, k);
      while node.next != null
        invariant Valid() && 0 <= i < |nodes| && node == nodes[i] && swapped == (swaps > 0)
        invariant SweepTally(compare, U, start, Contents(), i, k, swaps) && calls == i
        decreases |nodes| - i
      {
        assert node.next == nodes[i + 1];
        swapped, swaps, calls := CompareExchange(node, swapped, U, start, i, k, swaps, calls);
        node := node.next;
        i := i + 1;
      }
      TallyComplete(compare, U, start, Contents(), i, k, swaps);
    }

    /** Bubble sort on the payloads. `U` is any set holding the elements on which `compare` is a total
        preorder. Only elements move: nodes, links, head, tail and size are not even in the frame. */
    method Sort(ghost U: set<T>)
      returns (r: Outcome, ghost passes: nat, ghost comparisons: nat, ghost swaps: nat)
      requires Valid() && Preorder(compare, U) && Within(Contents(), U)
      modifies nodes`element
      ensures Valid()
      ensures r == if nodes == [] then NullDereference else ReturnsList
      ensures Contents() == StableSort(compare, old(Contents()))
      ensures Sorted(compare, Contents()) && StableRearrangement(compare, U, old(Contents()), Contents())
      ensures multiset(Contents()) == multiset(old(Contents()))
      ensures swaps == Inversions(compare, old(Contents()))
      ensures passes <= size && comparisons == passes * (if size > 0 then size - 1 else 0)
    {
      hide Preorder, SortTally, Swept, Final, StableSort, Inversions, Within, Sorted, StableRearrangement;
      ghost var s0 := Contents();
      passes, comparisons, swaps := 0, 0, 0;
      if head == null {
        SortNothing(compare, U, s0);
        return NullDereference, passes, comparisons, swaps;
      }
      SortStart(compare, U, s0);
      var swapped := true;
      while swapped
        invariant Valid() && size > 0
        invariant SortTally(compare, U, s0, Contents(), swapped, passes, comparisons, swaps)
        decreases Inversions(compare, Contents()), swapped
      {
        ghost var start, now, calls := Contents(), 0, 0;
        ghost var passes0, comparisons0, swaps0 := passes, comparisons, swaps;
        SortOpen(compare, U, s0, start, swapped, passes, comparisons, swaps);
        swapped, now, calls := SweepOnce(U, passes);
        passes, comparisons, swaps := passes + 1, comparisons + calls, swaps + now;
        SortStep(compare, U, s0, start, Contents(), passes0, comparisons0, swaps0, now,
                 swapped, passes, comparisons, swaps);
      }
      SortComplete(compare, U, s0, Contents(), passes, comparisons, swaps);
      r := ReturnsList;
    }

    /** Deep copy; `copies[i]` is what element_copy returns for the i-th element. */
    method Copy(copies: seq<T>) returns (copy: List<T>)
      requires Valid() && |copies| == size
      ensures fresh(copy) && copy.Valid() && copy.compare == compare
      ensures copy.Contents() == copies
      ensures fresh(copy.nodes) && copy.freed == []
    {
      hide Accounted, NoDuplicates, InsertAt, Chained, Payloads;
      copy := new List<T>(compare);
      var node := head;
      var i := 0;
      while node != null
        invariant 0 <= i <= |nodes|
        invariant node == At(nodes, i) && Valid()
        invariant fresh(copy) && copy.Valid() && copy.compare == compare
        invariant copy.Contents() == copies[..i]
        invariant fresh(copy.nodes) && copy.freed == []
        decreases |nodes| - i
      {
        ghost var before := copy.nodes;
        Around(i);
        ghost var n := copy.InsertAtIndex(node.element, copy.size, true, copies[i]);
        InsertAtEnd(before, n);
        InsertAtEnd(copies[..i], copies[i]);
        node := node.next;
        i := i + 1;
      }
      assert copies[..i] == copies;
    }
  }

  /** The node at a position, NULL outside the chain. */
  ghost function At<T>(s: seq<Node<T>>, i: int): Node?<T> {
    if 0 <= i < |s| then s[i] else null
  }

  /** The position an index stands for: negative ones mean the first, too large ones the last. */
  function Clamp(index: int, n: nat): (c: nat)
    ensures c <= n
  {
    if index <= 0 then 0 else if index >= n then n else index
  }

  ghost function PositionOf<T>(n: Node<T>, s: seq<Node<T>>): (i: nat)
    requires n in s
    ensures i < |s| && s[i] == n
  {
    var i :| 0 <= i < |s| && s[i] == n;
    i
  }

  lemma InsertAtParts<T>(s: seq<Node<T>>, c: nat, n: Node<T>)
    requires c <= |s|
    ensures var t := InsertAt(s, c, n); At(t, c) == n && At(t, c - 1) == At(s, c - 1) && At(t, c + 1) == At(s, c)
    ensures |InsertAt(s, c, n)| == |s| + 1
  {
  }

  /** Where dpl_insert_at_reference puts the new node. */
  ghost function After<T>(reference: Node?<T>, s: seq<Node<T>>): (c: nat)
    requires reference != null ==> reference in s
    ensures c <= |s|
    ensures if reference == null then c == 0 else c > 0 && s[c - 1] == reference
  {
    if reference == null then 0 else PositionOf(reference, s) + 1
  }

  lemma PositionUnique<T>(s: seq<Node<T>>, i: int)
    requires NoDuplicates(s)
    ensures 0 <= i < |s| ==> PositionOf(s[i], s) == i
  {
    NoDuplicatesIndexed(s);
  }

  lemma AfterAt<T>(s: seq<Node<T>>, i: nat)
    requires NoDuplicates(s)
    ensures At(s, i) != null ==> At(s, i) in s
    ensures After(At(s, i), s) == if i < |s| then i + 1 else 0
  {
    NoDuplicatesIndexed(s);
  }

  /** next and prev of every node agree with its place in the chain. */
  ghost predicate Chained<T>(s: seq<Node<T>>)
    reads s
  {
    && NoDuplicates(s)
    && (forall i {:trigger s[i].next} :: 0 <= i < |s| ==> s[i].next == At(s, i + 1))
    && (forall i {:trigger s[i].prev} :: 0 <= i < |s| ==> s[i].prev == At(s, i - 1))
  }

  ghost function Payloads<T>(s: seq<Node<T>>): (r: seq<T>)
    reads s
    ensures |r| == |s|
    ensures forall i :: 0 <= i < |r| ==> r[i] == s[i].element
  {
    seq(|s|, i requires 0 <= i < |s| reads s => s[i].element)
  }

  /** `n` sits between positions c - 1 and c, both neighbours point to it, and nothing else changed. */
  ghost predicate Spliced<T>(s: seq<Node<T>>, c: nat, n: Node<T>, before: seq<T>)
    reads s, n
  {
    && c <= |s| && NoDuplicates(s) && n !in s && |before| == |s|
    && n.next == At(s, c) && n.prev == At(s, c - 1)
    && (forall i {:trigger s[i].next} :: 0 <= i < |s| ==>
          s[i].next == if i == c - 1 then n else At(s, i + 1))
    && (forall i {:trigger s[i].prev} :: 0 <= i < |s| ==>
          s[i].prev == if i == c then n else At(s, i - 1))
    && (forall i {:trigger s[i].element} :: 0 <= i < |s| ==> s[i].element == before[i])
  }

  /** The neighbours of position `c` point past it, and nothing else changed. */
  ghost predicate Unspliced<T>(s: seq<Node<T>>, c: nat, before: seq<T>)
    reads s
  {
    && c < |s| && NoDuplicates(s) && |before| == |s|
    && (forall i {:trigger s[i].next} :: 0 <= i < |s| && i != c ==>
          s[i].next == if i == c - 1 then At(s, c + 1) else At(s, i + 1))
    && (forall i {:trigger s[i].prev} :: 0 <= i < |s| && i != c ==>
          s[i].prev == if i == c + 1 then At(s, c - 1) else At(s, i - 1))
    && (forall i {:trigger s[i].element} :: 0 <= i < |s| ==> s[i].element == before[i])
  }

  /** Rewiring the two neighbours and the new node extends the chain at position `c`. */
  lemma ChainAfterInsert<T>(s: seq<Node<T>>, c: nat, n: Node<T>, before: seq<T>)
    requires Spliced(s, c, n, before)
    ensures Chained(InsertAt(s, c, n))
    ensures Payloads(InsertAt(s, c, n)) == InsertAt(before, c, n.element)
  {
    var t := InsertAt(s, c, n);
    NoDuplicatesInsert(s, c, n);
    assert t[c] == n;
    assert forall i :: 0 <= i < c ==> t[i] == s[i];
    assert forall i :: c < i < |t| ==> t[i] == s[i - 1];
  }

  lemma ChainAfterRemove<T>(s: seq<Node<T>>, c: nat, before: seq<T>)
    requires Unspliced(s, c, before)
    ensures Chained(RemoveAt(s, c))
    ensures Payloads(RemoveAt(s, c)) == RemoveAt(before, c)
  {
    var t := RemoveAt(s, c);
    NoDuplicatesRemove(s, c);
    assert forall i :: 0 <= i < c ==> t[i] == s[i];
    assert forall i :: c <= i < |t| ==> t[i] == s[i + 1];
  }
}
