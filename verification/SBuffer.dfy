/** sbuffer.c called by one thread at a time: a singly linked FIFO updated in place. The interleaved
    behaviour of the same statements is in SBufferThreads. */
module SBuffer {
  import opened Util
  import opened Windows

  const SBUFFER_FAILURE := -1
  const SBUFFER_SUCCESS := 0
  const SBUFFER_NO_DATA := 1

  /** The values that callers see. */
  lemma ReturnCodes()
    ensures SBUFFER_FAILURE == -1 && SBUFFER_SUCCESS == 0 && SBUFFER_NO_DATA == 1
  {
  }

  class Node {
    var next: Node?
    var data: Reading

    constructor (data: Reading)
      ensures this.data == data && next == null
    {
      this.data := data;
      next := null;
    }
  }

  class Buffer {
    var head: Node?
    var tail: Node?
    /** Whether the mutex and the condition variable exist. */
    var mutexReady: bool
    var condReady: bool

    ghost var nodes: seq<Node>
    /** Every node ever linked, and the calls of free() on nodes, in order. */
    ghost var linked: set<Node>
    ghost var freed: seq<Node>

    ghost predicate Valid()
      reads this, nodes
    {
      && head == NodeAt(nodes, 0) && tail == NodeAt(nodes, |nodes| - 1)
      && Chained(nodes)
      && Accounted(nodes, freed, linked)
    }

    ghost function Contents(): (s: seq<Reading>)
      reads this, nodes
      ensures |s| == |nodes|
    {
      Payloads(nodes)
    }

    constructor (mutexReady: bool, condReady: bool)
      ensures Valid() && nodes == [] && freed == [] && linked == {}
      ensures this.mutexReady == mutexReady && this.condReady == condReady
    {
      head, tail := null, null;
      this.mutexReady, this.condReady := mutexReady, condReady;
      nodes, freed, linked := [], [], {};
    }

    /** Lines 93 to 100: the node becomes the new tail. */
    method Link(dummy: Node)
      requires Valid() && dummy !in nodes && dummy.next == null
      modifies `head, `tail, nodes`next
      ensures Extended(nodes, dummy, old(Contents()))
      ensures head == (if nodes == [] then dummy else nodes[0]) && tail == dummy
    {
      OthersDiffer(nodes, |nodes| - 1);
      if tail == null {
        tail := dummy;
        head := tail;
      } else {
        tail.next := dummy;
        tail := tail.next;
      }
    }

    /** `mallocOk` is whether malloc succeeds; only then is the mutex locked. */
    method Insert(data: Reading, mallocOk: bool) returns (rc: int)
      requires Valid() && (mallocOk ==> mutexReady)
      modifies this, nodes
      ensures Valid() && mutexReady == old(mutexReady) && rc == if mallocOk then SBUFFER_SUCCESS else SBUFFER_FAILURE
      ensures Contents() == old(Contents()) + (if mallocOk then [data] else [])
      ensures freed == old(freed) && old(linked) <= linked
      ensures if mallocOk then |nodes| == |old(nodes)| + 1 && old(nodes) <= nodes && fresh(nodes[|nodes| - 1])
              else nodes == old(nodes)
    {
      hide Chained, Accounted, Payloads, Extended;
      if !mallocOk {
        return SBUFFER_FAILURE;
      }
      var dummy := new Node(data);
      ghost var before := Contents();
      Link(dummy);
      ChainAppend(nodes, dummy, before);
      AccountInsert(nodes, freed, linked, |nodes|, dummy);
      InsertAtEnd(nodes, dummy);
      nodes := nodes + [dummy];
      linked := linked + {dummy};
      rc := SBUFFER_SUCCESS;
    }

    /** `data0` is what *data holds before the call. */
    method Remove(data0: Reading) returns (rc: int, data: Reading)
      requires Valid() && mutexReady
      modifies this
      ensures Valid() && mutexReady && linked == old(linked)
      ensures old(Contents()) == [] ==>
                rc == SBUFFER_NO_DATA && data == data0 && nodes == old(nodes) && freed == old(freed)
      ensures old(Contents()) != [] ==>
                && rc == SBUFFER_SUCCESS
                && [data] + Contents() == old(Contents())
                && nodes == old(nodes)[1..] && freed == old(freed) + [old(nodes)[0]]
    {
      hide Accounted, Payloads, NoDuplicates;
      data := data0;
      if head == null {
        return SBUFFER_NO_DATA, data;
      }
      PayloadAt(nodes, 0);
      data := head.data;
      var dummy := head;
      OthersDiffer(nodes, 0);
      if head == tail {
        head, tail := null, null;
      } else {
        head := head.next;
      }
      ChainDrop(nodes);
      AccountRemove(nodes, freed, linked, 0);
      assert RemoveAt(nodes, 0) == nodes[1..];
      freed := freed + [dummy];
      nodes := nodes[1..];
      rc := SBUFFER_SUCCESS;
    }

    /** Reading a node's `next` is allowed only before the node is freed. */
    function NextOf(node: Node): Node?
      requires node !in freed
      reads this`freed, node
    {
      node.next
    }

    /** `mutexOk` and `condOk` are whether destroying the mutex and the condition variable succeeds. If
        only the second fails, the call fails with the mutex already gone. */
    method Free(mutexOk: bool, condOk: bool) returns (rc: int)
      requires Valid()
      modifies this
      ensures rc == if mutexOk && condOk then SBUFFER_SUCCESS else SBUFFER_FAILURE
      ensures mutexReady == (old(mutexReady) && !mutexOk)
      ensures condReady == (old(condReady) && !(mutexOk && condOk))
      ensures rc == SBUFFER_FAILURE ==>
                Valid() && nodes == old(nodes) && Contents() == old(Contents()) && freed == old(freed)
      ensures rc == SBUFFER_SUCCESS ==> NoDuplicates(freed) && Elements(freed) == linked
      ensures rc == SBUFFER_SUCCESS ==> head == null && freed == old(freed) + old(nodes)
      ensures linked == old(linked)
    {
      hide Payloads, NoDuplicates;
      if !mutexOk {
        return SBUFFER_FAILURE;
      }
      mutexReady := false;
      if !condOk {
        return SBUFFER_FAILURE;
      }
      condReady := false;
      ghost var i := 0;
      while head != null
        invariant 0 <= i <= |nodes| && head == NodeAt(nodes, i)
        invariant nodes == old(nodes) && linked == old(linked) && !mutexReady && !condReady
        invariant freed == old(freed) + nodes[..i]
        decreases |nodes| - i
      {
        OthersDiffer(nodes, i);
        var dummy := head;
        head := NextOf(head);
        freed := freed + [dummy];
        i := i + 1;
      }
      assert nodes[..i] == nodes;
      NoDuplicatesConcat(old(freed), nodes);
      rc := SBUFFER_SUCCESS;
    }
  }

  /** The node at a position, NULL outside the chain. */
  ghost function NodeAt(s: seq<Node>, i: int): Node? {
    if 0 <= i < |s| then s[i] else null
  }

  ghost predicate Chained(s: seq<Node>)
    reads s
  {
    && NoDuplicates(s)
    && forall i {:trigger s[i].next} :: 0 <= i < |s| ==> s[i].next == NodeAt(s, i + 1)
  }

  ghost function Payloads(s: seq<Node>): (r: seq<Reading>)
    reads s
    ensures |r| == |s|
  {
    seq(|s|, i requires 0 <= i < |s| reads s => s[i].data)
  }

  lemma PayloadAt(s: seq<Node>, i: nat)
    requires i < |s|
    ensures Payloads(s)[i] == s[i].data
  {
  }

  /** The last node points to `n`, and nothing else changed. */
  ghost predicate Extended(s: seq<Node>, n: Node, before: seq<Reading>)
    reads s, n
  {
    && NoDuplicates(s) && n !in s && n.next == null && Payloads(s) == before
    && forall i {:trigger s[i].next} :: 0 <= i < |s| ==>
         s[i].next == if i + 1 == |s| then n else NodeAt(s, i + 1)
  }

  lemma ChainAppend(s: seq<Node>, n: Node, before: seq<Reading>)
    requires Extended(s, n, before)
    ensures Chained(s + [n]) && Payloads(s + [n]) == before + [n.data]
  {
    var t := s + [n];
    NoDuplicatesConcat(s, [n]);
    assert forall i :: 0 <= i < |s| ==> t[i] == s[i] && before[i] == s[i].data;
  }

  lemma ChainDrop(s: seq<Node>)
    requires s != [] && Chained(s)
    ensures Chained(s[1..]) && Payloads(s) == [s[0].data] + Payloads(s[1..])
  {
    var t := s[1..];
    NoDuplicatesRemove(s, 0);
    assert RemoveAt(s, 0) == t;
    assert forall i :: 0 <= i < |t| ==> t[i] == s[i + 1];
    assert Payloads(s) == [s[0].data] + Payloads(t);
  }

  datatype InitResult = InitResult(rc: int, buffer: Buffer?)

  /** sbuffer_init: the buffer pointer is set even when initializing the mutex or the condition
      variable fails; in the first case neither exists. */
  method Init(mallocOk: bool, mutexOk: bool, condOk: bool) returns (r: InitResult)
    ensures r.rc == if mallocOk && mutexOk && condOk then SBUFFER_SUCCESS else SBUFFER_FAILURE
    ensures r.buffer == null <==> !mallocOk
    ensures r.buffer != null ==> fresh(r.buffer) && r.buffer.Valid() && r.buffer.Contents() == []
    ensures r.buffer != null ==> r.buffer.mutexReady == mutexOk && r.buffer.condReady == (mutexOk && condOk)
  {
    if !mallocOk {
      return InitResult(SBUFFER_FAILURE, null);
    }
    var b := new Buffer(mutexOk, mutexOk && condOk);
    if !mutexOk || !condOk {
      return InitResult(SBUFFER_FAILURE, b);
    }
    r := InitResult(SBUFFER_SUCCESS, b);
  }

  // ---- whole histories

  datatype Call = Put(data: Reading, mallocOk: bool) | Take

  /** The queue as a sequence, and what the successful removals returned. */
  datatype Queue = Queue(items: seq<Reading>, taken: seq<Reading>)

  function Step(q: Queue, c: Call): Queue {
    match c
    case Put(d, ok) => if ok then q.(items := q.items + [d]) else q
    case Take => if q.items == [] then q else Queue(q.items[1..], q.taken + [q.items[0]])
  }

  function Run(q: Queue, calls: seq<Call>): Queue
    decreases |calls|
  {
    if calls == [] then q else Run(Step(q, calls[0]), calls[1..])
  }

  function Inserted(calls: seq<Call>): seq<Reading> {
    if calls == [] then []
    else (if calls[0].Put? && calls[0].mallocOk then [calls[0].data] else []) + Inserted(calls[1..])
  }

  /** First in, first out, nothing lost: what was taken followed by what remains is what was there
      before followed by everything successfully inserted. */
  lemma {:induction false} RunConserves(q: Queue, calls: seq<Call>)
    ensures var r := Run(q, calls); r.taken + r.items == q.taken + q.items + Inserted(calls)
    decreases |calls|
  {
    if calls == [] {
      assert q.taken + q.items + [] == q.taken + q.items;
    } else {
      var p := Step(q, calls[0]);
      var first := if calls[0].Put? && calls[0].mallocOk then [calls[0].data] else [];
      RunConserves(p, calls[1..]);
      assert p.taken + p.items == q.taken + q.items + first;
      assert q.taken + q.items + first + Inserted(calls[1..]) == q.taken + q.items + (first + Inserted(calls[1..]));
    }
  }

  lemma RunStep(q: Queue, calls: seq<Call>, i: nat)
    requires i < |calls|
    ensures Run(q, calls[i..]) == Run(Step(q, calls[i]), calls[i + 1..])
  {
    assert calls[i..][1..] == calls[i + 1..];
  }

  lemma RunDone(q: Queue, calls: seq<Call>)
    ensures Run(q, calls[|calls|..]) == q && calls[0..] == calls
  {
  }

  lemma FreshIsEmpty(buffer: Buffer)
    requires buffer.Valid() && buffer.nodes == []
    ensures buffer.Contents() == []
  {
  }

  /** Any history of calls on a fresh buffer, closed by sbuffer_free: the removals returned a prefix of
      the insertions, and every node ever linked was freed exactly once. */
  method HistoryThenFree(calls: seq<Call>) returns (buffer: Buffer, taken: seq<Reading>)
    ensures taken <= Inserted(calls)
    ensures taken == Run(Queue([], []), calls).taken
    ensures NoDuplicates(buffer.freed) && Elements(buffer.freed) == buffer.linked
    ensures |buffer.freed| == |Inserted(calls)|
  {
    hide Buffer.Valid, Buffer.Contents, Accounted, NoDuplicates, Run, Inserted;
    buffer := new Buffer(true, true);
    FreshIsEmpty(buffer);
    taken := [];
    ghost var q := Queue([], []);
    for i := 0 to |calls|
      invariant fresh(buffer) && buffer.Valid() && buffer.mutexReady && fresh(buffer.nodes)
      invariant buffer.Contents() == q.items && taken == q.taken && |buffer.freed| == |taken|
      invariant Run(q, calls[i..]) == Run(Queue([], []), calls)
    {
      RunStep(q, calls, i);
      q := Step(q, calls[i]);
      if calls[i].Put? {
        var rc := buffer.Insert(calls[i].data, calls[i].mallocOk);
      } else {
        var rc, data := buffer.Remove(Reading(0, 0.0, 0));
        if rc == SBUFFER_SUCCESS {
          taken := taken + [data];
        }
      }
    }
    RunDone(q, calls);
    RunConserves(Queue([], []), calls);
    assert taken + q.items == Inserted(calls);
    var rc := buffer.Free(true, true);
  }
}
