/** sbuffer_insert and sbuffer_remove as any number of threads run them, one statement per step, on an
    explicit heap with malloc and free; and the atomic FIFO queue they implement. */
module SBufferThreads {
  import opened Util
  import opened Windows

  type Ptr = nat
  const NULL: Ptr := 0

  datatype HeapNode = HeapNode(next: Ptr, data: Reading)

  datatype Result = Failure | Success | NoData | Got(data: Reading)

  /** Where a thread stands. `d` is the caller's reading or the copy in *data, `p` the local `dummy`. */
  datatype Pc =
    | Idle                                  // has not called yet
    | Done(result: Result)                  // the last call returned this
    // sbuffer_insert
    | InsMalloc(d: Reading)                 // dummy = malloc(..)
    | InsFail                               // return SBUFFER_FAILURE
    | InsData(d: Reading, p: Ptr)           // dummy->data = *data
    | InsNext(d: Reading, p: Ptr)           // dummy->next = NULL
    | InsLock(d: Reading, p: Ptr)           // lock
    | InsTest(d: Reading, p: Ptr)           // tail == NULL ?
    | InsTail(d: Reading, p: Ptr)           // tail = dummy
    | InsHead(d: Reading, p: Ptr)           // head = that value
    | InsLink(d: Reading, p: Ptr)           // tail->next = dummy
    | InsAdvance(d: Reading, p: Ptr)        // tail = tail->next
    | InsUnlock                             // unlock, return SBUFFER_SUCCESS
    // sbuffer_remove
    | RemLock                               // lock
    | RemTest                               // head == NULL ?
    | RemUnlockEmpty                        // unlock, return SBUFFER_NO_DATA
    | RemCopy                               // *data = head->data
    | RemSave(d: Reading)                   // dummy = head
    | RemCompare(d: Reading, p: Ptr)        // head == tail ?
    | RemClearTail(d: Reading, p: Ptr)      // tail = NULL
    | RemClearHead(d: Reading, p: Ptr)      // head = that value
    | RemAdvance(d: Reading, p: Ptr)        // head = head->next
    | RemFree(d: Reading, p: Ptr)           // free(dummy)
    | RemUnlock(d: Reading)                 // unlock, return SBUFFER_SUCCESS

  datatype Entry = Entry(thread: nat, data: Reading)

  /** `fault` records an access to memory that is not allocated, a free of such memory, or an unlock by a
      thread that does not hold the lock. The fields from `chain` on are history: no step reads them. */
  datatype State = State(
    threads: seq<Pc>,
    lock: Option<nat>,
    head: Ptr,
    tail: Ptr,
    heap: map<Ptr, HeapNode>,
    fault: bool,
    chain: seq<Ptr>,
    ins: seq<Entry>,
    rem: seq<Entry>,
    mallocs: nat,
    frees: nat)

  datatype Op = Insert(d: Reading) | Remove

  /** What malloc does this time: an unused address with whatever bytes it holds, or NULL. Addresses
      that were freed may come back. */
  datatype Choice = Choice(p: Ptr, garbage: HeapNode)

  datatype Action = Call(t: nat, op: Op) | Run(t: nat, choice: Choice)

  ghost predicate Enabled(s: State, a: Action) {
    && a.t < |s.threads|
    && !s.fault
    && match a
       case Call(t, _) => s.threads[t].Idle? || s.threads[t].Done?
       case Run(t, choice) =>
         && !s.threads[t].Idle? && !s.threads[t].Done?
         && ((s.threads[t].InsLock? || s.threads[t].RemLock?) ==> s.lock == None)
         && (s.threads[t].InsMalloc? ==> choice.p !in s.heap)
  }

  function Goto(s: State, t: nat, pc: Pc): State
    requires t < |s.threads|
  {
    s.(threads := s.threads[t := pc])
  }

  function Unlock(s: State, t: nat, r: Result): State
    requires t < |s.threads|
  {
    if s.lock == Some(t) then Goto(s, t, Done(r)).(lock := None) else s.(fault := true)
  }

  /** One step of thread `t` inside a call. */
  function Exec(s: State, t: nat, choice: Choice): (s': State)
    requires t < |s.threads| && !s.threads[t].Idle? && !s.threads[t].Done?
    ensures |s'.threads| == |s.threads| && s'.threads == s.threads[t := s'.threads[t]]
  {
    match s.threads[t]
    case InsMalloc(d) =>
      if choice.p == NULL then Goto(s, t, InsFail)
      else Goto(s, t, InsData(d, choice.p)).(heap := s.heap[choice.p := choice.garbage], mallocs := s.mallocs + 1)
    case InsFail => Goto(s, t, Done(Failure))
    case InsData(d, p) =>
      if p !in s.heap then s.(fault := true)
      else Goto(s, t, InsNext(d, p)).(heap := s.heap[p := s.heap[p].(data := d)])
    case InsNext(d, p) =>
      if p !in s.heap then s.(fault := true)
      else Goto(s, t, InsLock(d, p)).(heap := s.heap[p := s.heap[p].(next := NULL)])
    case InsLock(d, p) => Goto(s, t, InsTest(d, p)).(lock := Some(t))
    case InsTest(d, p) => Goto(s, t, if s.tail == NULL then InsTail(d, p) else InsLink(d, p))
    case InsTail(d, p) =>
      Goto(s, t, InsHead(d, p)).(tail := p, chain := s.chain + [p], ins := s.ins + [Entry(t, d)])
    case InsHead(d, p) => Goto(s, t, InsUnlock).(head := p)
    case InsLink(d, p) =>
      if s.tail !in s.heap then s.(fault := true)
      else Goto(s, t, InsAdvance(d, p)).(heap := s.heap[s.tail := s.heap[s.tail].(next := p)],
                                         chain := s.chain + [p], ins := s.ins + [Entry(t, d)])
    case InsAdvance(d, p) =>
      if s.tail !in s.heap then s.(fault := true)
      else Goto(s, t, InsUnlock).(tail := s.heap[s.tail].next)
    case InsUnlock => Unlock(s, t, Success)
    case RemLock => Goto(s, t, RemTest).(lock := Some(t))
    case RemTest => Goto(s, t, if s.head == NULL then RemUnlockEmpty else RemCopy)
    case RemUnlockEmpty => Unlock(s, t, NoData)
    case RemCopy =>
      if s.head !in s.heap then s.(fault := true) else Goto(s, t, RemSave(s.heap[s.head].data))
    case RemSave(d) => Goto(s, t, RemCompare(d, s.head))
    case RemCompare(d, p) => Goto(s, t, if s.head == s.tail then RemClearTail(d, p) else RemAdvance(d, p))
    case RemClearTail(d, p) =>
      Goto(s, t, RemClearHead(d, p)).(tail := NULL, chain := Tail(s.chain), rem := s.rem + [Entry(t, d)])
    case RemClearHead(d, p) => Goto(s, t, RemFree(d, p)).(head := NULL)
    case RemAdvance(d, p) =>
      if s.head !in s.heap then s.(fault := true)
      else Goto(s, t, RemFree(d, p)).(head := s.heap[s.head].next,
                                      chain := Tail(s.chain), rem := s.rem + [Entry(t, d)])
    case RemFree(d, p) =>
      if p !in s.heap then s.(fault := true)
      else Goto(s, t, RemUnlock(d)).(heap := s.heap - {p}, frees := s.frees + 1)
    case RemUnlock(d) => Unlock(s, t, Got(d))
  }

  function Tail<T>(s: seq<T>): seq<T> {
    if s == [] then [] else s[1..]
  }

  function Step(s: State, a: Action): State
    requires Enabled(s, a)
  {
    match a
    case Call(t, op) => Goto(s, t, if op.Insert? then InsMalloc(op.d) else RemLock)
    case Run(t, choice) => Exec(s, t, choice)
  }

  ghost predicate Init(s: State) {
    && (forall t :: 0 <= t < |s.threads| ==> s.threads[t] == Idle)
    && s.lock == None && s.head == NULL && s.tail == NULL && s.heap == map[] && !s.fault
    && s.chain == [] && s.ins == [] && s.rem == [] && s.mallocs == 0 && s.frees == 0
  }

  // ---- the inductive invariant

  /** Inside the region protected by the lock. */
  predicate Critical(pc: Pc) {
    || pc.InsTest? || pc.InsTail? || pc.InsHead? || pc.InsLink? || pc.InsAdvance? || pc.InsUnlock?
    || pc.RemTest? || pc.RemUnlockEmpty? || pc.RemCopy? || pc.RemSave? || pc.RemCompare?
    || pc.RemClearTail? || pc.RemClearHead? || pc.RemAdvance? || pc.RemFree? || pc.RemUnlock?
  }

  predicate Inserting(pc: Pc) {
    || pc.InsMalloc? || pc.InsFail? || pc.InsData? || pc.InsNext? || pc.InsLock? || pc.InsTest?
    || pc.InsTail? || pc.InsHead? || pc.InsLink? || pc.InsAdvance? || pc.InsUnlock?
  }

  /** Taking a node that holds a reading out of the list, or back on the way from there. */
  predicate Unlinking(pc: Pc) {
    pc.RemClearTail? || pc.RemClearHead? || pc.RemAdvance? || pc.RemFree? || pc.RemUnlock?
  }

  /** A thread owns a node it has allocated but not linked, or unlinked but not freed. */
  function Owned(pc: Pc): Ptr {
    match pc
    case InsData(_, p) => p
    case InsNext(_, p) => p
    case InsLock(_, p) => p
    case InsTest(_, p) => p
    case InsTail(_, p) => p
    case InsLink(_, p) => p
    case RemClearHead(_, p) => p
    case RemFree(_, p) => p
    case _ => NULL
  }

  ghost predicate Mutex(s: State) {
    && (s.lock.Some? ==> s.lock.value < |s.threads|)
    && forall t :: 0 <= t < |s.threads| ==> (Critical(s.threads[t]) <==> s.lock == Some(t))
  }

  /** The linked nodes, each pointing to the next. */
  ghost predicate Linked(heap: map<Ptr, HeapNode>, chain: seq<Ptr>) {
    && NULL !in heap
    && (forall i, j :: 0 <= i < j < |chain| ==> chain[i] != chain[j])
    && (forall i {:trigger chain[i]} :: 0 <= i < |chain| ==>
          chain[i] in heap && heap[chain[i]].next == PtrAt(chain, i + 1))
  }

  function PtrAt(chain: seq<Ptr>, i: int): Ptr {
    if 0 <= i < |chain| then chain[i] else NULL
  }

  /** Every allocated node is linked or owned by one thread, never both; and malloc and free balance. */
  ghost predicate Memory(s: State) {
    && OwnedApart(s.threads, s.heap, s.chain)
    && s.heap.Keys == Elements(s.chain) + OwnedBy(s.threads)
    && s.mallocs == |s.heap| + s.frees
  }

  function OwnedBy(threads: seq<Pc>): set<Ptr> {
    set t | 0 <= t < |threads| && Owned(threads[t]) != NULL :: Owned(threads[t])
  }

  /** What a thread knows about its own node. */
  ghost predicate Private(pc: Pc, heap: map<Ptr, HeapNode>) {
    match pc
    case InsData(d, p) => p in heap
    case InsNext(d, p) => p in heap && heap[p].data == d
    case InsLock(d, p) => p in heap && heap[p] == HeapNode(NULL, d)
    case InsTest(d, p) => p in heap && heap[p] == HeapNode(NULL, d)
    case InsTail(d, p) => p in heap && heap[p] == HeapNode(NULL, d)
    case InsLink(d, p) => p in heap && heap[p] == HeapNode(NULL, d)
    case RemClearHead(_, p) => p in heap
    case RemFree(_, p) => p in heap
    case _ => true
  }

  /** What the lock holder knows about the list. */
  ghost predicate Shared(pc: Pc, heap: map<Ptr, HeapNode>, chain: seq<Ptr>) {
    match pc
    case InsTail(_, _) => chain == []
    case InsLink(_, _) => chain != []
    case InsHead(_, p) => chain == [p]
    case InsAdvance(_, p) => |chain| >= 2
    case RemCopy => chain != []
    case RemSave(d) => chain != [] && chain[0] in heap && heap[chain[0]].data == d
    case RemCompare(d, p) => chain != [] && chain[0] == p && p in heap && heap[p].data == d
    case RemClearTail(d, p) => chain == [p] && p in heap && heap[p].data == d
    case RemAdvance(d, p) => |chain| >= 2 && chain[0] == p && p in heap && heap[p].data == d
    case RemClearHead(_, _) => chain == []
    case _ => true
  }

  function Holder(s: State): Pc {
    if s.lock.Some? && s.lock.value < |s.threads| then s.threads[s.lock.value] else Idle
  }

  /** head and tail are the two ends of the chain, except in the middle of the four double updates. */
  ghost predicate Ends(holder: Pc, head: Ptr, tail: Ptr, chain: seq<Ptr>) {
    && head == (match holder
                case InsHead(_, _) => NULL
                case RemClearHead(_, p) => p
                case _ => PtrAt(chain, 0))
    && tail == (match holder
                case InsAdvance(_, _) => PtrAt(chain, |chain| - 2)
                case _ => PtrAt(chain, |chain| - 1))
  }

  ghost predicate Inv(s: State) {
    && !s.fault
    && Mutex(s)
    && Linked(s.heap, s.chain)
    && Memory(s)
    && (forall t {:trigger s.threads[t]} :: 0 <= t < |s.threads| ==> Private(s.threads[t], s.heap))
    && Shared(Holder(s), s.heap, s.chain)
    && Ends(Holder(s), s.head, s.tail, s.chain)
  }

  lemma InitInv(s: State)
    requires Init(s)
    ensures Inv(s)
  {
    assert s.heap.Keys == {};
  }

  // ---- every step keeps the invariant

  /** A step takes the lock, gives it back, or leaves it, in line with where the thread ends up. */
  lemma LockStep(s: State, t: nat, c: Choice)
    requires Inv(s) && Enabled(s, Run(t, c))
    ensures var s' := Exec(s, t, c);
            && (Critical(s'.threads[t]) <==> s'.lock == Some(t))
            && (s'.lock == s.lock || (s.lock == None && s'.lock == Some(t)) || (s.lock == Some(t) && s'.lock == None))
  {
    hide Linked, Memory, Private, Shared, Ends;
    assert Critical(s.threads[t]) <==> s.lock == Some(t);
  }

  lemma MutexKept(s: State, t: nat, c: Choice)
    requires Inv(s) && Enabled(s, Run(t, c))
    ensures Mutex(Exec(s, t, c))
  {
    hide Linked, Memory, Private, Shared, Ends, Exec, Critical;
    LockStep(s, t, c);
    var s' := Exec(s, t, c);
    forall u | 0 <= u < |s'.threads| ensures Critical(s'.threads[u]) <==> s'.lock == Some(u) {
      if u != t {
        assert s'.threads[u] == s.threads[u];
      }
    }
  }

  lemma HolderIs(s: State, t: nat)
    requires Mutex(s) && t < |s.threads|
    ensures Critical(s.threads[t]) ==> s.lock == Some(t) && Holder(s) == s.threads[t]
  {
  }

  /** No step touches memory that is not allocated, frees it twice, or unlocks without holding. */
  lemma NoFault(s: State, t: nat, c: Choice)
    requires Inv(s) && Enabled(s, Run(t, c))
    ensures !Exec(s, t, c).fault
  {
    hide Memory, Mutex;
    HolderIs(s, t);
    assert s.chain != [] ==> s.chain[0] in s.heap && s.chain[|s.chain| - 1] in s.heap;
    assert |s.chain| >= 2 ==> s.chain[|s.chain| - 2] in s.heap;
  }

  // effects on the linked nodes

  lemma LinkedWrite(heap: map<Ptr, HeapNode>, chain: seq<Ptr>, p: Ptr, n: HeapNode)
    requires Linked(heap, chain) && p != NULL && p !in chain
    ensures Linked(heap[p := n], chain)
  {
    assert forall i :: 0 <= i < |chain| ==> chain[i] != p;
  }

  lemma LinkedFree(heap: map<Ptr, HeapNode>, chain: seq<Ptr>, p: Ptr)
    requires Linked(heap, chain) && p !in chain
    ensures Linked(heap - {p}, chain)
  {
    assert forall i :: 0 <= i < |chain| ==> chain[i] != p;
  }

  lemma LinkedFirst(heap: map<Ptr, HeapNode>, p: Ptr)
    requires Linked(heap, []) && p in heap && heap[p].next == NULL
    ensures Linked(heap, [p])
  {
  }

  lemma LinkedAppend(heap: map<Ptr, HeapNode>, chain: seq<Ptr>, last: Ptr, p: Ptr)
    requires Linked(heap, chain) && chain != [] && last == PtrAt(chain, |chain| - 1)
    requires p in heap && p !in chain && heap[p].next == NULL
    ensures last in heap && Linked(heap[last := heap[last].(next := p)], chain + [p])
  {
    var t := chain + [p];
    forall i | 0 <= i < |chain| ensures t[i] == chain[i] && chain[i] != p && chain[i] in heap {
    }
    assert forall i :: 0 <= i < |chain| - 1 ==> chain[i] != chain[|chain| - 1];
  }

  lemma LinkedDrop(heap: map<Ptr, HeapNode>, chain: seq<Ptr>)
    requires Linked(heap, chain) && chain != []
    ensures Linked(heap, chain[1..])
    ensures chain[0] !in chain[1..]
  {
    var t := chain[1..];
    assert forall i :: 0 <= i < |t| ==> t[i] == chain[i + 1];
  }

  /** What a thread's own node looks like to it, and that the node is not linked. */
  lemma OwnNode(s: State, t: nat)
    requires Inv(s) && t < |s.threads|
    ensures Private(s.threads[t], s.heap)
    ensures Owned(s.threads[t]) != NULL ==> Owned(s.threads[t]) in s.heap && Owned(s.threads[t]) !in s.chain
    ensures forall i :: 0 <= i < |s.chain| ==> s.chain[i] in s.heap
    ensures NULL !in s.heap && forall p :: p in s.chain ==> p in s.heap
  {
  }

  lemma LinkedKept(s: State, t: nat, c: Choice)
    requires Inv(s) && Enabled(s, Run(t, c))
    ensures Linked(Exec(s, t, c).heap, Exec(s, t, c).chain)
  {
    hide Mutex, Linked, Memory;
    HolderIs(s, t);
    OwnNode(s, t);
    match s.threads[t]
    case InsMalloc(d) =>
      if c.p != NULL {
        LinkedWrite(s.heap, s.chain, c.p, c.garbage);
      }
    case InsData(d, p) => LinkedWrite(s.heap, s.chain, p, s.heap[p].(data := d));
    case InsNext(d, p) => LinkedWrite(s.heap, s.chain, p, s.heap[p].(next := NULL));
    case InsTail(d, p) =>
      LinkedFirst(s.heap, p);
      assert s.chain + [p] == [p];
    case InsLink(d, p) => LinkedAppend(s.heap, s.chain, s.tail, p);
    case RemClearTail(d, p) => LinkedDrop(s.heap, s.chain);
    case RemAdvance(d, p) => LinkedDrop(s.heap, s.chain);
    case RemFree(d, p) => LinkedFree(s.heap, s.chain, p);
    case _ =>
  }

  lemma OthersOwnElsewhere(s: State, t: nat, u: nat)
    requires Memory(s) && t < |s.threads| && u < |s.threads| && t != u
    ensures Owned(s.threads[u]) != NULL ==> Owned(s.threads[u]) != Owned(s.threads[t])
    ensures Owned(s.threads[u]) != NULL ==> Owned(s.threads[u]) in s.heap && Owned(s.threads[u]) !in s.chain
  {
  }

  /** A thread's knowledge about its own node survives any change elsewhere. */
  lemma PrivateStable(pc: Pc, h: map<Ptr, HeapNode>, h': map<Ptr, HeapNode>)
    requires Private(pc, h)
    requires var p := Owned(pc); p != NULL && p in h ==> p in h' && h'[p] == h[p]
    requires NULL !in h
    ensures Private(pc, h')
  {
  }

  /** The only addresses whose contents a step by `t` can change. */
  lemma HeapChange(s: State, t: nat, c: Choice, q: Ptr)
    requires Enabled(s, Run(t, c)) && q in s.heap
    requires q != Owned(s.threads[t]) && (s.threads[t].InsLink? ==> q != s.tail)
    ensures q in Exec(s, t, c).heap && Exec(s, t, c).heap[q] == s.heap[q]
  {
  }

  lemma PrivateKept(s: State, t: nat, c: Choice, u: nat)
    requires Inv(s) && Enabled(s, Run(t, c)) && u < |s.threads|
    ensures Private(Exec(s, t, c).threads[u], Exec(s, t, c).heap)
  {
    hide Mutex, Linked, Memory, Private;
    if u == t {
      PrivateOwn(s, t, c);
    } else {
      PrivateOther(s, t, c, u);
    }
  }

  lemma PrivateOther(s: State, t: nat, c: Choice, u: nat)
    requires Inv(s) && Enabled(s, Run(t, c)) && u < |s.threads| && u != t
    ensures Private(Exec(s, t, c).threads[u], Exec(s, t, c).heap)
  {
    hide Mutex, Linked, Memory, Private;
    HolderIs(s, t);
    OwnNode(s, u);
    OwnNode(s, t);
    OthersOwnElsewhere(s, t, u);
    var q := Owned(s.threads[u]);
    if q != NULL {
      if s.threads[t].InsLink? {
        assert s.tail in s.chain;
      }
      HeapChange(s, t, c, q);
    }
    assert Exec(s, t, c).threads[u] == s.threads[u];
    PrivateStable(s.threads[u], s.heap, Exec(s, t, c).heap);
  }

  lemma PrivateOwn(s: State, t: nat, c: Choice)
    requires Inv(s) && Enabled(s, Run(t, c))
    ensures Private(Exec(s, t, c).threads[t], Exec(s, t, c).heap)
  {
    hide Mutex, Linked, Memory;
    HolderIs(s, t);
    OwnNode(s, t);
  }

  // effects on head, tail and on what the lock holder knows

  /** Outside the lock a step leaves the list alone. */
  lemma OutsideLock(s: State, t: nat, c: Choice)
    requires Inv(s) && Enabled(s, Run(t, c)) && !Critical(s.threads[t])
    ensures var s' := Exec(s, t, c);
            && s'.chain == s.chain && s'.head == s.head && s'.tail == s.tail
            && s'.ins == s.ins && s'.rem == s.rem
            && forall q :: q in s.chain ==> q in s.heap && q in s'.heap && s'.heap[q] == s.heap[q]
  {
    hide Mutex, Linked, Memory, Shared, Ends;
    OwnNode(s, t);
  }

  lemma HolderOutside(s: State, t: nat, c: Choice)
    requires Inv(s) && Enabled(s, Run(t, c)) && !Critical(s.threads[t])
    ensures var s' := Exec(s, t, c);
            if s.threads[t].InsLock? || s.threads[t].RemLock? then
              Holder(s) == Idle && (Holder(s').InsTest? || Holder(s').RemTest?)
            else Holder(s') == Holder(s)
  {
    hide Linked, Memory, Shared, Ends, Private;
    assert s.lock != Some(t);
  }

  lemma HolderInside(s: State, t: nat, c: Choice)
    requires Inv(s) && Enabled(s, Run(t, c)) && Critical(s.threads[t])
    ensures s.lock == Some(t) && Holder(s) == s.threads[t]
    ensures var s' := Exec(s, t, c);
            Holder(s') == if s'.threads[t].Done? then Idle else s'.threads[t]
  {
    hide Linked, Memory, Shared, Ends, Private;
    HolderIs(s, t);
    MutexKept(s, t, c);
    HolderIs(Exec(s, t, c), t);
    NoFault(s, t, c);
  }

  lemma SharedKept(s: State, t: nat, c: Choice)
    requires Inv(s) && Enabled(s, Run(t, c))
    ensures var s' := Exec(s, t, c); Shared(Holder(s'), s'.heap, s'.chain)
  {
    hide Inv, Exec, Shared, Critical, Inserting, Holder;
    if !Critical(s.threads[t]) {
      SharedKeptOutside(s, t, c);
    } else if Inserting(s.threads[t]) {
      SharedKeptInsert(s, t, c);
    } else {
      SharedKeptRemove(s, t, c);
    }
  }

  lemma SharedKeptOutside(s: State, t: nat, c: Choice)
    requires Inv(s) && Enabled(s, Run(t, c)) && !Critical(s.threads[t])
    ensures var s' := Exec(s, t, c); Shared(Holder(s'), s'.heap, s'.chain)
  {
    hide Mutex, Linked, Memory, Private, Holder, Ends;
    HolderOutside(s, t, c);
    OutsideLock(s, t, c);
    assert s.chain != [] ==> s.chain[0] in s.chain;
  }

  lemma SharedKeptInsert(s: State, t: nat, c: Choice)
    requires Inv(s) && Enabled(s, Run(t, c)) && Critical(s.threads[t]) && Inserting(s.threads[t])
    ensures var s' := Exec(s, t, c); Shared(Holder(s'), s'.heap, s'.chain)
  {
    hide Mutex, Linked, Memory, Private, Holder;
    OwnNode(s, t);
    HolderInside(s, t, c);
  }

  lemma SharedKeptRemove(s: State, t: nat, c: Choice)
    requires Inv(s) && Enabled(s, Run(t, c)) && Critical(s.threads[t]) && !Inserting(s.threads[t])
    ensures var s' := Exec(s, t, c); Shared(Holder(s'), s'.heap, s'.chain)
  {
    hide Mutex, Linked, Memory, Private, Holder;
    OwnNode(s, t);
    HolderInside(s, t, c);
    EndsDiffer(s);
  }

  lemma EndsKept(s: State, t: nat, c: Choice)
    requires Inv(s) && Enabled(s, Run(t, c))
    ensures var s' := Exec(s, t, c); Ends(Holder(s'), s'.head, s'.tail, s'.chain)
  {
    hide Mutex, Linked, Memory, Private, Holder, Shared;
    if Critical(s.threads[t]) {
      EndsKeptInside(s, t, c);
    } else {
      HolderOutside(s, t, c);
      OutsideLock(s, t, c);
    }
  }

  lemma EndsKeptInside(s: State, t: nat, c: Choice)
    requires Inv(s) && Enabled(s, Run(t, c)) && Critical(s.threads[t])
    ensures var s' := Exec(s, t, c); Ends(Holder(s'), s'.head, s'.tail, s'.chain)
  {
    hide Inv, Exec, Ends, Critical, Inserting, Unlinking, Holder;
    if Inserting(s.threads[t]) {
      EndsKeptInsert(s, t, c);
    } else if Unlinking(s.threads[t]) {
      EndsKeptUnlink(s, t, c);
    } else {
      EndsKeptRemove(s, t, c);
    }
  }

  lemma EndsKeptInsert(s: State, t: nat, c: Choice)
    requires Inv(s) && Enabled(s, Run(t, c)) && Critical(s.threads[t]) && Inserting(s.threads[t])
    ensures var s' := Exec(s, t, c); Ends(Holder(s'), s'.head, s'.tail, s'.chain)
  {
    hide Mutex, Linked, Memory, Private, Holder;
    HolderInside(s, t, c);
    OwnNode(s, t);
    NextInChain(s);
  }

  lemma EndsKeptUnlink(s: State, t: nat, c: Choice)
    requires Inv(s) && Enabled(s, Run(t, c)) && Critical(s.threads[t]) && Unlinking(s.threads[t])
    ensures var s' := Exec(s, t, c); Ends(Holder(s'), s'.head, s'.tail, s'.chain)
  {
    hide Mutex, Linked, Memory, Private, Holder;
    HolderInside(s, t, c);
    NextInChain(s);
  }

  lemma EndsKeptRemove(s: State, t: nat, c: Choice)
    requires Inv(s) && Enabled(s, Run(t, c)) && Critical(s.threads[t])
    requires !Inserting(s.threads[t]) && !Unlinking(s.threads[t])
    ensures var s' := Exec(s, t, c); Ends(Holder(s'), s'.head, s'.tail, s'.chain)
  {
    hide Mutex, Linked, Memory, Private, Holder;
    HolderInside(s, t, c);
  }

  lemma NextInChain(s: State)
    requires Linked(s.heap, s.chain)
    ensures forall i {:trigger s.chain[i]} :: 0 <= i < |s.chain| ==>
              s.chain[i] in s.heap && s.heap[s.chain[i]].next == PtrAt(s.chain, i + 1)
  {
  }

  lemma EndsDiffer(s: State)
    requires Linked(s.heap, s.chain)
    ensures |s.chain| >= 2 ==> s.chain[0] != s.chain[|s.chain| - 1]
  {
  }

  // effects on the allocated memory

  lemma OwnedByUpdate(threads: seq<Pc>, t: nat, pc: Pc)
    requires t < |threads|
    requires forall u :: 0 <= u < |threads| && u != t && Owned(threads[t]) != NULL ==>
               Owned(threads[u]) != Owned(threads[t])
    ensures OwnedBy(threads[t := pc])
            == OwnedBy(threads) - {Owned(threads[t])} + (if Owned(pc) == NULL then {} else {Owned(pc)})
  {
    var threads' := threads[t := pc];
    var rhs := OwnedBy(threads) - {Owned(threads[t])} + (if Owned(pc) == NULL then {} else {Owned(pc)});
    forall p ensures p in OwnedBy(threads') <==> p in rhs {
      if p in OwnedBy(threads') {
        var u :| 0 <= u < |threads'| && Owned(threads'[u]) != NULL && Owned(threads'[u]) == p;
        assert u != t ==> threads'[u] == threads[u];
      }
      if p in OwnedBy(threads) && p != Owned(threads[t]) {
        var u :| 0 <= u < |threads| && Owned(threads[u]) != NULL && Owned(threads[u]) == p;
        assert threads'[u] == threads[u];
      }
      if p == Owned(pc) && p != NULL {
        assert threads'[t] == pc;
      }
    }
  }

  /** Owned nodes are allocated, not linked, and owned by one thread. */
  ghost predicate OwnedApart(threads: seq<Pc>, heap: map<Ptr, HeapNode>, chain: seq<Ptr>) {
    && (forall t {:trigger threads[t]} :: 0 <= t < |threads| && Owned(threads[t]) != NULL ==>
          Owned(threads[t]) in heap && Owned(threads[t]) !in chain)
    && (forall t, u {:trigger threads[t], threads[u]} :: 0 <= t < u < |threads| && Owned(threads[t]) != NULL ==>
          Owned(threads[t]) != Owned(threads[u]))
  }

  lemma OwnedApartUpdate(threads: seq<Pc>, heap: map<Ptr, HeapNode>, chain: seq<Ptr>, t: nat, pc: Pc,
                         heap': map<Ptr, HeapNode>, chain': seq<Ptr>)
    requires OwnedApart(threads, heap, chain) && t < |threads|
    requires forall u {:trigger threads[u]} :: 0 <= u < |threads| && u != t && Owned(threads[u]) != NULL ==>
               Owned(threads[u]) in heap' && Owned(threads[u]) !in chain' && Owned(threads[u]) != Owned(pc)
    requires Owned(pc) != NULL ==> Owned(pc) in heap' && Owned(pc) !in chain'
    ensures OwnedApart(threads[t := pc], heap', chain')
  {
  }

  /** How a step moves nodes between the free store, private ownership and the list. */
  datatype Move = Stay | Take(p: Ptr) | LinkIn(p: Ptr) | LinkOut(p: Ptr) | GiveBack(p: Ptr)

  function MoveOf(s: State, t: nat, c: Choice): Move
    requires t < |s.threads|
  {
    match s.threads[t]
    case InsMalloc(_) => if c.p == NULL then Stay else Take(c.p)
    case InsTail(_, p) => LinkIn(p)
    case InsLink(_, p) => LinkIn(p)
    case RemClearTail(_, p) => LinkOut(p)
    case RemAdvance(_, p) => LinkOut(p)
    case RemFree(_, p) => GiveBack(p)
    case _ => Stay
  }

  ghost predicate Moved(s: State, s': State, t: nat, m: Move)
    requires t < |s.threads| && t < |s'.threads|
  {
    var o, o' := Owned(s.threads[t]), Owned(s'.threads[t]);
    && s'.threads == s.threads[t := s'.threads[t]]
    && (m.Take? || s'.mallocs == s.mallocs) && (m.GiveBack? || s'.frees == s.frees)
    && (m.Take? || m.GiveBack? || s'.heap.Keys == s.heap.Keys)
    && (m.LinkIn? || m.LinkOut? || s'.chain == s.chain)
    && match m
       case Stay => o' == o
       case Take(p) => o == NULL && o' == p && p != NULL && p !in s.heap
                       && s'.heap.Keys == s.heap.Keys + {p} && s'.mallocs == s.mallocs + 1
       case LinkIn(p) => o == p && p != NULL && o' == NULL && s'.chain == s.chain + [p]
       case LinkOut(p) => o == NULL && o' == p && p != NULL && s.chain == [p] + s'.chain
       case GiveBack(p) => o == p && p != NULL && p in s.heap && o' == NULL
                           && s'.heap.Keys == s.heap.Keys - {p} && s'.frees == s.frees + 1
  }

  lemma MoveEffect(s: State, t: nat, c: Choice)
    requires Inv(s) && Enabled(s, Run(t, c))
    ensures Moved(s, Exec(s, t, c), t, MoveOf(s, t, c))
  {
    hide Mutex, Linked, Memory, Shared, Ends, Private, Moved, Exec;
    if MoveOf(s, t, c).Stay? {
      MoveNothing(s, t, c);
    } else {
      MoveSomething(s, t, c);
    }
  }

  lemma MoveNothing(s: State, t: nat, c: Choice)
    requires Inv(s) && Enabled(s, Run(t, c)) && MoveOf(s, t, c).Stay?
    ensures Moved(s, Exec(s, t, c), t, Stay)
  {
    hide Inv, Exec, Moved, MoveOf, Inserting;
    if Inserting(s.threads[t]) {
      MoveNothingInsert(s, t, c);
    } else {
      MoveNothingRemove(s, t, c);
    }
  }

  lemma MoveNothingInsert(s: State, t: nat, c: Choice)
    requires Inv(s) && Enabled(s, Run(t, c)) && MoveOf(s, t, c).Stay? && Inserting(s.threads[t])
    ensures Moved(s, Exec(s, t, c), t, Stay)
  {
    hide Mutex, Linked, Memory, Shared, Ends, Private;
    NoFault(s, t, c);
  }

  lemma MoveNothingRemove(s: State, t: nat, c: Choice)
    requires Inv(s) && Enabled(s, Run(t, c)) && MoveOf(s, t, c).Stay? && !Inserting(s.threads[t])
    ensures Moved(s, Exec(s, t, c), t, Stay)
  {
    hide Mutex, Linked, Memory, Shared, Ends, Private;
    NoFault(s, t, c);
  }

  lemma MoveSomething(s: State, t: nat, c: Choice)
    requires Inv(s) && Enabled(s, Run(t, c)) && !MoveOf(s, t, c).Stay?
    ensures Moved(s, Exec(s, t, c), t, MoveOf(s, t, c))
  {
    hide Mutex, Linked, Memory, Ends;
    NoFault(s, t, c);
    HolderIs(s, t);
    OwnNode(s, t);
  }

  lemma ElementsAppend(chain: seq<Ptr>, p: Ptr)
    ensures Elements(chain + [p]) == Elements(chain) + {p}
    ensures Elements([p] + chain) == Elements(chain) + {p}
  {
  }

  lemma KeysKept(s: State, t: nat, c: Choice)
    requires Inv(s) && Enabled(s, Run(t, c))
    ensures var s' := Exec(s, t, c); s'.heap.Keys == Elements(s'.chain) + OwnedBy(s'.threads)
  {
    hide Mutex, Linked, Private, Shared, Ends, Exec, MoveOf, OwnedBy, OwnedApart;
    MoveEffect(s, t, c);
    var s' := Exec(s, t, c);
    forall u | 0 <= u < |s.threads| && u != t && Owned(s.threads[t]) != NULL
      ensures Owned(s.threads[u]) != Owned(s.threads[t])
    {
      OthersOwnElsewhere(s, t, u);
    }
    OwnedByUpdate(s.threads, t, s'.threads[t]);
    OwnedNotLinked(s);
    OwnedIsCounted(s.threads, t);
    KeysMove(s, s', t, MoveOf(s, t, c));
  }

  /** The bookkeeping of one move, as an equation between sets of addresses. */
  lemma KeysMove(s: State, s': State, t: nat, m: Move)
    requires t < |s.threads| && t < |s'.threads| && Moved(s, s', t, m)
    requires s.heap.Keys == Elements(s.chain) + OwnedBy(s.threads)
    requires forall p :: p in OwnedBy(s.threads) ==> p !in s.chain && p != NULL
    requires OwnedBy(s'.threads)
             == OwnedBy(s.threads) - {Owned(s.threads[t])}
                + (if Owned(s'.threads[t]) == NULL then {} else {Owned(s'.threads[t])})
    requires Owned(s.threads[t]) != NULL ==> Owned(s.threads[t]) in OwnedBy(s.threads)
    ensures s'.heap.Keys == Elements(s'.chain) + OwnedBy(s'.threads)
  {
    hide OwnedBy, Owned;
    match m
    case LinkIn(p) => ElementsAppend(s.chain, p);
    case LinkOut(p) => ElementsAppend(s'.chain, p);
    case GiveBack(p) => assert p !in Elements(s.chain);
    case Take(p) =>
    case Stay =>
  }

  lemma OwnedIsCounted(threads: seq<Pc>, t: nat)
    requires t < |threads|
    ensures Owned(threads[t]) != NULL ==> Owned(threads[t]) in OwnedBy(threads)
  {
  }

  lemma OwnedNotLinked(s: State)
    requires Memory(s)
    ensures forall p :: p in OwnedBy(s.threads) ==> p !in s.chain && p != NULL
  {
  }

  lemma CountKept(s: State, t: nat, c: Choice)
    requires Inv(s) && Enabled(s, Run(t, c))
    ensures var s' := Exec(s, t, c); s'.mallocs == |s'.heap| + s'.frees
  {
    hide Mutex, Linked, Private, Shared, Ends, Exec, MoveOf;
    MoveEffect(s, t, c);
    var s' := Exec(s, t, c);
    assert |s.heap| == |s.heap.Keys| && |s'.heap| == |s'.heap.Keys|;
  }

  lemma OwnedApartKept(s: State, t: nat, c: Choice)
    requires Inv(s) && Enabled(s, Run(t, c))
    ensures var s' := Exec(s, t, c); OwnedApart(s'.threads, s'.heap, s'.chain)
  {
    hide Mutex, Linked, Private, Shared, Ends, Exec, MoveOf;
    MoveEffect(s, t, c);
    OwnNode(s, t);
    var s' := Exec(s, t, c);
    forall u | 0 <= u < |s.threads| && u != t && Owned(s.threads[u]) != NULL
      ensures Owned(s.threads[u]) in s'.heap && Owned(s.threads[u]) !in s'.chain
      ensures Owned(s.threads[u]) != Owned(s'.threads[t])
    {
      OthersOwnElsewhere(s, t, u);
      if MoveOf(s, t, c).LinkOut? {
        assert s.chain[0] in s.chain;
        assert forall q :: q in s'.chain ==> q in s.chain;
      }
    }
    if MoveOf(s, t, c).LinkOut? {
      LinkedDrop(s.heap, s.chain);
      assert s.chain[1..] == s'.chain;
      assert s.chain[0] in s.chain;
    }
    OwnedApartUpdate(s.threads, s.heap, s.chain, t, s'.threads[t], s'.heap, s'.chain);
  }

  /** Every step inside a call keeps the invariant. */
  lemma InvKept(s: State, t: nat, c: Choice)
    requires Inv(s) && Enabled(s, Run(t, c))
    ensures Inv(Exec(s, t, c))
  {
    hide Mutex, Linked, Private, Shared, Ends, Exec, Holder, OwnedApart, OwnedBy;
    NoFault(s, t, c);
    MutexKept(s, t, c);
    LinkedKept(s, t, c);
    OwnedApartKept(s, t, c);
    KeysKept(s, t, c);
    CountKept(s, t, c);
    forall u | 0 <= u < |Exec(s, t, c).threads| ensures Private(Exec(s, t, c).threads[u], Exec(s, t, c).heap) {
      MoveEffect(s, t, c);
      PrivateKept(s, t, c, u);
    }
    SharedKept(s, t, c);
    EndsKept(s, t, c);
  }

  /** So does a call being made. */
  lemma InvKeptByCall(s: State, t: nat, op: Op)
    requires Inv(s) && Enabled(s, Call(t, op))
    ensures Inv(Step(s, Call(t, op)))
  {
    hide Linked, Shared, Ends, Memory, Private, Mutex, Holder;
    CallMemory(s, t, op);
    CallPrivate(s, t, op);
    CallHolder(s, t, op);
  }

  lemma CallMemory(s: State, t: nat, op: Op)
    requires Inv(s) && Enabled(s, Call(t, op))
    ensures Memory(Step(s, Call(t, op)))
  {
    hide Linked, Shared, Ends, OwnedApart, OwnedBy, Private, Mutex, Holder;
    var s' := Step(s, Call(t, op));
    OwnedByUpdate(s.threads, t, s'.threads[t]);
    OwnedNotLinked(s);
    forall u | 0 <= u < |s.threads| && u != t && Owned(s.threads[u]) != NULL
      ensures Owned(s.threads[u]) in s'.heap && Owned(s.threads[u]) !in s'.chain
    {
      OthersOwnElsewhere(s, t, u);
    }
    OwnedApartUpdate(s.threads, s.heap, s.chain, t, s'.threads[t], s'.heap, s'.chain);
    assert OwnedBy(s'.threads) == OwnedBy(s.threads);
  }

  lemma CallPrivate(s: State, t: nat, op: Op)
    requires Inv(s) && Enabled(s, Call(t, op))
    ensures var s' := Step(s, Call(t, op));
            forall u {:trigger s'.threads[u]} :: 0 <= u < |s'.threads| ==> Private(s'.threads[u], s'.heap)
  {
    hide Linked, Shared, Ends, Memory, Mutex;
  }

  lemma CallHolder(s: State, t: nat, op: Op)
    requires Inv(s) && Enabled(s, Call(t, op))
    ensures var s' := Step(s, Call(t, op)); Mutex(s') && Holder(s') == Holder(s)
  {
    hide Linked, Shared, Ends, Memory, Private;
    assert s.lock != Some(t);
  }

  lemma StepInv(s: State, a: Action)
    requires Inv(s) && Enabled(s, a)
    ensures Inv(Step(s, a))
  {
    hide Inv, Exec;
    match a
    case Call(t, op) => InvKeptByCall(s, t, op);
    case Run(t, c) => InvKept(s, t, c);
  }
}
