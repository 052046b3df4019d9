/** The threads of SBufferThreads implement an atomic FIFO queue: every run of the statements is a run of
    the queue in which each call takes effect at one point. */
module SBufferRefinement {
  import opened Util
  import opened Windows
  import opened SBufferThreads

  // ---- the atomic queue

  datatype CallState = NotCalled | Pending(op: Op) | Finished(result: Result) | Returned(result: Result)

  datatype Spec = Spec(queue: seq<Reading>, calls: seq<CallState>, ins: seq<Entry>, rem: seq<Entry>)

  datatype Outcome = Outcome(result: Result, queue: seq<Reading>, inserted: seq<Reading>, removed: seq<Reading>)

  /** `o` is a legal effect of `op` on the queue, all at once. */
  ghost predicate Effect(op: Op, queue: seq<Reading>, o: Outcome) {
    match op
    case Insert(d) =>
      || o == Outcome(Success, queue + [d], [d], [])
      || o == Outcome(Failure, queue, [], [])
    case Remove =>
      if queue == [] then o == Outcome(NoData, queue, [], [])
      else o == Outcome(Got(queue[0]), queue[1..], [], [queue[0]])
  }

  function Tag(t: nat, ds: seq<Reading>): seq<Entry> {
    seq(|ds|, i requires 0 <= i < |ds| => Entry(t, ds[i]))
  }

  /** The readings logged for thread `t`, in order. */
  function Share(es: seq<Entry>, t: nat): seq<Reading> {
    if es == [] then []
    else Share(es[..|es| - 1], t) + (if es[|es| - 1].thread == t then [es[|es| - 1].data] else [])
  }

  datatype SpecStep = Invokes(op: Op) | Commits(o: Outcome) | Returns | Stutters

  ghost predicate SpecNext(a: Spec, b: Spec, t: nat, k: SpecStep) {
    && t < |a.calls|
    && match k
       case Stutters => b == a
       case Invokes(op) =>
         (a.calls[t].NotCalled? || a.calls[t].Returned?) && b == a.(calls := a.calls[t := Pending(op)])
       case Commits(o) =>
         && a.calls[t].Pending? && Effect(a.calls[t].op, a.queue, o)
         && b == Spec(o.queue, a.calls[t := Finished(o.result)],
                      a.ins + Tag(t, o.inserted), a.rem + Tag(t, o.removed))
       case Returns =>
         a.calls[t].Finished? && b == a.(calls := a.calls[t := Returned(a.calls[t].result)])
  }

  ghost predicate SpecInit(a: Spec) {
    && a.queue == [] && a.ins == [] && a.rem == []
    && forall t :: 0 <= t < |a.calls| ==> a.calls[t] == NotCalled
  }

  // ---- what the concrete state means

  function Meaning(pc: Pc): CallState {
    match pc
    case Idle => NotCalled
    case Done(r) => Returned(r)
    case InsMalloc(d) => Pending(Insert(d))
    case InsFail => Finished(Failure)
    case InsData(d, _) => Pending(Insert(d))
    case InsNext(d, _) => Pending(Insert(d))
    case InsLock(d, _) => Pending(Insert(d))
    case InsTest(d, _) => Pending(Insert(d))
    case InsTail(d, _) => Pending(Insert(d))
    case InsLink(d, _) => Pending(Insert(d))
    case InsHead(_, _) => Finished(Success)
    case InsAdvance(_, _) => Finished(Success)
    case InsUnlock => Finished(Success)
    case RemUnlockEmpty => Finished(NoData)
    case RemClearHead(d, _) => Finished(Got(d))
    case RemFree(d, _) => Finished(Got(d))
    case RemUnlock(d) => Finished(Got(d))
    case _ => Pending(Remove)
  }

  /** The readings along the chain. */
  function Queue(s: State): seq<Reading> {
    DataOf(s.heap, s.chain)
  }

  function DataOf(heap: map<Ptr, HeapNode>, chain: seq<Ptr>): (q: seq<Reading>)
    ensures |q| == |chain|
    ensures forall i :: 0 <= i < |chain| && chain[i] in heap ==> q[i] == heap[chain[i]].data
  {
    seq(|chain|, i requires 0 <= i < |chain| => if chain[i] in heap then heap[chain[i]].data else Reading(0, 0.0, 0))
  }

  function Calls(threads: seq<Pc>): seq<CallState> {
    seq(|threads|, i requires 0 <= i < |threads| => Meaning(threads[i]))
  }

  function Abs(s: State): Spec {
    Spec(Queue(s), Calls(s.threads), s.ins, s.rem)
  }

  // ---- refinement of the atomic queue

  /** Which step of the atomic queue a concrete step is. */
  function Image(s: State, a: Action): SpecStep
    requires Enabled(s, a)
  {
    match a
    case Call(_, op) => Invokes(op)
    case Run(t, c) =>
      match s.threads[t]
      case InsMalloc(d) => if c.p == NULL then Commits(Outcome(Failure, Queue(s), [], [])) else Stutters
      case InsTail(d, _) => Commits(Outcome(Success, Queue(s) + [d], [d], []))
      case InsLink(d, _) => Commits(Outcome(Success, Queue(s) + [d], [d], []))
      case RemTest => if s.head == NULL then Commits(Outcome(NoData, [], [], [])) else Stutters
      case RemClearTail(d, _) => Commits(Outcome(Got(d), Tail(Queue(s)), [], [d]))
      case RemAdvance(d, _) => Commits(Outcome(Got(d), Tail(Queue(s)), [], [d]))
      case InsFail => Returns
      case InsUnlock => Returns
      case RemUnlockEmpty => Returns
      case RemUnlock(_) => Returns
      case _ => Stutters
  }

  lemma DataSame(h: map<Ptr, HeapNode>, h': map<Ptr, HeapNode>, chain: seq<Ptr>)
    requires forall q :: q in chain ==> q in h && q in h' && h'[q].data == h[q].data
    ensures DataOf(h', chain) == DataOf(h, chain)
  {
  }

  lemma DataAppend(h: map<Ptr, HeapNode>, chain: seq<Ptr>, p: Ptr)
    requires p in h
    ensures DataOf(h, chain + [p]) == DataOf(h, chain) + [h[p].data]
  {
  }

  lemma DataDrop(h: map<Ptr, HeapNode>, chain: seq<Ptr>)
    requires chain != [] && chain[0] in h
    ensures DataOf(h, chain) == [h[chain[0]].data] + DataOf(h, chain[1..])
  {
  }

  /** No step changes the data of a linked node. */
  lemma LinkedDataKept(s: State, t: nat, c: Choice)
    requires Inv(s) && Enabled(s, Run(t, c)) && !s.threads[t].RemFree?
    ensures forall q :: q in s.chain ==>
              (q in s.heap && q in Exec(s, t, c).heap && Exec(s, t, c).heap[q].data == s.heap[q].data)
  {
    hide Mutex, Memory, Linked, Shared, Ends, Private;
    OwnNode(s, t);
  }

  /** The data along the chain, before and after one step. */
  lemma QueueKept(s: State, t: nat, c: Choice)
    requires Inv(s) && Enabled(s, Run(t, c))
    ensures match s.threads[t]
            case InsTail(d, _) => Queue(Exec(s, t, c)) == Queue(s) + [d]
            case InsLink(d, _) => Queue(Exec(s, t, c)) == Queue(s) + [d]
            case RemClearTail(d, _) => Queue(s) == [d] + Queue(Exec(s, t, c))
            case RemAdvance(d, _) => Queue(s) == [d] + Queue(Exec(s, t, c))
            case _ => Queue(Exec(s, t, c)) == Queue(s)
  {
    hide Mutex, Memory, Linked, DataOf, Ends;
    HolderIs(s, t);
    OwnNode(s, t);
    NoFault(s, t, c);
    var pc := s.threads[t];
    if pc.InsTail? {
      DataAppend(s.heap, s.chain, pc.p);
    } else if pc.RemClearTail? || pc.RemAdvance? {
      DataDrop(s.heap, s.chain);
    } else if pc.RemFree? {
      DataSame(s.heap, s.heap - {pc.p}, s.chain);
    } else {
      LinkedDataKept(s, t, c);
      DataSame(s.heap, Exec(s, t, c).heap, s.chain);
      if pc.InsLink? {
        DataAppend(Exec(s, t, c).heap, s.chain, pc.p);
      }
    }
  }

  lemma InitImage(s: State)
    requires Init(s)
    ensures SpecInit(Abs(s)) && Readings(s.ins) == Readings(s.rem) + Queue(s)
  {
  }

  lemma CallsUpdate(threads: seq<Pc>, t: nat, pc: Pc)
    requires t < |threads|
    ensures Calls(threads[t := pc]) == Calls(threads)[t := Meaning(pc)]
    ensures Meaning(pc) == Meaning(threads[t]) ==> Calls(threads[t := pc]) == Calls(threads)
  {
  }

  lemma HeadTellsEmpty(s: State, t: nat)
    requires Inv(s) && t < |s.threads| && s.threads[t].RemTest?
    ensures s.head == NULL <==> Queue(s) == []
  {
    hide Memory, Private;
    HolderIs(s, t);
    OwnNode(s, t);
  }

  lemma LogsKept(s: State, t: nat, c: Choice)
    requires Inv(s) && Enabled(s, Run(t, c))
    ensures var s' := Exec(s, t, c);
            match s.threads[t]
            case InsTail(d, _) => s'.ins == s.ins + [Entry(t, d)] && s'.rem == s.rem
            case InsLink(d, _) => s'.ins == s.ins + [Entry(t, d)] && s'.rem == s.rem
            case RemClearTail(d, _) => s'.ins == s.ins && s'.rem == s.rem + [Entry(t, d)]
            case RemAdvance(d, _) => s'.ins == s.ins && s'.rem == s.rem + [Entry(t, d)]
            case _ => s'.ins == s.ins && s'.rem == s.rem
  {
    hide Memory, Private, Shared, Ends, Linked, Mutex;
    NoFault(s, t, c);
  }

  /** The status of the call moves as the image of the step says. */
  ghost predicate MeaningMoves(k: SpecStep, before: CallState, after: CallState) {
    match k
    case Commits(o) => before.Pending? && after == Finished(o.result)
    case Returns => before.Finished? && after == Returned(before.result)
    case _ => after == before
  }

  lemma MeaningKept(s: State, t: nat, c: Choice)
    requires Inv(s) && Enabled(s, Run(t, c))
    ensures MeaningMoves(Image(s, Run(t, c)), Meaning(s.threads[t]), Meaning(Exec(s, t, c).threads[t]))
  {
    hide Inv, Exec, Meaning, MeaningMoves, Queue, Image, Inserting, Unlinking;
    if Inserting(s.threads[t]) {
      MeaningKeptInsert(s, t, c);
    } else if Unlinking(s.threads[t]) {
      MeaningKeptUnlinking(s, t, c);
    } else {
      MeaningKeptRemove(s, t, c);
    }
  }

  lemma MeaningKeptInsert(s: State, t: nat, c: Choice)
    requires Inv(s) && Enabled(s, Run(t, c)) && Inserting(s.threads[t])
    ensures MeaningMoves(Image(s, Run(t, c)), Meaning(s.threads[t]), Meaning(Exec(s, t, c).threads[t]))
  {
    hide Memory, Private, Shared, Ends, Linked, Mutex, Queue;
    NoFault(s, t, c);
  }

  lemma MeaningKeptUnlinking(s: State, t: nat, c: Choice)
    requires Inv(s) && Enabled(s, Run(t, c)) && Unlinking(s.threads[t])
    ensures MeaningMoves(Image(s, Run(t, c)), Meaning(s.threads[t]), Meaning(Exec(s, t, c).threads[t]))
  {
    hide Memory, Private, Shared, Ends, Linked, Mutex, Queue;
    NoFault(s, t, c);
  }

  lemma MeaningKeptRemove(s: State, t: nat, c: Choice)
    requires Inv(s) && Enabled(s, Run(t, c)) && !Inserting(s.threads[t]) && !Unlinking(s.threads[t])
    ensures MeaningMoves(Image(s, Run(t, c)), Meaning(s.threads[t]), Meaning(Exec(s, t, c).threads[t]))
  {
    hide Memory, Private, Shared, Ends, Linked, Mutex, Queue;
    NoFault(s, t, c);
  }

  lemma ImageEffect(s: State, t: nat, c: Choice)
    requires Inv(s) && Enabled(s, Run(t, c)) && Image(s, Run(t, c)).Commits?
    ensures var o := Image(s, Run(t, c)).o;
            && Meaning(s.threads[t]).Pending? && Effect(Meaning(s.threads[t]).op, Queue(s), o)
            && o.queue == Queue(Exec(s, t, c))
            && Exec(s, t, c).ins == s.ins + Tag(t, o.inserted) && Exec(s, t, c).rem == s.rem + Tag(t, o.removed)
  {
    hide Inv, Exec, Queue;
    QueueKept(s, t, c);
    LogsKept(s, t, c);
    if s.threads[t].RemTest? {
      HeadTellsEmpty(s, t);
    }
    var o := Image(s, Run(t, c)).o;
    assert Tag(t, []) == [] && s.ins + [] == s.ins && s.rem + [] == s.rem;
    assert o.inserted != [] ==> Tag(t, o.inserted) == [Entry(t, o.inserted[0])];
    assert o.removed != [] ==> Tag(t, o.removed) == [Entry(t, o.removed[0])];
  }

  /** Every concrete step is one step of the atomic queue, or none. */
  lemma StepRefines(s: State, a: Action)
    requires Inv(s) && Enabled(s, a)
    ensures SpecNext(Abs(s), Abs(Step(s, a)), a.t, Image(s, a))
  {
    hide Inv, Exec, Meaning, Effect, Tag, Queue;
    match a
    case Call(t, op) => CallRefines(s, t, op);
    case Run(t, c) =>
      MeaningKept(s, t, c);
      CallsUpdate(s.threads, t, Exec(s, t, c).threads[t]);
      if Image(s, a).Commits? {
        ImageEffect(s, t, c);
      } else {
        QueueKept(s, t, c);
        LogsKept(s, t, c);
      }
  }

  lemma CallRefines(s: State, t: nat, op: Op)
    requires Inv(s) && Enabled(s, Call(t, op))
    ensures SpecNext(Abs(s), Abs(Step(s, Call(t, op))), t, Invokes(op))
  {
    hide Inv, Exec, DataOf;
    CallsUpdate(s.threads, t, Step(s, Call(t, op)).threads[t]);
  }

  /** Every operation takes effect, removals that find the buffer empty included, only while its thread
      holds the lock. (An insertion whose malloc fails has no effect and never locks.) */
  lemma EffectsInsideLock(s: State, a: Action)
    requires Inv(s) && Enabled(s, a) && Image(s, a).Commits? && Image(s, a).o.result != Failure
    ensures s.lock == Some(a.t) && Step(s, a).lock == Some(a.t)
  {
    hide Memory, Private, Shared, Ends, Linked, Queue, Mutex;
    HolderIs(s, a.t);
    NoFault(s, a.t, a.choice);
  }

  /** The queue changes in no other step. */
  lemma ChangesAreEffects(s: State, a: Action)
    requires Inv(s) && Enabled(s, a) && Queue(Step(s, a)) != Queue(s)
    ensures Image(s, a).Commits? && Image(s, a).o.result != Failure
  {
    hide Inv, DataOf, Exec;
    if a.Run? {
      QueueKept(s, a.t, a.choice);
    }
  }

  // ---- whole runs

  ghost predicate IsRun(states: seq<State>, actions: seq<Action>) {
    && |states| == |actions| + 1
    && Init(states[0])
    && forall i :: 0 <= i < |actions| ==> Enabled(states[i], actions[i]) && states[i + 1] == Step(states[i], actions[i])
  }

  /** The same run, seen as a run of the atomic queue. */
  ghost predicate IsSpecRun(specs: seq<Spec>, who: seq<nat>, kinds: seq<SpecStep>) {
    && |specs| == |who| + 1 == |kinds| + 1
    && SpecInit(specs[0])
    && forall i :: 0 <= i < |who| ==> SpecNext(specs[i], specs[i + 1], who[i], kinds[i])
  }

  /** In every reachable state: no memory fault, mutual exclusion, well-formed links and exact accounting. */
  lemma {:induction false} RunInv(states: seq<State>, actions: seq<Action>, i: nat)
    requires IsRun(states, actions) && i < |states|
    ensures Inv(states[i])
  {
    hide Inv, Step, Enabled;
    if i == 0 {
      InitInv(states[0]);
    } else {
      RunInv(states, actions, i - 1);
      assert Enabled(states[i - 1], actions[i - 1]) && states[i - 1 + 1] == Step(states[i - 1], actions[i - 1]);
      StepInv(states[i - 1], actions[i - 1]);
    }
  }

  /** Every run, by any number of threads, is a run of the atomic queue with the same calls, the same
      results and the same order of effects. */
  lemma RunRefines(states: seq<State>, actions: seq<Action>)
    requires IsRun(states, actions)
    ensures IsSpecRun(seq(|states|, i requires 0 <= i < |states| => Abs(states[i])),
                      seq(|actions|, i requires 0 <= i < |actions| => actions[i].t),
                      seq(|actions|, i requires 0 <= i < |actions| && Enabled(states[i], actions[i]) =>
                        Image(states[i], actions[i])))
  {
    hide Inv, Step, Enabled, SpecNext, Image, Abs, SpecInit;
    InitImage(states[0]);
    forall i | 0 <= i < |actions|
      ensures SpecNext(Abs(states[i]), Abs(states[i + 1]), actions[i].t, Image(states[i], actions[i]))
    {
      RunInv(states, actions, i);
      StepRefines(states[i], actions[i]);
    }
  }

  function Readings(es: seq<Entry>): seq<Reading> {
    seq(|es|, i requires 0 <= i < |es| => es[i].data)
  }

  lemma ReadingsConcat(a: seq<Entry>, b: seq<Entry>)
    ensures Readings(a + b) == Readings(a) + Readings(b)
  {
  }

  lemma Reassociate(ins: seq<Reading>, rem: seq<Reading>, queue: seq<Reading>,
                    inserted: seq<Reading>, removed: seq<Reading>, queue': seq<Reading>)
    requires ins == rem + queue && queue + inserted == removed + queue'
    ensures ins + inserted == rem + removed + queue'
  {
    assert ins + inserted == rem + (queue + inserted);
  }

  /** The atomic queue is first in, first out and loses nothing. */
  lemma SpecStepConserves(a: Spec, b: Spec, t: nat, k: SpecStep)
    requires SpecNext(a, b, t, k) && Readings(a.ins) == Readings(a.rem) + a.queue
    ensures Readings(b.ins) == Readings(b.rem) + b.queue
  {
    hide Readings, Tag, Effect;
    if k.Commits? {
      var o := k.o;
      ReadingsConcat(a.ins, Tag(t, o.inserted));
      ReadingsConcat(a.rem, Tag(t, o.removed));
      ReadingsTag(t, o.inserted);
      ReadingsTag(t, o.removed);
      EffectBalanced(a.calls[t].op, a.queue, o);
      Reassociate(Readings(a.ins), Readings(a.rem), a.queue, o.inserted, o.removed, o.queue);
    }
  }

  lemma ReadingsTag(t: nat, ds: seq<Reading>)
    ensures Readings(Tag(t, ds)) == ds
  {
  }

  lemma EffectBalanced(op: Op, queue: seq<Reading>, o: Outcome)
    requires Effect(op, queue, o)
    ensures queue + o.inserted == o.removed + o.queue
  {
  }

  /** In every reachable state of the threads: everything inserted, in order of effect, is what was
      removed, in order of effect, followed by what is in the buffer. */
  lemma {:induction false} RunConserves(states: seq<State>, actions: seq<Action>, i: nat)
    requires IsRun(states, actions) && i < |states|
    ensures Readings(states[i].ins) == Readings(states[i].rem) + Queue(states[i])
  {
    hide Inv, Step, Enabled, Queue, SpecNext, Image;
    if i > 0 {
      RunConserves(states, actions, i - 1);
      RunInv(states, actions, i - 1);
      assert Enabled(states[i - 1], actions[i - 1]) && states[i - 1 + 1] == Step(states[i - 1], actions[i - 1]);
      StepRefines(states[i - 1], actions[i - 1]);
      SpecStepConserves(Abs(states[i - 1]), Abs(states[i]), actions[i - 1].t, Image(states[i - 1], actions[i - 1]));
    } else {
      InitImage(states[0]);
    }
  }

  // ---- quiet states and sbuffer_free

  /** The readings found by following `next` from `p`. */
  function Follow(heap: map<Ptr, HeapNode>, p: Ptr): seq<Reading>
    decreases heap.Keys
  {
    if p !in heap then [] else [heap[p].data] + Follow(heap - {p}, heap[p].next)
  }

  lemma {:induction false} FollowChain(heap: map<Ptr, HeapNode>, h: map<Ptr, HeapNode>, chain: seq<Ptr>, i: nat)
    requires Linked(heap, chain) && i <= |chain|
    requires NULL !in h
    requires forall j :: i <= j < |chain| ==> chain[j] in h && h[chain[j]] == heap[chain[j]]
    ensures Follow(h, PtrAt(chain, i)) == DataOf(heap, chain)[i..]
    decreases |chain| - i
  {
    hide Linked, Follow;
    if i < |chain| {
      var p := chain[i];
      LinkedAt(heap, chain, i);
      FollowChain(heap, h - {p}, chain, i + 1);
      FollowStep(h, p);
      assert DataOf(heap, chain)[i..] == [heap[p].data] + DataOf(heap, chain)[i + 1..];
    } else {
      FollowStep(h, NULL);
    }
  }

  lemma FollowStep(heap: map<Ptr, HeapNode>, p: Ptr)
    ensures Follow(heap, p) == if p !in heap then [] else [heap[p].data] + Follow(heap - {p}, heap[p].next)
  {
  }

  lemma LinkedAt(heap: map<Ptr, HeapNode>, chain: seq<Ptr>, i: nat)
    requires Linked(heap, chain) && i < |chain|
    ensures chain[i] in heap && heap[chain[i]].next == PtrAt(chain, i + 1)
    ensures forall j :: i < j < |chain| ==> chain[j] != chain[i]
  {
  }

  /** Whenever the lock is free, the pointers in memory alone spell out the queue, head and tail are
      NULL together, and tail is the node whose next is NULL. */
  lemma LockFreeWellFormed(s: State)
    requires Inv(s) && s.lock == None
    ensures Follow(s.heap, s.head) == Queue(s)
    ensures s.head == NULL <==> s.tail == NULL
    ensures s.tail != NULL ==> s.tail in s.heap && s.heap[s.tail].next == NULL
  {
    hide Memory, Mutex, Private;
    FollowChain(s.heap, s.heap, s.chain, 0);
    if s.chain != [] {
      assert s.chain[0] in s.heap && s.chain[|s.chain| - 1] in s.heap;
    }
  }

  /** The freeing loop of sbuffer_free: None when it would touch or free unallocated memory. */
  function FreeAll(heap: map<Ptr, HeapNode>, head: Ptr): Option<map<Ptr, HeapNode>>
    decreases heap.Keys
  {
    if head == NULL then Some(heap)
    else if head !in heap then None
    else FreeAll(heap - {head}, heap[head].next)
  }

  lemma {:induction false} FreeChain(heap: map<Ptr, HeapNode>, h: map<Ptr, HeapNode>, chain: seq<Ptr>, i: nat)
    requires Linked(heap, chain) && i <= |chain|
    requires h.Keys == Elements(chain[i..]) && forall p :: p in h ==> p in heap && h[p] == heap[p]
    ensures FreeAll(h, PtrAt(chain, i)) == Some(map[])
    decreases |chain| - i
  {
    hide Elements;
    if i < |chain| {
      var p := chain[i];
      SuffixKeys(chain, i);
      assert p in h.Keys;
      assert p in heap && heap[p].next == PtrAt(chain, i + 1) && p != NULL;
      FreeChain(heap, h - {p}, chain, i + 1);
    } else {
      SuffixKeys(chain, i);
      assert h.Keys == {};
    }
  }

  lemma SuffixKeys(chain: seq<Ptr>, i: nat)
    requires i <= |chain| && forall j, k :: 0 <= j < k < |chain| ==> chain[j] != chain[k]
    ensures i == |chain| ==> Elements(chain[i..]) == {}
    ensures i < |chain| ==> chain[i] in Elements(chain[i..])
                            && Elements(chain[i..]) - {chain[i]} == Elements(chain[i + 1..])
  {
    if i < |chain| {
      assert chain[i..] == [chain[i]] + chain[i + 1..];
      ElementsAppend(chain[i + 1..], chain[i]);
      var rest := chain[i + 1..];
      forall j | 0 <= j < |rest| ensures rest[j] != chain[i] {
        assert rest[j] == chain[i + 1 + j];
      }
    }
  }

  /** After any run, once no thread is inside a call, sbuffer_free releases exactly what is still
      allocated: no fault, nothing left, so every malloc of the run is matched by one free. */
  lemma FreeWhenQuiet(states: seq<State>, actions: seq<Action>, i: nat)
    requires IsRun(states, actions) && i < |states|
    requires forall t :: 0 <= t < |states[i].threads| ==> states[i].threads[t].Idle? || states[i].threads[t].Done?
    ensures FreeAll(states[i].heap, states[i].head) == Some(map[])
    ensures states[i].mallocs == states[i].frees + |states[i].chain|
  {
    hide Step, Enabled, IsRun, Linked, Private;
    RunInv(states, actions, i);
    QuietMemory(states[i]);
    var s := states[i];
    assert s.chain[0..] == s.chain;
    FreeChain(s.heap, s.heap, s.chain, 0);
    ElementsCount(s.chain);
  }

  lemma QuietMemory(s: State)
    requires Inv(s)
    requires forall t :: 0 <= t < |s.threads| ==> s.threads[t].Idle? || s.threads[t].Done?
    ensures s.heap.Keys == Elements(s.chain) && Linked(s.heap, s.chain)
    ensures s.head == PtrAt(s.chain, 0) && s.mallocs == |s.heap.Keys| + s.frees
    ensures forall i, j :: 0 <= i < j < |s.chain| ==> s.chain[i] != s.chain[j]
  {
    hide Private, Shared;
    assert OwnedBy(s.threads) == {};
    assert s.lock.Some? ==> Critical(s.threads[s.lock.value]);
  }

  lemma {:induction false} ElementsCount(chain: seq<Ptr>)
    requires forall i, j :: 0 <= i < j < |chain| ==> chain[i] != chain[j]
    ensures |Elements(chain)| == |chain|
  {
    if chain != [] {
      var n := |chain| - 1;
      ElementsCount(chain[..n]);
      assert chain == chain[..n] + [chain[n]];
      ElementsAppend(chain[..n], chain[n]);
      assert chain[n] !in chain[..n];
    }
  }
}
