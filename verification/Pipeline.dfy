/** Producers, the datamgr loop, the storagemgr loop and threads that query the datamgr, all interleaved
    statement by statement around one shared buffer and one table. */
module Pipeline {
  import opened Util
  import opened Windows
  import opened SBufferThreads
  import opened SBufferRefinement
  import Q = QueryThreads

  /** Buffer thread 0 runs datamgr_parse_sensor_data, buffer thread 1 storagemgr_parse_sensor_data; every
      other buffer thread only inserts. */
  const DATAMGR: nat := 0
  const STORAGEMGR: nat := 1

  /** Table thread 0 is the datamgr thread again, applying readings; the others only query. */
  const UPDATER: nat := 0

  /** Where the datamgr loop stands: before a removal, inside it, holding a reading to apply, applying it. */
  datatype DataPc = DataLoop | DataWait | DataHold(r: Reading) | DataUpdating(r: Reading)

  /** Where the storagemgr loop stands; StoreExit is exit(EXIT_FAILURE). */
  datatype StorePc = StoreLoop | StoreWait | StoreInsert(r: Reading) | StoreExit

  /** `mgr` is the table with its lock and threads, `attempted` lists the readings storagemgr has passed to
      insert_sensor, `failedInits` counts the init_connection calls that returned NULL. */
  datatype Pipe = Pipe(
    sb: State,
    records: seq<Record>,
    mgr: Q.State,
    dpc: DataPc,
    spc: StorePc,
    connected: bool,
    attempts: nat,
    attempted: seq<Reading>,
    failedInits: nat)

  datatype PipeAction =
    | Buffer(a: Action)              // one statement of sbuffer_insert or sbuffer_remove, or a call of them
    | DataResult                     // datamgr looks at the status of its removal
    | DataBegin                      // datamgr starts to apply the reading
    | Manager(b: Q.Action)           // one statement of the update or of a query, or a call of a query
    | DataEnd                        // datamgr has released list_mutex and goes round its loop
    | Reconnect(ok: bool)            // storagemgr without a connection; `ok` is whether it gets one, which the
                                     // round that gives up does not even try
    | StoreResult                    // storagemgr looks at the status of its removal
    | StoreAttempt(status: int)      // insert_sensor returns `status`

  ghost predicate CallAllowed(p: Pipe, t: nat, op: Op) {
    if t == DATAMGR then op == Remove && p.dpc == DataLoop
    else if t == STORAGEMGR then op == Remove && p.spc == StoreLoop && p.connected
    else op.Insert?
  }

  ghost predicate PipeEnabled(p: Pipe, a: PipeAction) {
    && |p.sb.threads| >= 2 && |p.mgr.threads| >= 1
    && match a
       case Buffer(b) => Enabled(p.sb, b) && (b.Call? ==> CallAllowed(p, b.t, b.op))
       case DataResult => p.dpc == DataWait && p.sb.threads[DATAMGR].Done?
       case DataBegin => p.dpc.DataHold? && Q.Enabled(p.mgr, Q.Apply(UPDATER, p.dpc.r))
       case Manager(b) => Q.Enabled(p.mgr, b) && !b.Apply? && (b.Ask? ==> b.t != UPDATER)
       case DataEnd => p.dpc.DataUpdating? && p.mgr.threads[UPDATER].Ready?
       case Reconnect(ok) => p.spc == StoreLoop && !p.connected && (p.attempts == 3 ==> !ok)
       case StoreResult => p.spc == StoreWait && p.sb.threads[STORAGEMGR].Done?
       case StoreAttempt(_) => p.spc.StoreInsert?
  }

  function PipeStep(p: Pipe, a: PipeAction): Pipe
    requires PipeEnabled(p, a)
  {
    match a
    case Buffer(b) =>
      var q := p.(sb := Step(p.sb, b));
      if b.Call? && b.t == DATAMGR then q.(dpc := DataWait)
      else if b.Call? && b.t == STORAGEMGR then q.(spc := StoreWait)
      else q
    case DataResult =>
      var r := p.sb.threads[DATAMGR].result;
      p.(dpc := if r.Got? then DataHold(r.data) else DataLoop)
    case DataBegin => p.(dpc := DataUpdating(p.dpc.r), mgr := Q.Step(p.mgr, Q.Apply(UPDATER, p.dpc.r)))
    case Manager(b) => p.(mgr := Q.Step(p.mgr, b))
    case DataEnd => p.(dpc := DataLoop)
    case Reconnect(ok) =>
      if p.attempts == 3 then p.(spc := StoreExit)
      else p.(connected := ok, attempts := p.attempts + 1, failedInits := p.failedInits + if ok then 0 else 1)
    case StoreResult =>
      var r := p.sb.threads[STORAGEMGR].result;
      if r.Got? then p.(spc := StoreInsert(r.data)) else p.(spc := StoreLoop, attempts := 0)
    case StoreAttempt(status) =>
      p.(spc := StoreLoop, attempted := p.attempted + [p.spc.r],
         attempts := if status != 0 then p.attempts + 1 else 0)
  }

  ghost predicate PipeInit(p: Pipe) {
    && Init(p.sb) && |p.sb.threads| >= 2
    && Q.Init(p.records, p.mgr) && |p.mgr.threads| >= 1
    && p.dpc == DataLoop && p.spc == StoreLoop
    && p.attempts == 0 && p.attempted == [] && p.failedInits == 0
  }

  // ---- who got what

  /** A removal that has taken effect but whose result the caller has not looked at. */
  function InFlight(c: CallState): seq<Reading> {
    match c
    case Finished(r) => if r.Got? then [r.data] else []
    case Returned(r) => if r.Got? then [r.data] else []
    case _ => []
  }

  /** Readings datamgr has removed and not yet applied: at most one. */
  function DataPending(p: Pipe): seq<Reading>
    requires |p.sb.threads| >= 2 && |p.mgr.threads| >= 1
  {
    match p.dpc
    case DataLoop => []
    case DataWait => InFlight(Meaning(p.sb.threads[DATAMGR]))
    case DataHold(r) => [r]
    case DataUpdating(r) => if Q.Holding(p.mgr.threads[UPDATER]).Some? then [r] else []
  }

  /** Readings storagemgr has removed and not yet passed to insert_sensor: at most one. */
  function StorePending(p: Pipe): seq<Reading>
    requires |p.sb.threads| >= 2
  {
    match p.spc
    case StoreWait => InFlight(Meaning(p.sb.threads[STORAGEMGR]))
    case StoreInsert(r) => [r]
    case _ => []
  }

  /** `x` is a merge of `a` and `b`, each kept in order. */
  predicate Interleaves<T(==)>(x: seq<T>, a: seq<T>, b: seq<T>) {
    if x == [] then a == [] && b == []
    else
      var n := |x| - 1;
      || (a != [] && a[|a| - 1] == x[n] && Interleaves(x[..n], a[..|a| - 1], b))
      || (b != [] && b[|b| - 1] == x[n] && Interleaves(x[..n], a, b[..|b| - 1]))
  }

  ghost predicate OnlyConsumersRemove(rem: seq<Entry>) {
    forall i :: 0 <= i < |rem| ==> rem[i].thread == DATAMGR || rem[i].thread == STORAGEMGR
  }

  lemma {:induction false} SharesInterleave(rem: seq<Entry>)
    requires OnlyConsumersRemove(rem)
    ensures Interleaves(Readings(rem), Share(rem, DATAMGR), Share(rem, STORAGEMGR))
  {
    if rem != [] {
      var n := |rem| - 1;
      SharesInterleave(rem[..n]);
      var x, a, b := Readings(rem), Share(rem, DATAMGR), Share(rem, STORAGEMGR);
      assert x[..n] == Readings(rem[..n]);
      if rem[n].thread == DATAMGR {
        assert a[..|a| - 1] == Share(rem[..n], DATAMGR);
        assert b == Share(rem[..n], STORAGEMGR);
      } else {
        assert b[..|b| - 1] == Share(rem[..n], STORAGEMGR);
        assert a == Share(rem[..n], DATAMGR);
      }
    }
  }

  // ---- the invariant, in terms of the atomic queue

  /** Consumers only remove and producers only insert. */
  ghost predicate RoleKept(t: nat, c: CallState) {
    match c
    case NotCalled => true
    case Pending(op) => if t <= STORAGEMGR then op == Remove else op.Insert?
    case Finished(r) => t <= STORAGEMGR || r.Success? || r.Failure?
    case Returned(r) => t <= STORAGEMGR || r.Success? || r.Failure?
  }

  ghost predicate Quiet(c: CallState) {
    c.NotCalled? || c.Returned?
  }

  /** storagemgr's side: its share, and what it knows while it has no connection. */
  ghost predicate StoreSide(p: Pipe)
    requires |p.sb.threads| >= 2
  {
    && (if p.spc.StoreWait? then !Meaning(p.sb.threads[STORAGEMGR]).NotCalled?
        else Quiet(Meaning(p.sb.threads[STORAGEMGR])))
    && Share(p.sb.rem, STORAGEMGR) == p.attempted + StorePending(p)
    && (!p.connected ==> Share(p.sb.rem, STORAGEMGR) == [] && p.attempts == p.failedInits <= 3
                         && (p.spc == StoreLoop || p.spc == StoreExit))
    && (p.spc == StoreExit ==> !p.connected && p.failedInits == 3)
  }

  /** datamgr's side: its share of the removals, and what its thread is doing with the table. */
  ghost predicate DataSide(p: Pipe)
    requires |p.sb.threads| >= 2 && |p.mgr.threads| >= 1
  {
    && (if p.dpc.DataWait? then !Meaning(p.sb.threads[DATAMGR]).NotCalled?
        else Quiet(Meaning(p.sb.threads[DATAMGR])))
    && Share(p.sb.rem, DATAMGR) == p.mgr.applied + DataPending(p)
    && UpdaterAgrees(p.dpc, p.mgr.threads[UPDATER])
  }

  ghost predicate UpdaterAgrees(dpc: DataPc, pc: Q.Pc) {
    if dpc.DataUpdating? then pc.Ready? || pc.UpdUnlock? || Q.Holding(pc) == Some(dpc.r) else pc.Ready?
  }

  /** Only the updater ever holds a reading. */
  ghost predicate OthersQuery(threads: seq<Q.Pc>) {
    forall t {:trigger threads[t]} :: 0 <= t < |threads| && t != UPDATER ==>
      Q.Holding(threads[t]) == None && !threads[t].UpdUnlock?
  }

  ghost predicate BufferSide(s: State) {
    && Inv(s)
    && Readings(s.ins) == Readings(s.rem) + Queue(s)
    && OnlyConsumersRemove(s.rem)
    && forall t {:trigger s.threads[t]} :: 0 <= t < |s.threads| ==> RoleKept(t, Meaning(s.threads[t]))
  }

  ghost predicate PipeInv(p: Pipe) {
    && |p.sb.threads| >= 2 && |p.mgr.threads| >= 1
    && BufferSide(p.sb)
    && Q.Inv(p.records, p.mgr) && OthersQuery(p.mgr.threads)
    && DataSide(p)
    && StoreSide(p)
  }

  lemma {:induction false} ShareTag(es: seq<Entry>, t: nat, u: nat, ds: seq<Reading>)
    requires |ds| <= 1
    ensures Share(es + Tag(t, ds), u) == Share(es, u) + (if t == u then ds else [])
  {
    if ds == [] {
      assert es + Tag(t, ds) == es;
    } else {
      assert (es + Tag(t, ds))[..|es|] == es;
      assert Tag(t, ds) == [Entry(t, ds[0])];
    }
  }

  /** What one step of the buffer means for the calls and the removals. */
  lemma BufferStep(s: State, a: Action)
    requires Inv(s) && Enabled(s, a)
    requires forall t :: 0 <= t < |s.threads| ==> RoleKept(t, Meaning(s.threads[t]))
    requires a.Call? ==> if a.t <= STORAGEMGR then a.op == Remove else a.op.Insert?
    ensures var s', c := Step(s, a), Meaning(s.threads[a.t]);
            var c' := Meaning(s'.threads[a.t]);
            && |s'.threads| == |s.threads|
            && (forall u :: 0 <= u < |s.threads| && u != a.t ==> s'.threads[u] == s.threads[u])
            && RoleKept(a.t, c') && !c'.NotCalled?
            && (a.Call? ==> Quiet(c) && c'.Pending? && s'.rem == s.rem)
            && (a.Run? ==> !Quiet(c))
            && exists ds :: |ds| <= 1 && s'.rem == s.rem + Tag(a.t, ds)
                            && (ds != [] ==> a.t <= STORAGEMGR)
                            && (a.Run? ==> InFlight(c') == InFlight(c) + ds)
  {
    hide Inv, Exec, Queue, Effect, Tag;
    StepRefines(s, a);
    var s', k := Step(s, a), Image(s, a);
    assert Abs(s).calls[a.t] == Meaning(s.threads[a.t]) && Abs(s').calls[a.t] == Meaning(s'.threads[a.t]);
    var ds := if k.Commits? then k.o.removed else [];
    if k.Commits? {
      CommitShape(Abs(s).calls[a.t].op, Abs(s).queue, k.o);
    } else {
      assert s.rem + Tag(a.t, []) == s.rem by { TagEmpty(a.t); }
    }
    assert s'.rem == s.rem + Tag(a.t, ds);
  }

  lemma TagEmpty(t: nat)
    ensures Tag(t, []) == []
  {
  }

  lemma CommitShape(op: Op, queue: seq<Reading>, o: Outcome)
    requires Effect(op, queue, o)
    ensures |o.removed| <= 1
    ensures op.Insert? ==> o.removed == [] && (o.result.Success? || o.result.Failure?)
    ensures o.removed == (if o.result.Got? then [o.result.data] else [])
  {
  }

  lemma PipeInitInv(p: Pipe)
    requires PipeInit(p)
    ensures PipeInv(p)
  {
    hide Inv, Q.Inv;
    InitInv(p.sb);
    InitImage(p.sb);
    Q.InitInv(p.records, p.mgr);
    assert Share([], DATAMGR) == [] && Share([], STORAGEMGR) == [];
  }

  /** The buffer's own part of the invariant. */
  lemma BufferKept(p: Pipe, a: Action)
    requires PipeInv(p) && PipeEnabled(p, Buffer(a))
    ensures |Step(p.sb, a).threads| == |p.sb.threads| && BufferSide(Step(p.sb, a))
  {
    hide Inv, Exec, Queue, Readings, SpecNext, Image, InFlight, Meaning, Share, DataSide, StoreSide, Q.Inv;
    StepInv(p.sb, a);
    StepRefines(p.sb, a);
    SpecStepConserves(Abs(p.sb), Abs(Step(p.sb, a)), a.t, Image(p.sb, a));
    BufferStep(p.sb, a);
  }

  /** A consumer's share of the removals grows exactly as its in-flight reading does. */
  lemma ShareKept(p: Pipe, a: Action, u: nat)
    requires PipeInv(p) && PipeEnabled(p, Buffer(a)) && u <= STORAGEMGR
    ensures var s' := Step(p.sb, a);
            && |s'.threads| == |p.sb.threads|
            && if a.t == u && a.Run? then
                 && !Quiet(Meaning(p.sb.threads[u])) && !Meaning(s'.threads[u]).NotCalled?
                 && exists ds :: Share(s'.rem, u) == Share(p.sb.rem, u) + ds
                                 && InFlight(Meaning(s'.threads[u])) == InFlight(Meaning(p.sb.threads[u])) + ds
               else
                 && Share(s'.rem, u) == Share(p.sb.rem, u)
                 && (a.t == u ==> Meaning(s'.threads[u]).Pending?)
                 && (a.t != u ==> s'.threads[u] == p.sb.threads[u])
  {
    hide Inv, Exec, Queue, Readings, InFlight, Meaning, Share, DataSide, StoreSide, Q.Inv;
    BufferStep(p.sb, a);
    var s' := Step(p.sb, a);
    if a.Call? {
      assert s'.rem == p.sb.rem;
    } else {
      var ds :| |ds| <= 1 && s'.rem == p.sb.rem + Tag(a.t, ds) && (ds != [] ==> a.t <= STORAGEMGR)
                && InFlight(Meaning(s'.threads[a.t])) == InFlight(Meaning(p.sb.threads[a.t])) + ds;
      ShareTag(p.sb.rem, a.t, u, ds);
      assert Share(p.sb.rem, u) + [] == Share(p.sb.rem, u);
    }
  }

  lemma DataSideKept(p: Pipe, a: Action)
    requires PipeInv(p) && PipeEnabled(p, Buffer(a))
    ensures var q := PipeStep(p, Buffer(a)); |q.sb.threads| >= 2 && DataSide(q)
  {
    hide BufferSide, Exec, Meaning, Share, Q.Inv, Q.Holding, StoreSide;
    ShareKept(p, a, DATAMGR);
    var q := PipeStep(p, Buffer(a));
    if a.t == DATAMGR && a.Run? {
      var ds :| Share(q.sb.rem, DATAMGR) == Share(p.sb.rem, DATAMGR) + ds
                && InFlight(Meaning(q.sb.threads[DATAMGR])) == InFlight(Meaning(p.sb.threads[DATAMGR])) + ds;
      assert p.mgr.applied + DataPending(p) + ds == p.mgr.applied + (DataPending(p) + ds);
    }
  }

  lemma StoreSideKept(p: Pipe, a: Action)
    requires PipeInv(p) && PipeEnabled(p, Buffer(a))
    ensures var q := PipeStep(p, Buffer(a)); |q.sb.threads| >= 2 && StoreSide(q)
  {
    hide BufferSide, Exec, Meaning, Share, Q.Inv, DataSide;
    ShareKept(p, a, STORAGEMGR);
    var q := PipeStep(p, Buffer(a));
    if a.t == STORAGEMGR && a.Run? {
      var ds :| Share(q.sb.rem, STORAGEMGR) == Share(p.sb.rem, STORAGEMGR) + ds
                && InFlight(Meaning(q.sb.threads[STORAGEMGR])) == InFlight(Meaning(p.sb.threads[STORAGEMGR])) + ds;
      assert p.attempted + StorePending(p) + ds == p.attempted + (StorePending(p) + ds);
    }
  }

  /** A statement of the update or of a query: a reading enters the history exactly when the updater
      stops holding it. */
  lemma ManagerKept(p: Pipe, b: Q.Action)
    requires PipeInv(p) && PipeEnabled(p, Manager(b))
    ensures PipeInv(PipeStep(p, Manager(b)))
  {
    hide BufferSide, Meaning, Share, Q.Inv, Q.Exec, StoreSide;
    Q.StepInv(p.records, p.mgr, b);
    var q := PipeStep(p, Manager(b));
    if b.Run? {
      Q.HoldingStep(p.mgr, b.t);
      if b.t == UPDATER && p.mgr.applied != q.mgr.applied {
        assert q.mgr.applied + [] == p.mgr.applied + DataPending(p);
      }
    }
    StoreSideSame(p, q);
  }

  lemma StoreSideSame(p: Pipe, q: Pipe)
    requires |p.sb.threads| >= 2 && StoreSide(p)
    requires q.sb == p.sb && q.spc == p.spc && q.connected == p.connected && q.attempts == p.attempts
    requires q.attempted == p.attempted && q.failedInits == p.failedInits
    ensures StoreSide(q)
  {
  }

  lemma DataSideSame(p: Pipe, q: Pipe)
    requires |p.sb.threads| >= 2 && |p.mgr.threads| >= 1 && DataSide(p)
    requires q.sb == p.sb && q.mgr == p.mgr && q.dpc == p.dpc
    ensures DataSide(q)
  {
  }

  /** The datamgr loop between its removals and its updates. */
  lemma DataLoopKept(p: Pipe, a: PipeAction)
    requires PipeInv(p) && PipeEnabled(p, a) && (a.DataResult? || a.DataBegin? || a.DataEnd?)
    ensures PipeInv(PipeStep(p, a))
  {
    hide BufferSide, Share, Q.Inv, StoreSide;
    var q := PipeStep(p, a);
    if a.DataBegin? {
      Q.StepInv(p.records, p.mgr, Q.Apply(UPDATER, p.dpc.r));
    }
    StoreSideSame(p, q);
  }

  /** The storagemgr loop between its removals. */
  lemma StoreLoopKept(p: Pipe, a: PipeAction)
    requires PipeInv(p) && PipeEnabled(p, a) && (a.Reconnect? || a.StoreResult? || a.StoreAttempt?)
    ensures PipeInv(PipeStep(p, a))
  {
    hide BufferSide, Share, Q.Inv, DataSide;
    var q := PipeStep(p, a);
    if a.StoreAttempt? {
      assert q.attempted + [] == p.attempted + StorePending(p);
    }
    DataSideSame(p, q);
  }

  lemma PipeKept(p: Pipe, a: PipeAction)
    requires PipeInv(p) && PipeEnabled(p, a)
    ensures PipeInv(PipeStep(p, a))
  {
    hide BufferSide, DataSide, StoreSide, OthersQuery, Exec, Q.Inv, Q.Exec;
    if a.Buffer? {
      BufferKept(p, a.a);
      DataSideKept(p, a.a);
      StoreSideKept(p, a.a);
    } else if a.Manager? {
      ManagerKept(p, a.b);
    } else if a.DataResult? || a.DataBegin? || a.DataEnd? {
      DataLoopKept(p, a);
    } else {
      StoreLoopKept(p, a);
    }
  }

  // ---- whole runs

  ghost predicate IsPipeRun(states: seq<Pipe>, actions: seq<PipeAction>) {
    && |states| == |actions| + 1
    && PipeInit(states[0])
    && forall i :: 0 <= i < |actions| ==>
         PipeEnabled(states[i], actions[i]) && states[i + 1] == PipeStep(states[i], actions[i])
  }

  lemma {:induction false} PipeRunInv(states: seq<Pipe>, actions: seq<PipeAction>, i: nat)
    requires IsPipeRun(states, actions) && i < |states|
    ensures PipeInv(states[i])
  {
    hide PipeInv, PipeStep, PipeEnabled, PipeInit;
    if i == 0 {
      PipeInitInv(states[0]);
    } else {
      PipeRunInv(states, actions, i - 1);
      assert PipeEnabled(states[i - 1], actions[i - 1]) && states[i - 1 + 1] == PipeStep(states[i - 1], actions[i - 1]);
      PipeKept(states[i - 1], actions[i - 1]);
    }
  }

  /** In every reachable state of the pipeline: the successful insertions, in order, are an interleaving of
      what datamgr removed and what storagemgr removed, followed by what is still buffered. datamgr's
      share is what it has applied plus at most one reading in flight, storagemgr's share is one
      insert attempt per reading plus at most one in flight, each in insertion order. */
  lemma PipelineConserves(states: seq<Pipe>, actions: seq<PipeAction>, i: nat)
    requires IsPipeRun(states, actions) && i < |states|
    ensures var p := states[i];
            && |p.sb.threads| >= 2 && |p.mgr.threads| >= 1
            && var removed := Readings(p.sb.rem);
            && Readings(p.sb.ins) == removed + Queue(p.sb)
            && Interleaves(removed, p.mgr.applied + DataPending(p), p.attempted + StorePending(p))
            && |DataPending(p)| <= 1 && |StorePending(p)| <= 1
  {
    hide Inv, PipeStep, PipeEnabled, PipeInit, Queue, Readings, Share, Interleaves, Meaning, Q.Inv, Q.Holding;
    PipeRunInv(states, actions, i);
    SharesInterleave(states[i].sb.rem);
  }

  /** storagemgr gives up only after init_connection has failed three times in a row without ever
      succeeding, and then it has removed nothing; failed inserts never make it give up. */
  lemma ExitOnlyBeforeConnecting(states: seq<Pipe>, actions: seq<PipeAction>, i: nat)
    requires IsPipeRun(states, actions) && i < |states| && states[i].spc == StoreExit
    ensures !states[i].connected && states[i].failedInits == 3
    ensures states[i].attempted == [] && Share(states[i].sb.rem, STORAGEMGR) == []
  {
    hide BufferSide, PipeStep, PipeEnabled, PipeInit, Share, Meaning, Q.Inv, DataSide;
    PipeRunInv(states, actions, i);
  }

  // ---- when storagemgr starts without a connection

  /** init_connection has returned NULL in all of the first `i` steps that called it. */
  ghost predicate NeverConnected(actions: seq<PipeAction>, i: nat) {
    forall k {:trigger actions[k]} :: 0 <= k < i && k < |actions| ==> actions[k] != Reconnect(true)
  }

  /** How many of the first `i` steps found storagemgr without a connection. */
  function Reconnects(actions: seq<PipeAction>, i: nat): nat
    requires i <= |actions|
  {
    if i == 0 then 0 else Reconnects(actions, i - 1) + if actions[i - 1].Reconnect? then 1 else 0
  }

  /** A call of the buffer by storagemgr, or a statement of one. */
  predicate StoreOnBuffer(a: PipeAction) {
    a.Buffer? && a.a.t == STORAGEMGR
  }

  /** Where storagemgr stands after `rounds` rounds without a connection. */
  ghost predicate Waiting(p: Pipe, rounds: nat) {
    && |p.sb.threads| >= 2 && !p.connected && p.attempted == [] && Share(p.sb.rem, STORAGEMGR) == []
    && p.sb.threads[STORAGEMGR] == Idle
    && rounds <= 4 && p.attempts == (if rounds == 4 then 3 else rounds)
    && p.spc == if rounds == 4 then StoreExit else StoreLoop
  }

  lemma WaitingStep(p: Pipe, a: PipeAction, rounds: nat)
    requires PipeInv(p) && PipeEnabled(p, a) && Waiting(p, rounds)
    ensures !StoreOnBuffer(a)
    ensures a.Reconnect? && a.ok ==> PipeStep(p, a).connected && PipeStep(p, a).spc == StoreLoop
    ensures a != Reconnect(true) ==> Waiting(PipeStep(p, a), rounds + if a.Reconnect? then 1 else 0)
  {
    hide Inv, Exec, Share, DataSide, StoreSide, Q.Inv, Q.Enabled, Q.Step, Meaning, Readings, Queue;
    if a.Buffer? {
      ShareKept(p, a.a, STORAGEMGR);
    }
  }

  lemma StartsWaiting(p: Pipe)
    requires PipeInit(p) && !p.connected
    ensures Waiting(p, 0)
  {
  }

  lemma ConnectedStays(p: Pipe, a: PipeAction)
    requires PipeInv(p) && PipeEnabled(p, a) && p.connected && p.spc != StoreExit
    ensures PipeStep(p, a).connected && PipeStep(p, a).spc != StoreExit
  {
    hide BufferSide, Exec, DataSide, Q.Inv, Q.Enabled, Q.Step;
  }

  /** A storagemgr that starts without a connection touches neither the buffer nor the database before
      init_connection first succeeds. It exits exactly when four rounds have found it without a
      connection and none of them got one. */
  lemma {:induction false} BeforeConnecting(states: seq<Pipe>, actions: seq<PipeAction>, i: nat)
    requires IsPipeRun(states, actions) && i < |states| && !states[0].connected
    ensures NeverConnected(actions, i) ==>
              && !states[i].connected && states[i].attempted == [] && Share(states[i].sb.rem, STORAGEMGR) == []
              && forall k {:trigger actions[k]} :: 0 <= k < i ==> !StoreOnBuffer(actions[k])
    ensures states[i].connected <==> !NeverConnected(actions, i)
    ensures states[i].spc == StoreExit <==> NeverConnected(actions, i) && Reconnects(actions, i) >= 4
    ensures NeverConnected(actions, i) ==> Waiting(states[i], Reconnects(actions, i))
  {
    hide PipeInv, PipeStep, PipeEnabled, Share, StoreOnBuffer;
    if i == 0 {
      StartsWaiting(states[0]);
    } else {
      var p, a := states[i - 1], actions[i - 1];
      BeforeConnecting(states, actions, i - 1);
      PipeRunInv(states, actions, i - 1);
      assert PipeEnabled(p, a) && states[i - 1 + 1] == PipeStep(p, a);
      if NeverConnected(actions, i - 1) {
        WaitingStep(p, a, Reconnects(actions, i - 1));
      } else {
        ConnectedStays(p, a);
      }
    }
  }

  /** What datamgr has applied is its share of the stream, except for at most the latest reading. */
  lemma AppliedIsShare(p: Pipe)
    requires PipeInv(p)
    ensures p.mgr.applied <= Share(p.sb.rem, DATAMGR) && |Share(p.sb.rem, DATAMGR)| <= |p.mgr.applied| + 1
  {
    hide BufferSide, Share, Meaning, Q.Inv, StoreSide, Q.Holding;
  }

  lemma RecordsFixed(p: Pipe, a: PipeAction)
    requires PipeEnabled(p, a)
    ensures PipeStep(p, a).records == p.records
  {
    hide Exec, Q.Exec;
  }

  lemma {:induction false} RecordsKept(states: seq<Pipe>, actions: seq<PipeAction>, i: nat)
    requires IsPipeRun(states, actions) && i < |states|
    ensures states[i].records == states[0].records
  {
    hide PipeStep, PipeEnabled, PipeInit;
    if i > 0 {
      RecordsKept(states, actions, i - 1);
      assert PipeEnabled(states[i - 1], actions[i - 1]) && states[i - 1 + 1] == PipeStep(states[i - 1], actions[i - 1]);
      RecordsFixed(states[i - 1], actions[i - 1]);
    }
  }

  /** In every reachable state of the whole pipeline, every entry of the table, except the one a thread is in
      the middle of updating, shows exactly what the loaded map and the readings that datamgr has taken
      from the buffer and applied imply; these are a prefix of datamgr's share, at most one short of it. */
  lemma PipelineTable(states: seq<Pipe>, actions: seq<PipeAction>, i: nat, e: nat)
    requires IsPipeRun(states, actions) && i < |states| && e < |states[0].records|
    ensures var p := states[i];
            && |p.mgr.table| == |states[0].records|
            && (e != Q.Dirty(Q.Holder(p.mgr)) ==> p.mgr.table[e] == EntryAfter(states[0].records, e, p.mgr.applied))
            && (p.mgr.lock == None ==> p.mgr.table[e] == EntryAfter(states[0].records, e, p.mgr.applied))
            && p.mgr.applied <= Share(p.sb.rem, DATAMGR)
            && |Share(p.sb.rem, DATAMGR)| <= |p.mgr.applied| + 1
  {
    hide BufferSide, PipeStep, PipeEnabled, PipeInit, Share, Meaning, DataSide, StoreSide, EntryAfter,
         Q.Searched, Q.AnswerSound, Q.Mutex, Q.Partial;
    PipeRunInv(states, actions, i);
    RecordsKept(states, actions, i);
    AppliedIsShare(states[i]);
  }

  /** The same in plain terms. */
  lemma PipelineTableDescribed(states: seq<Pipe>, actions: seq<PipeAction>, i: nat, e: nat)
    requires IsPipeRun(states, actions) && i < |states| && e < |states[0].records|
    requires e != Q.Dirty(Q.Holder(states[i].mgr))
    ensures e < |states[i].mgr.table|
    ensures Describes(states[0].records, e, states[i].mgr.applied, states[i].mgr.table[e])
  {
    hide Describes, PipeStep, PipeEnabled, PipeInit, Share, EntryAfter;
    PipelineTable(states, actions, i, e);
    EntryDescribed(states[0].records, e, states[i].mgr.applied);
  }

  /** Every answer a query has returned anywhere in a run of the whole pipeline is the answer the query gives
      alone after some prefix of what datamgr has removed from the buffer, a prefix that includes every
      reading that had been applied when the query was called. */
  lemma PipelineAnswers(states: seq<Pipe>, actions: seq<PipeAction>, i: nat, t: nat)
    requires IsPipeRun(states, actions) && i < |states|
    requires t < |states[i].mgr.threads| && states[i].mgr.threads[t].Answered?
    ensures t < |states[i].mgr.seen|
    ensures var pc, n, share := states[i].mgr.threads[t], states[i].mgr.seen[t], Share(states[i].sb.rem, DATAMGR);
            && pc.from <= n <= |share|
            && pc.answer == Q.AnswerAfter(states[0].records, pc.q, pc.id, share[..n])
  {
    hide BufferSide, PipeStep, PipeEnabled, PipeInit, Share, Meaning, DataSide, StoreSide,
         Q.Searched, Q.Table, Q.Mutex, Q.AnswerAfter;
    PipeRunInv(states, actions, i);
    RecordsKept(states, actions, i);
    AppliedIsShare(states[i]);
    var p := states[i];
    assert Q.AnswerSound(p.records, p.mgr.threads[t], p.mgr.seen[t], p.mgr.applied);
    var n := p.mgr.seen[t];
    assert Share(p.sb.rem, DATAMGR)[..n] == p.mgr.applied[..n];
  }

  lemma SeenStep(p: Pipe, a: PipeAction)
    requires PipeInv(p) && PipeEnabled(p, a)
    ensures var q := PipeStep(p, a);
            && |q.mgr.seen| == |p.mgr.seen| && p.mgr.applied <= q.mgr.applied
            && forall t :: 0 <= t < |p.mgr.seen| ==> p.mgr.seen[t] <= q.mgr.seen[t]
  {
    hide BufferSide, Share, Meaning, DataSide, StoreSide, Q.Inv, Q.Exec, Exec;
    if a.Manager? {
      Q.StepMonotone(p.records, p.mgr, a.b);
    } else if a.DataBegin? {
      Q.StepMonotone(p.records, p.mgr, Q.Apply(UPDATER, p.dpc.r));
    }
  }

  /** In a run of the whole pipeline the prefix that a thread's queries see never gets shorter. */
  lemma {:induction false} PipelinePrefixesGrow(states: seq<Pipe>, actions: seq<PipeAction>, i: nat, j: nat, t: nat)
    requires IsPipeRun(states, actions) && i <= j < |states| && t < |states[i].mgr.seen|
    ensures |states[j].mgr.seen| == |states[i].mgr.seen|
    ensures states[i].mgr.applied <= states[j].mgr.applied && states[i].mgr.seen[t] <= states[j].mgr.seen[t]
    decreases j
  {
    hide PipeInv, PipeStep, PipeEnabled, PipeInit;
    if i < j {
      PipelinePrefixesGrow(states, actions, i, j - 1, t);
      PipeRunInv(states, actions, j - 1);
      assert PipeEnabled(states[j - 1], actions[j - 1]) && states[j - 1 + 1] == PipeStep(states[j - 1], actions[j - 1]);
      SeenStep(states[j - 1], actions[j - 1]);
    }
  }
}
