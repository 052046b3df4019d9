/** Runs of the whole pipeline: no thread blocks for ever on a mutex whose holder is stuck, every call is short, and
    queries are ordered in real time. */
module PipelineProgress {
  import opened Util
  import opened Windows
  import opened Pipeline
  import B = SBufferThreads
  import BP = SBufferProgress
  import R = SBufferRefinement
  import Q = QueryThreads
  import QP = QueryProgress
  import QO = QueryOutcomes

  // ---- no deadlock

  /** The actions of the datamgr thread, of the storagemgr thread, and of whoever holds a mutex. */
  ghost predicate DataAction(a: PipeAction) {
    || a.DataResult? || a.DataBegin? || a.DataEnd?
    || (a.Buffer? && a.a.t == DATAMGR) || (a.Manager? && a.b.t == UPDATER)
  }

  ghost predicate StoreAction(a: PipeAction) {
    a.Reconnect? || a.StoreResult? || a.StoreAttempt? || (a.Buffer? && a.a.t == STORAGEMGR)
  }

  ghost predicate HolderAction(p: Pipe, a: PipeAction) {
    || (a.Buffer? && a.a.Run? && p.sb.lock == Some(a.a.t))
    || (a.Manager? && a.b.Run? && p.mgr.lock == Some(a.b.t))
  }

  /** A call of the buffer in flight can go on, or the holder of the mutex can. */
  lemma BufferCanMove(p: Pipe, t: nat)
    requires PipeInv(p) && t < |p.sb.threads| && !p.sb.threads[t].Idle? && !p.sb.threads[t].Done?
    ensures exists a: PipeAction :: PipeEnabled(p, a) && a.Buffer? && a.a.Run?
                                    && (a.a.t == t || HolderAction(p, a))
  {
    hide B.Inv, B.Enabled, DataSide, StoreSide, Q.Inv;
    var garbage := B.HeapNode(B.NULL, Reading(0, 0.0, 0));
    BP.SomeoneCanMove(p.sb, t, garbage);
    var mine := Buffer(B.Run(t, B.Choice(B.NULL, garbage)));
    if PipeEnabled(p, mine) {
    } else {
      assert PipeEnabled(p, Buffer(B.Run(p.sb.lock.value, B.Choice(B.NULL, garbage))));
    }
  }

  /** So can an update or a query in flight, or the holder of list_mutex. */
  lemma TableCanMove(p: Pipe, t: nat)
    requires PipeInv(p) && t < |p.mgr.threads| && !p.mgr.threads[t].Ready? && !p.mgr.threads[t].Answered?
    ensures exists a: PipeAction :: PipeEnabled(p, a) && a.Manager? && a.b.Run?
                                    && (a.b.t == t || HolderAction(p, a))
  {
    hide BufferSide, DataSide, StoreSide, Q.Inv, Q.Enabled;
    QP.SomeoneCanMove(p.records, p.mgr, t);
    if PipeEnabled(p, Manager(Q.Run(t))) {
    } else {
      assert PipeEnabled(p, Manager(Q.Run(p.mgr.lock.value)));
    }
  }

  lemma CallsPossible(p: Pipe)
    requires PipeInv(p)
    ensures !p.sb.fault && |p.mgr.threads| == |p.mgr.seen|
  {
    hide DataSide, StoreSide;
  }

  lemma DatamgrCanMove(p: Pipe)
    requires PipeInv(p)
    ensures exists a: PipeAction :: PipeEnabled(p, a) && (DataAction(a) || HolderAction(p, a))
  {
    hide Q.Inv, StoreSide, B.Inv;
    CallsPossible(p);
    var c := p.sb.threads[DATAMGR];
    match p.dpc
    case DataLoop => assert PipeEnabled(p, Buffer(B.Call(DATAMGR, B.Remove)));
    case DataWait =>
      if c.Done? {
        assert PipeEnabled(p, DataResult);
      } else {
        BufferCanMove(p, DATAMGR);
      }
    case DataHold(r) => assert PipeEnabled(p, DataBegin);
    case DataUpdating(r) =>
      if p.mgr.threads[UPDATER].Ready? {
        assert PipeEnabled(p, DataEnd);
      } else {
        TableCanMove(p, UPDATER);
      }
  }

  lemma StoragemgrCanMove(p: Pipe)
    requires PipeInv(p) && p.spc != StoreExit
    ensures exists a: PipeAction :: PipeEnabled(p, a) && (StoreAction(a) || HolderAction(p, a))
  {
    hide Q.Inv, DataSide, B.Inv;
    CallsPossible(p);
    match p.spc
    case StoreLoop =>
      if p.connected {
        assert PipeEnabled(p, Buffer(B.Call(STORAGEMGR, B.Remove)));
      } else {
        assert PipeEnabled(p, Reconnect(false));
      }
    case StoreWait =>
      if p.sb.threads[STORAGEMGR].Done? {
        assert PipeEnabled(p, StoreResult);
      } else {
        BufferCanMove(p, STORAGEMGR);
      }
    case StoreInsert(r) => assert PipeEnabled(p, StoreAttempt(0));
    case StoreExit => assert false;
  }

  /** Producers that are not inside a call may insert anything, and querying threads may ask anything. */
  lemma CallersCanCall(p: Pipe, t: nat, d: Reading, q: Q.Query, id: U16)
    requires PipeInv(p)
    ensures t > STORAGEMGR && t < |p.sb.threads| && (p.sb.threads[t].Idle? || p.sb.threads[t].Done?) ==>
              PipeEnabled(p, Buffer(B.Call(t, B.Insert(d))))
    ensures t != UPDATER && t < |p.mgr.threads| && (p.mgr.threads[t].Ready? || p.mgr.threads[t].Answered?) ==>
              PipeEnabled(p, Manager(Q.Ask(t, q, id)))
  {
    hide DataSide, StoreSide, Q.Inv, B.Inv;
    CallsPossible(p);
  }

  /** In every reachable state of the pipeline each party can move, unless it waits for a mutex, and then the
      holder of a mutex can: datamgr always, storagemgr unless it has exited, a producer inside an
      insertion, and a thread inside a query. */
  lemma PipelineNeverSticks(states: seq<Pipe>, actions: seq<PipeAction>, i: nat)
    requires IsPipeRun(states, actions) && i < |states|
    ensures var p := states[i];
            && (exists a: PipeAction :: PipeEnabled(p, a) && (DataAction(a) || HolderAction(p, a)))
            && (p.spc != StoreExit ==>
                  exists a: PipeAction :: PipeEnabled(p, a) && (StoreAction(a) || HolderAction(p, a)))
            && (forall t :: 0 <= t < |p.sb.threads| && !p.sb.threads[t].Idle? && !p.sb.threads[t].Done? ==>
                  exists a: PipeAction :: PipeEnabled(p, a) && a.Buffer? && a.a.Run?
                                          && (a.a.t == t || HolderAction(p, a)))
            && (forall t :: 0 <= t < |p.mgr.threads| && !p.mgr.threads[t].Ready? && !p.mgr.threads[t].Answered? ==>
                  exists a: PipeAction :: PipeEnabled(p, a) && a.Manager? && a.b.Run?
                                          && (a.b.t == t || HolderAction(p, a)))
  {
    hide PipeInv, PipeStep, PipeEnabled, PipeInit, DataAction, StoreAction, HolderAction;
    PipeRunInv(states, actions, i);
    var p := states[i];
    DatamgrCanMove(p);
    if p.spc != StoreExit {
      StoragemgrCanMove(p);
    }
    forall t | 0 <= t < |p.sb.threads| && !p.sb.threads[t].Idle? && !p.sb.threads[t].Done?
      ensures exists a: PipeAction :: PipeEnabled(p, a) && a.Buffer? && a.a.Run?
                                      && (a.a.t == t || HolderAction(p, a))
    {
      BufferCanMove(p, t);
    }
    forall t | 0 <= t < |p.mgr.threads| && !p.mgr.threads[t].Ready? && !p.mgr.threads[t].Answered?
      ensures exists a: PipeAction :: PipeEnabled(p, a) && a.Manager? && a.b.Run?
                                      && (a.b.t == t || HolderAction(p, a))
    {
      TableCanMove(p, t);
    }
  }

  // ---- short calls

  /** Action `a` begins an update or a query of table thread `t`. */
  predicate BeginsOnTable(a: PipeAction, t: nat) {
    (a.DataBegin? && t == UPDATER) || (a.Manager? && !a.b.Run? && a.b.t == t)
  }

  predicate BeginsOnBuffer(a: PipeAction, t: nat) {
    a.Buffer? && a.a.Call? && a.a.t == t
  }

  /** The statements that table thread `t` executes among the actions from `i` to `j`. */
  function TableSteps(actions: seq<PipeAction>, i: nat, j: nat, t: nat): nat
    requires i <= j <= |actions|
    decreases j
  {
    if i == j then 0
    else
      var a := actions[j - 1];
      TableSteps(actions, i, j - 1, t) + if a.Manager? && a.b.t == t then 1 else 0
  }

  function BufferSteps(actions: seq<PipeAction>, i: nat, j: nat, t: nat): nat
    requires i <= j <= |actions|
    decreases j
  {
    if i == j then 0
    else
      var a := actions[j - 1];
      BufferSteps(actions, i, j - 1, t) + if a.Buffer? && a.a.t == t then 1 else 0
  }

  lemma TableStep(p: Pipe, a: PipeAction, t: nat)
    requires PipeInv(p) && PipeEnabled(p, a) && t < |p.mgr.threads| && !BeginsOnTable(a, t)
    ensures var q, n := PipeStep(p, a), |p.records|;
            && t < |q.mgr.threads|
            && QP.Remaining(q.mgr.threads[t], n) + (if a.Manager? && a.b.t == t then 1 else 0)
               <= QP.Remaining(p.mgr.threads[t], n)
  {
    hide BufferSide, DataSide, StoreSide, Q.Inv, Q.Enabled, Q.Step, QP.Remaining, B.Step;
    if a.Manager? {
      QP.RemainingStep(p.records, p.mgr, a.b, t);
    } else if a.DataBegin? {
      QP.RemainingStep(p.records, p.mgr, Q.Apply(UPDATER, p.dpc.r), t);
    }
  }

  /** In a pipeline run an update or a query is over after a number of its own statements that depends only on
      the number of records, whatever producers, consumers and other queries do in between. */
  lemma {:induction false} TableCallsAreShort(states: seq<Pipe>, actions: seq<PipeAction>, i: nat, j: nat, t: nat)
    requires IsPipeRun(states, actions) && i <= j < |states| && t < |states[i].mgr.threads|
    requires forall k {:trigger actions[k]} :: i <= k < j ==> !BeginsOnTable(actions[k], t)
    ensures t < |states[j].mgr.threads|
    ensures var n := |states[0].records|;
            TableSteps(actions, i, j, t) + QP.Remaining(states[j].mgr.threads[t], n)
            <= QP.Remaining(states[i].mgr.threads[t], n) <= QP.Longest(n)
    decreases j
  {
    hide PipeStep, PipeEnabled, PipeInit, BufferSide, DataSide, StoreSide, Q.Inv, QP.Remaining, QP.Longest;
    RecordsKept(states, actions, i);
    if i == j {
      PipeRunInv(states, actions, i);
      QP.RemainingBound(states[i].records, states[i].mgr, t);
    } else {
      TableCallsAreShort(states, actions, i, j - 1, t);
      PipeRunInv(states, actions, j - 1);
      RecordsKept(states, actions, j - 1);
      assert PipeEnabled(states[j - 1], actions[j - 1]) && states[j - 1 + 1] == PipeStep(states[j - 1], actions[j - 1]);
      TableStep(states[j - 1], actions[j - 1], t);
    }
  }

  lemma BufferStepShort(p: Pipe, a: PipeAction, t: nat)
    requires PipeInv(p) && PipeEnabled(p, a) && t < |p.sb.threads| && !BeginsOnBuffer(a, t)
    ensures var q := PipeStep(p, a);
            && t < |q.sb.threads|
            && BP.Remaining(q.sb.threads[t]) + (if a.Buffer? && a.a.t == t then 1 else 0)
               <= BP.Remaining(p.sb.threads[t])
  {
    hide DataSide, StoreSide, Q.Inv, Q.Enabled, Q.Step, BP.Remaining, B.Step, B.Inv, B.Enabled;
    if a.Buffer? {
      BP.RemainingStep(p.sb, a.a, t);
    }
  }

  /** And a call of sbuffer_insert or sbuffer_remove after at most nine. */
  lemma {:induction false} BufferCallsAreShort(states: seq<Pipe>, actions: seq<PipeAction>, i: nat, j: nat, t: nat)
    requires IsPipeRun(states, actions) && i <= j < |states| && t < |states[i].sb.threads|
    requires forall k {:trigger actions[k]} :: i <= k < j ==> !BeginsOnBuffer(actions[k], t)
    ensures t < |states[j].sb.threads|
    ensures BufferSteps(actions, i, j, t) + BP.Remaining(states[j].sb.threads[t])
            <= BP.Remaining(states[i].sb.threads[t]) <= 9
    decreases j
  {
    hide PipeInv, PipeStep, PipeEnabled, PipeInit;
    if i < j {
      BufferCallsAreShort(states, actions, i, j - 1, t);
      PipeRunInv(states, actions, j - 1);
      assert PipeEnabled(states[j - 1], actions[j - 1]) && states[j - 1 + 1] == PipeStep(states[j - 1], actions[j - 1]);
      BufferStepShort(states[j - 1], actions[j - 1], t);
    }
  }

  // ---- queries in real time

  lemma AskedStep(p: Pipe, a: PipeAction, t: nat)
    requires PipeEnabled(p, a) && t < |p.mgr.threads| && !BeginsOnTable(a, t)
    requires Q.AskedOf(p.mgr.threads[t]).Some?
    ensures var q := PipeStep(p, a);
            t < |q.mgr.threads| && Q.AskedOf(q.mgr.threads[t]) == Q.AskedOf(p.mgr.threads[t])
  {
    hide Q.Enabled, Q.Step, Q.AskedOf, B.Step;
    if a.Manager? {
      Q.AskedStep(p.mgr, a.b, t);
    } else if a.DataBegin? {
      Q.AskedStep(p.mgr, Q.Apply(UPDATER, p.dpc.r), t);
    }
  }

  lemma {:induction false} AskedKept(states: seq<Pipe>, actions: seq<PipeAction>, j: nat, k: nat, t: nat)
    requires IsPipeRun(states, actions) && j < k < |states|
    requires actions[j].Manager? && actions[j].b.Ask? && actions[j].b.t == t
    requires forall m {:trigger actions[m]} :: j < m < k ==> !BeginsOnTable(actions[m], t)
    ensures t < |states[k].mgr.threads|
    ensures Q.AskedOf(states[k].mgr.threads[t])
            == Some(Q.Asked(actions[j].b.q, actions[j].b.id, |states[j].mgr.applied|))
    decreases k
  {
    hide PipeInit, Q.AskedOf, Q.Step, Q.Enabled, B.Step;
    assert PipeEnabled(states[k - 1], actions[k - 1]) && states[k - 1 + 1] == PipeStep(states[k - 1], actions[k - 1]);
    if k == j + 1 {
      Q.AskedAtCall(states[j].mgr, actions[j].b);
    } else {
      AskedKept(states, actions, j, k - 1, t);
      AskedStep(states[k - 1], actions[k - 1], t);
    }
  }

  /** In real time: a query called (at step `j`) after another one, of any thread, has returned (by state `i`) sees
      a prefix of what datamgr has taken from the buffer that is at least as long. */
  lemma LaterQueriesSeeMore(states: seq<Pipe>, actions: seq<PipeAction>, i: nat, t: nat, j: nat, u: nat, k: nat)
    requires IsPipeRun(states, actions) && i <= j < k < |states|
    requires t < |states[i].mgr.threads| && states[i].mgr.threads[t].Answered?
    requires actions[j].Manager? && actions[j].b.Ask? && actions[j].b.t == u
    requires forall m {:trigger actions[m]} :: j < m < k ==> !BeginsOnTable(actions[m], u)
    requires u < |states[k].mgr.threads| && states[k].mgr.threads[u].Answered?
    ensures t < |states[i].mgr.seen| && u < |states[k].mgr.seen|
    ensures var before, after, share :=
              states[i].mgr.threads[t], states[k].mgr.threads[u], R.Share(states[k].sb.rem, DATAMGR);
            var m, n := states[i].mgr.seen[t], states[k].mgr.seen[u];
            && m <= |states[j].mgr.applied| <= n <= |share|
            && before.answer == Q.AnswerAfter(states[0].records, before.q, before.id, share[..m])
            && after.answer == Q.AnswerAfter(states[0].records, after.q, after.id, share[..n])
  {
    hide PipeInv, PipeInit, PipeStep, PipeEnabled, Q.AnswerAfter, R.Share;
    PipelineAnswers(states, actions, i, t);
    PipelineAnswers(states, actions, k, u);
    AskedKept(states, actions, j, k, u);
    PipelinePrefixesGrow(states, actions, i, j, t);
    PipelinePrefixesGrow(states, actions, i, k, t);
    PipeRunInv(states, actions, i);
    PipeRunInv(states, actions, k);
    AppliedIsShare(states[i]);
    AppliedIsShare(states[k]);
    SeenWithin(states[i], t);
    var m := states[i].mgr.seen[t];
    assert R.Share(states[k].sb.rem, DATAMGR)[..m] == R.Share(states[i].sb.rem, DATAMGR)[..m];
  }

  /** A query that was called at step `j` and has returned by state `k` gave the true answer, to the question that
      was asked, after some prefix of what datamgr has taken from the buffer that includes all it had
      applied by the call. */
  lemma PipelineQueryOutcome(states: seq<Pipe>, actions: seq<PipeAction>, j: nat, k: nat, t: nat)
    requires IsPipeRun(states, actions) && j < k < |states|
    requires actions[j].Manager? && actions[j].b.Ask? && actions[j].b.t == t
    requires forall m {:trigger actions[m]} :: j < m < k ==> !BeginsOnTable(actions[m], t)
    requires t < |states[k].mgr.threads| && states[k].mgr.threads[t].Answered?
    ensures var share, ask := R.Share(states[k].sb.rem, DATAMGR), actions[j].b;
            exists n {:trigger share[..n]} ::
              && |states[j].mgr.applied| <= n <= |share|
              && QO.TrueAnswer(states[0].records, ask.q, ask.id, share[..n], states[k].mgr.threads[t].answer)
  {
    hide PipeInv, PipeInit, PipeStep, PipeEnabled, Q.AnswerAfter, R.Share, QO.TrueAnswer;
    PipelineAnswers(states, actions, k, t);
    AskedKept(states, actions, j, k, t);
    var share, ask, n := R.Share(states[k].sb.rem, DATAMGR), actions[j].b, states[k].mgr.seen[t];
    QO.AnswerAfterIsTrue(states[0].records, ask.q, ask.id, share[..n]);
  }

  lemma SeenWithin(p: Pipe, t: nat)
    requires PipeInv(p) && t < |p.mgr.threads|
    ensures t < |p.mgr.seen| && p.mgr.seen[t] <= |p.mgr.applied|
  {
    hide BufferSide, DataSide, StoreSide, Q.Table, Q.Searched, Q.Mutex, Q.AnswerAfter;
    assert Q.AnswerSound(p.records, p.mgr.threads[t], p.mgr.seen[t], p.mgr.applied);
  }
}
