/** What runs of the buffer say about single calls: each returned call has one commit point, inside its lock
    region; a call needs few steps of its own; and some thread can always move. */
module SBufferProgress {
  import opened Util
  import opened Windows
  import opened SBufferThreads
  import opened SBufferRefinement

  /** The status of thread `t` in state `k` of a run. */
  function Status(states: seq<State>, k: nat, t: nat): CallState
    requires k < |states| && t < |states[k].threads|
  {
    Meaning(states[k].threads[t])
  }

  /** Between states `i` and `j` thread `t` makes no call. */
  ghost predicate NoCall(actions: seq<Action>, i: nat, j: nat, t: nat) {
    forall k {:trigger actions[k]} :: i <= k < j && k < |actions| ==> !(actions[k].Call? && actions[k].t == t)
  }

  /** Step `k` of the run is the commit point of a call of `t`: the whole effect of the operation on the
      queue of that moment, while `t` holds the lock unless it is a failed insertion. */
  ghost predicate CommitPoint(states: seq<State>, actions: seq<Action>, k: nat, t: nat, op: Op, r: Result)
    requires IsRun(states, actions)
  {
    && k < |actions| && actions[k].t == t
    && Enabled(states[k], actions[k])
    && Image(states[k], actions[k]).Commits?
    && var o := Image(states[k], actions[k]).o;
    && o.result == r && Effect(op, Queue(states[k]), o) && o.queue == Queue(states[k + 1])
    && (r != Failure ==> states[k].lock == Some(t) && states[k + 1].lock == Some(t))
  }

  ghost predicate Commits(states: seq<State>, actions: seq<Action>, k: nat, t: nat)
    requires IsRun(states, actions) && k < |actions|
  {
    actions[k].t == t && Enabled(states[k], actions[k]) && Image(states[k], actions[k]).Commits?
  }

  /** What has happened to a call of `op` that was pending in state `i`, by state `j`. */
  ghost predicate CallSoFar(states: seq<State>, actions: seq<Action>, i: nat, j: nat, t: nat, op: Op)
    requires IsRun(states, actions) && j < |states| && t < |states[j].threads|
  {
    match Status(states, j, t)
    case NotCalled => false
    case Pending(o) =>
      && o == op
      && forall m {:trigger Commits(states, actions, m, t)} :: i <= m < j ==> !Commits(states, actions, m, t)
    case Finished(r) => OneCommit(states, actions, i, j, t, op, r)
    case Returned(r) => OneCommit(states, actions, i, j, t, op, r)
  }

  /** Between states `i` and `j` thread `t` commits exactly once, and there with the effect of `op`. */
  ghost predicate OneCommit(states: seq<State>, actions: seq<Action>, i: nat, j: nat, t: nat, op: Op, r: Result)
    requires IsRun(states, actions) && j < |states|
  {
    exists k: nat {:trigger CommitPoint(states, actions, k, t, op, r)} ::
      && i <= k < j && CommitPoint(states, actions, k, t, op, r)
      && forall m {:trigger Commits(states, actions, m, t)} :: i <= m < j && Commits(states, actions, m, t) ==> m == k
  }

  /** One step of the run, seen by the call of `t`. */
  lemma StatusStep(s: State, a: Action, t: nat)
    requires Inv(s) && Enabled(s, a) && t < |s.threads|
    ensures |Step(s, a).threads| == |s.threads|
    ensures var c, c' := Meaning(s.threads[t]), Meaning(Step(s, a).threads[t]);
            if a.t != t then c' == c
            else MeaningStep(Image(s, a), c, c')
  {
    hide Inv, Exec, Meaning, Effect, Tag, Queue, Image;
    StepRefines(s, a);
    assert Abs(s).calls[t] == Meaning(s.threads[t]);
    assert Abs(Step(s, a)).calls[t] == Meaning(Step(s, a).threads[t]);
  }

  ghost predicate MeaningStep(k: SpecStep, c: CallState, c': CallState) {
    match k
    case Invokes(op) => (c.NotCalled? || c.Returned?) && c' == Pending(op)
    case Commits(o) => c.Pending? && c' == Finished(o.result)
    case Returns => c.Finished? && c' == Returned(c.result)
    case Stutters => c' == c
  }

  /** The commit of a pending call of `op` is an effect of `op`. */
  lemma CommitIsPoint(states: seq<State>, actions: seq<Action>, k: nat, t: nat, op: Op)
    requires IsRun(states, actions) && k < |actions| && Commits(states, actions, k, t)
    requires t < |states[k].threads| && Status(states, k, t) == Pending(op)
    ensures CommitPoint(states, actions, k, t, op, Image(states[k], actions[k]).o.result)
  {
    hide Inv, Exec, Meaning, Effect, Queue, Image, Step, Init;
    RunInv(states, actions, k);
    assert states[k + 1] == Step(states[k], actions[k]);
    StepRefines(states[k], actions[k]);
    SpecCommit(states[k], actions[k]);
    if Image(states[k], actions[k]).o.result != Failure {
      EffectsInsideLock(states[k], actions[k]);
    }
  }

  lemma SpecCommit(s: State, a: Action)
    requires Enabled(s, a) && Image(s, a).Commits?
    requires SpecNext(Abs(s), Abs(Step(s, a)), a.t, Image(s, a))
    ensures var o := Image(s, a).o;
            && a.t < |s.threads| && Meaning(s.threads[a.t]).Pending?
            && Effect(Meaning(s.threads[a.t]).op, Queue(s), o) && o.queue == Queue(Step(s, a))
  {
    hide Exec, Meaning, Effect, Queue, Image;
    assert Abs(s).calls[a.t] == Meaning(s.threads[a.t]);
  }

  lemma {:induction false} CallHistory(states: seq<State>, actions: seq<Action>, i: nat, j: nat, t: nat, op: Op)
    requires IsRun(states, actions) && i <= j < |states|
    requires t < |states[i].threads| && Status(states, i, t) == Pending(op)
    requires NoCall(actions, i, j, t)
    ensures t < |states[j].threads| && CallSoFar(states, actions, i, j, t, op)
    decreases j
  {
    hide Inv, Init, Step, Enabled, Image, Meaning, CommitPoint, Commits;
    if i < j {
      CallHistory(states, actions, i, j - 1, t, op);
      CallHistoryStep(states, actions, i, j - 1, t, op);
    }
  }

  lemma CallHistoryStep(states: seq<State>, actions: seq<Action>, i: nat, j: nat, t: nat, op: Op)
    requires IsRun(states, actions) && i <= j < |actions|
    requires t < |states[j].threads| && CallSoFar(states, actions, i, j, t, op)
    requires !(actions[j].Call? && actions[j].t == t)
    ensures t < |states[j + 1].threads| && CallSoFar(states, actions, i, j + 1, t, op)
  {
    hide Inv, Init, Step, Meaning, CommitPoint, Effect, Queue, Exec, Image, OneCommit;
    RunInv(states, actions, j);
    assert Enabled(states[j], actions[j]) && states[j + 1] == Step(states[j], actions[j]);
    StatusStep(states[j], actions[j], t);
    OnlyCallsInvoke(states[j], actions[j]);
    var c, c' := Status(states, j, t), Status(states, j + 1, t);
    if Commits(states, actions, j, t) {
      CommitIsPoint(states, actions, j, t, op);
      CommitNow(states, actions, i, j, t, op, c'.result);
    } else if !c.Pending? {
      CommitBefore(states, actions, i, j, t, op, c.result);
    }
  }

  lemma OnlyCallsInvoke(s: State, a: Action)
    requires Enabled(s, a)
    ensures Image(s, a).Invokes? <==> a.Call?
  {
    hide Queue;
  }

  lemma CommitNow(states: seq<State>, actions: seq<Action>, i: nat, j: nat, t: nat, op: Op, r: Result)
    requires IsRun(states, actions) && i <= j < |actions|
    requires forall m {:trigger Commits(states, actions, m, t)} :: i <= m < j ==> !Commits(states, actions, m, t)
    requires CommitPoint(states, actions, j, t, op, r)
    ensures OneCommit(states, actions, i, j + 1, t, op, r)
  {
    hide CommitPoint, Commits, Init, Step, Enabled;
  }

  lemma CommitBefore(states: seq<State>, actions: seq<Action>, i: nat, j: nat, t: nat, op: Op, r: Result)
    requires IsRun(states, actions) && i <= j < |actions|
    requires OneCommit(states, actions, i, j, t, op, r) && !Commits(states, actions, j, t)
    ensures OneCommit(states, actions, i, j + 1, t, op, r)
  {
    hide CommitPoint, Commits, Init, Step, Enabled;
    var k: nat :| i <= k < j && CommitPoint(states, actions, k, t, op, r)
                  && forall m {:trigger Commits(states, actions, m, t)} ::
                       i <= m < j && Commits(states, actions, m, t) ==> m == k;
    assert CommitPoint(states, actions, k, t, op, r);
  }

  /** Every call that has returned took effect at exactly one step between its call and its return: there
      the queue changed as the operation prescribes, the result returned is the result of that step,
      and the thread held the lock (unless it is an insertion that failed for lack of memory). */
  lemma ReturnedCallsHaveOneCommitPoint(states: seq<State>, actions: seq<Action>, i: nat, j: nat, t: nat,
                                        op: Op, r: Result)
    requires IsRun(states, actions) && i <= j < |states| && t < |states[i].threads|
    requires NoCall(actions, i, j, t) && Status(states, i, t) == Pending(op)
    requires t < |states[j].threads| && Status(states, j, t) == Returned(r)
    ensures OneCommit(states, actions, i, j, t, op, r)
  {
    hide Inv, Init, Step, Enabled, Image, Meaning, CommitPoint, Commits;
    CallHistory(states, actions, i, j, t, op);
  }

  // ---- progress

  /** An upper bound on the steps a thread still takes in its call. */
  function Remaining(pc: Pc): nat {
    match pc
    case Idle => 0
    case Done(_) => 0
    case InsMalloc(_) => 8
    case InsFail => 1
    case InsData(_, _) => 7
    case InsNext(_, _) => 6
    case InsLock(_, _) => 5
    case InsTest(_, _) => 4
    case InsTail(_, _) => 3
    case InsLink(_, _) => 3
    case InsHead(_, _) => 2
    case InsAdvance(_, _) => 2
    case InsUnlock => 1
    case RemLock => 9
    case RemTest => 8
    case RemUnlockEmpty => 1
    case RemCopy => 7
    case RemSave(_) => 6
    case RemCompare(_, _) => 5
    case RemClearTail(_, _) => 4
    case RemClearHead(_, _) => 3
    case RemAdvance(_, _) => 3
    case RemFree(_, _) => 2
    case RemUnlock(_) => 1
  }

  lemma OwnStepProgress(s: State, t: nat, c: Choice)
    requires Inv(s) && Enabled(s, Run(t, c))
    ensures Remaining(Exec(s, t, c).threads[t]) < Remaining(s.threads[t])
  {
    hide Inv, Exec, Remaining, Inserting, Unlinking;
    if Inserting(s.threads[t]) {
      InsertProgress(s, t, c);
    } else if Unlinking(s.threads[t]) {
      UnlinkProgress(s, t, c);
    } else {
      RemoveProgress(s, t, c);
    }
  }

  lemma InsertProgress(s: State, t: nat, c: Choice)
    requires Inv(s) && Enabled(s, Run(t, c)) && Inserting(s.threads[t])
    ensures Remaining(Exec(s, t, c).threads[t]) < Remaining(s.threads[t])
  {
    hide Mutex, Linked, Memory, Private, Shared, Ends;
    NoFault(s, t, c);
  }

  lemma UnlinkProgress(s: State, t: nat, c: Choice)
    requires Inv(s) && Enabled(s, Run(t, c)) && Unlinking(s.threads[t])
    ensures Remaining(Exec(s, t, c).threads[t]) < Remaining(s.threads[t])
  {
    hide Mutex, Linked, Memory, Private, Shared, Ends;
    NoFault(s, t, c);
  }

  lemma RemoveProgress(s: State, t: nat, c: Choice)
    requires Inv(s) && Enabled(s, Run(t, c)) && !Inserting(s.threads[t]) && !Unlinking(s.threads[t])
    ensures Remaining(Exec(s, t, c).threads[t]) < Remaining(s.threads[t])
  {
    hide Mutex, Linked, Memory, Private, Shared, Ends;
    NoFault(s, t, c);
  }

  /** The steps of `t` among the actions from `i` to `j`. */
  function OwnSteps(actions: seq<Action>, i: nat, j: nat, t: nat): nat
    requires i <= j <= |actions|
    decreases j
  {
    if i == j then 0 else OwnSteps(actions, i, j - 1, t) + if actions[j - 1].t == t then 1 else 0
  }

  /** A call is over after at most nine steps of its own thread, however the others interleave. */
  lemma {:induction false} CallsAreShort(states: seq<State>, actions: seq<Action>, i: nat, j: nat, t: nat)
    requires IsRun(states, actions) && i <= j < |states|
    requires t < |states[i].threads| && NoCall(actions, i, j, t)
    ensures t < |states[j].threads|
    ensures OwnSteps(actions, i, j, t) + Remaining(states[j].threads[t]) <= Remaining(states[i].threads[t]) <= 9
    decreases j
  {
    hide Inv, Init, Enabled, Exec;
    if i < j {
      CallsAreShort(states, actions, i, j - 1, t);
      RunInv(states, actions, j - 1);
      assert Enabled(states[j - 1], actions[j - 1]) && states[j - 1 + 1] == Step(states[j - 1], actions[j - 1]);
      RemainingStep(states[j - 1], actions[j - 1], t);
    }
  }

  lemma RemainingStep(s: State, a: Action, t: nat)
    requires Inv(s) && Enabled(s, a) && t < |s.threads| && !(a.Call? && a.t == t)
    ensures t < |Step(s, a).threads|
    ensures Remaining(Step(s, a).threads[t]) + (if a.t == t then 1 else 0) <= Remaining(s.threads[t])
  {
    hide Inv, Exec, Remaining;
    if a.Run? && a.t == t {
      OwnStepProgress(s, t, a.choice);
    }
  }

  /** A thread that keeps the lock from state `i` to state `j` has taken at most eight steps in between:
      the lock is given back after a fixed number of the holder's own steps. */
  lemma LockHeldBriefly(states: seq<State>, actions: seq<Action>, i: nat, j: nat, t: nat)
    requires IsRun(states, actions) && i <= j < |states|
    requires forall k {:trigger states[k]} :: i <= k <= j ==> states[k].lock == Some(t)
    ensures OwnSteps(actions, i, j, t) < 8
  {
    hide Inv, Init, Exec, Enabled, Remaining;
    forall k | i <= k < j ensures !(actions[k].Call? && actions[k].t == t) {
      RunInv(states, actions, k);
      assert Enabled(states[k], actions[k]) && states[k].lock == Some(t);
      HolderMakesNoCall(states[k], actions[k], t);
    }
    RunInv(states, actions, i);
    RunInv(states, actions, j);
    HolderRemaining(states[i], t);
    CallsAreShort(states, actions, i, j, t);
    HolderRemaining(states[j], t);
  }

  lemma HolderMakesNoCall(s: State, a: Action, t: nat)
    requires Inv(s) && Enabled(s, a) && s.lock == Some(t)
    ensures !(a.Call? && a.t == t)
  {
    hide Linked, Memory, Private, Shared, Ends;
  }

  lemma HolderRemaining(s: State, t: nat)
    requires Inv(s) && s.lock == Some(t)
    ensures t < |s.threads| && 1 <= Remaining(s.threads[t]) <= 8
  {
    hide Linked, Memory, Private, Shared, Ends;
    assert Critical(s.threads[t]);
  }

  /** No deadlock: whenever some call is in flight, some thread inside a call can take a step. */
  lemma SomeoneCanMove(s: State, t: nat, garbage: HeapNode)
    requires Inv(s) && t < |s.threads| && !s.threads[t].Idle? && !s.threads[t].Done?
    ensures Enabled(s, Run(t, Choice(NULL, garbage)))
            || (s.lock.Some? && Enabled(s, Run(s.lock.value, Choice(NULL, garbage))))
  {
    hide Memory, Private, Shared, Ends;
    assert NULL !in s.heap;
    if s.lock.Some? {
      assert Critical(s.threads[s.lock.value]);
    }
  }

  lemma RunsNeverStick(states: seq<State>, actions: seq<Action>, i: nat, t: nat)
    requires IsRun(states, actions) && i < |states| && t < |states[i].threads|
    requires !states[i].threads[t].Idle? && !states[i].threads[t].Done?
    ensures exists a: Action :: a.Run? && Enabled(states[i], a)
  {
    hide Inv, Init, Step, Enabled;
    RunInv(states, actions, i);
    var garbage := HeapNode(NULL, Reading(0, 0.0, 0));
    SomeoneCanMove(states[i], t, garbage);
  }
}
