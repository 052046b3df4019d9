/** list_mutex never blocks everybody: some thread inside an update or a query can always move, and each of them
    is over after a number of its own statements that depends only on the size of the table. */
module QueryProgress {
  import opened Util
  import opened Windows
  import opened QueryThreads

  /** An upper bound on the statements a thread still executes in its call, for a table of `n` entries. */
  function Remaining(pc: Pc, n: nat): nat {
    match pc
    case Ready => 0
    case Answered(_, _, _, _) => 0
    case UpdLock(_) => 9 + RUN_AVG_LENGTH + 2 * n
    case UpdSearch(_, i) => 8 + RUN_AVG_LENGTH + n + Rest(i, n)
    case UpdFetch(_, i, k) => 7 + RUN_AVG_LENGTH + Rest(k, i)
    case UpdLast(_, _) => 6 + RUN_AVG_LENGTH
    case UpdMove(_, _) => 5 + RUN_AVG_LENGTH
    case UpdSlot(_, _) => 4 + RUN_AVG_LENGTH
    case UpdSum(_, _, k, _) => 3 + Rest(k, RUN_AVG_LENGTH)
    case UpdAvg(_, _, _) => 2
    case UpdUnlock => 1
    case AskLock(_, _, _) => 5 + 2 * n
    case AskSearch(_, _, _, i) => 4 + n + Rest(i, n)
    case AskFetch(_, _, _, i, k) => 3 + Rest(k, i)
    case AskRead(_, _, _, _) => 2
    case AskUnlock(_, _, _, _) => 1
  }

  function Rest(k: nat, n: nat): nat {
    if k < n then n - k else 0
  }

  /** The most statements an update or a query can take. */
  function Longest(n: nat): nat {
    9 + RUN_AVG_LENGTH + 2 * n
  }

  /** In the middle of changing an entry. */
  predicate Writing(pc: Pc) {
    pc.UpdLast? || pc.UpdMove? || pc.UpdSlot? || pc.UpdSum? || pc.UpdAvg?
  }

  lemma OwnStepProgress(records: seq<Record>, s: State, t: nat)
    requires Inv(records, s) && Enabled(s, Run(t))
    ensures |Exec(s, t).table| == |s.table| == |records|
    ensures Remaining(Exec(s, t).threads[t], |records|) < Remaining(s.threads[t], |records|)
  {
    hide Inv, Exec, Remaining, Writing, Holding;
    if Writing(s.threads[t]) {
      WriteProgress(records, s, t);
    } else if Holding(s.threads[t]).Some? {
      SearchProgress(records, s, t);
    } else {
      AskProgress(records, s, t);
    }
  }

  lemma WriteProgress(records: seq<Record>, s: State, t: nat)
    requires Inv(records, s) && Enabled(s, Run(t)) && Writing(s.threads[t])
    ensures |Exec(s, t).table| == |s.table| == |records|
    ensures Remaining(Exec(s, t).threads[t], |records|) < Remaining(s.threads[t], |records|)
  {
    hide Mutex, AnswerSound, EntryAfter, Holder;
    MutexKept(records, s, t);
    TableSize(records, s);
    if s.threads[t].UpdSum? {
      EntryLength(records, s.threads[t].i, s.applied);
    }
  }

  lemma SearchProgress(records: seq<Record>, s: State, t: nat)
    requires Inv(records, s) && Enabled(s, Run(t)) && !Writing(s.threads[t]) && Holding(s.threads[t]).Some?
    ensures |Exec(s, t).table| == |s.table| == |records|
    ensures Remaining(Exec(s, t).threads[t], |records|) < Remaining(s.threads[t], |records|)
  {
    hide Mutex, AnswerSound, EntryAfter, Holder, Table, Searched;
    TableSize(records, s);
  }

  lemma AskProgress(records: seq<Record>, s: State, t: nat)
    requires Inv(records, s) && Enabled(s, Run(t)) && Holding(s.threads[t]).None?
    ensures |Exec(s, t).table| == |s.table| == |records|
    ensures Remaining(Exec(s, t).threads[t], |records|) < Remaining(s.threads[t], |records|)
  {
    hide Mutex, AnswerSound, EntryAfter, Holder, Table, Searched;
    TableSize(records, s);
  }

  lemma RemainingBound(records: seq<Record>, s: State, t: nat)
    requires Inv(records, s) && t < |s.threads|
    ensures Remaining(s.threads[t], |records|) <= Longest(|records|)
    ensures s.lock == Some(t) ==> 1 <= Remaining(s.threads[t], |records|) < Longest(|records|)
  {
    hide AnswerSound, Table;
    assert Critical(s.threads[t]) <==> s.lock == Some(t);
  }

  /** A step of the machine, seen by the call of `t`. */
  lemma RemainingStep(records: seq<Record>, s: State, a: Action, t: nat)
    requires Inv(records, s) && Enabled(s, a) && t < |s.threads| && !CallsBy(a, t)
    ensures t < |Step(s, a).threads|
    ensures Remaining(Step(s, a).threads[t], |records|) + (if a.t == t then 1 else 0)
            <= Remaining(s.threads[t], |records|)
  {
    hide Inv, Exec, Remaining;
    if a.t == t {
      OwnStepProgress(records, s, t);
    }
  }

  /** The steps of `t` among the actions from `i` to `j`. */
  function OwnSteps(actions: seq<Action>, i: nat, j: nat, t: nat): nat
    requires i <= j <= |actions|
    decreases j
  {
    if i == j then 0 else OwnSteps(actions, i, j - 1, t) + if actions[j - 1].t == t then 1 else 0
  }

  /** An update or a query is over after a bounded number of its own statements, however the others interleave. */
  lemma {:induction false} CallsAreShort(records: seq<Record>, states: seq<State>, actions: seq<Action>,
                                         i: nat, j: nat, t: nat)
    requires IsRun(records, states, actions) && i <= j < |states|
    requires t < |states[i].threads| && NoCall(actions, i, j, t)
    ensures t < |states[j].threads|
    ensures OwnSteps(actions, i, j, t) + Remaining(states[j].threads[t], |records|)
            <= Remaining(states[i].threads[t], |records|) <= Longest(|records|)
    decreases j
  {
    hide Inv, Init, Enabled, Step, Remaining, Longest;
    if i == j {
      RunInv(records, states, actions, i);
      RemainingBound(records, states[i], t);
    } else {
      CallsAreShort(records, states, actions, i, j - 1, t);
      RunInv(records, states, actions, j - 1);
      assert Enabled(states[j - 1], actions[j - 1]) && states[j - 1 + 1] == Step(states[j - 1], actions[j - 1]);
      RemainingStep(records, states[j - 1], actions[j - 1], t);
    }
  }

  lemma HolderMakesNoCall(records: seq<Record>, s: State, a: Action, t: nat)
    requires Inv(records, s) && Enabled(s, a) && s.lock == Some(t)
    ensures t < |s.threads| && !CallsBy(a, t)
  {
    hide Table, Searched, AnswerSound;
  }

  /** list_mutex is given back after a bounded number of the holder's own statements. */
  lemma LockHeldBriefly(records: seq<Record>, states: seq<State>, actions: seq<Action>, i: nat, j: nat, t: nat)
    requires IsRun(records, states, actions) && i <= j < |states|
    requires forall k {:trigger states[k]} :: i <= k <= j ==> states[k].lock == Some(t)
    ensures OwnSteps(actions, i, j, t) < Longest(|records|) - 1
  {
    hide Inv, Init, Step, Enabled, Remaining, Longest;
    forall k {:trigger actions[k]} | i <= k < j ensures !CallsBy(actions[k], t) {
      RunInv(records, states, actions, k);
      assert Enabled(states[k], actions[k]) && states[k].lock == Some(t);
      HolderMakesNoCall(records, states[k], actions[k], t);
    }
    RunInv(records, states, actions, i);
    RunInv(records, states, actions, j);
    HolderIsThread(records, states[i], t);
    HolderIsThread(records, states[j], t);
    CallsAreShort(records, states, actions, i, j, t);
    RemainingBound(records, states[i], t);
    RemainingBound(records, states[j], t);
  }

  lemma HolderIsThread(records: seq<Record>, s: State, t: nat)
    requires Inv(records, s) && s.lock == Some(t)
    ensures t < |s.threads|
  {
    hide Table, Searched, AnswerSound;
  }

  /** No deadlock: a thread inside an update or a query can move, unless it waits for list_mutex; and then
      the thread that has list_mutex can. */
  lemma SomeoneCanMove(records: seq<Record>, s: State, t: nat)
    requires Inv(records, s) && t < |s.threads| && !s.threads[t].Ready? && !s.threads[t].Answered?
    ensures Enabled(s, Run(t)) || (s.lock.Some? && Enabled(s, Run(s.lock.value)))
  {
    hide Table, Searched, AnswerSound;
    if s.lock.Some? {
      assert Critical(s.threads[s.lock.value]);
    }
  }

  lemma RunsNeverStick(records: seq<Record>, states: seq<State>, actions: seq<Action>, i: nat, t: nat)
    requires IsRun(records, states, actions) && i < |states| && t < |states[i].threads|
    requires !states[i].threads[t].Ready? && !states[i].threads[t].Answered?
    ensures exists a: Action :: a.Run? && Enabled(states[i], a)
  {
    hide Inv, Init, Step, Enabled;
    RunInv(records, states, actions, i);
    SomeoneCanMove(records, states[i], t);
  }
}
