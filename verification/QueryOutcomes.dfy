/** What an update or a query has done by the time it returns, told by the calls, the map file, the readings and
    the answers alone. */
module QueryOutcomes {
  import opened Util
  import opened Windows
  import opened QueryThreads

  /** The answer to a query about `id` after the readings `h`, in plain terms. */
  ghost predicate TrueAnswer(records: seq<Record>, q: Query, id: U16, h: seq<Reading>, answer: Answer) {
    match q
    case AskRoom => answer.RoomIs? && IsRoom(records, id, answer.room)
    case AskAvg => answer.AvgIs? && IsAverage(records, id, h, answer.avg)
    case AskLast => answer.LastIs? && IsLatest(records, id, h, answer.last)
  }

  lemma AnswerAfterIsTrue(records: seq<Record>, q: Query, id: U16, h: seq<Reading>)
    ensures TrueAnswer(records, q, id, h, AnswerAfter(records, q, id, h))
  {
    hide IsRoom, IsAverage, IsLatest, RoomAnswer, AvgAnswer, LastAnswer;
    AnswersSpelledOut(records, id, h);
  }

  /** A query that was called at step `j` and has returned by state `k` gave the true answer, to the question
      that was asked, after some prefix of the applied readings that includes all applied by the call. */
  lemma QueryOutcome(records: seq<Record>, states: seq<State>, actions: seq<Action>, j: nat, k: nat, t: nat)
    requires IsRun(records, states, actions) && j < k < |states|
    requires actions[j].Ask? && actions[j].t == t && NoCall(actions, j + 1, k, t)
    requires t < |states[k].threads| && states[k].threads[t].Answered?
    ensures exists n {:trigger states[k].applied[..n]} ::
              && |states[j].applied| <= n <= |states[k].applied|
              && TrueAnswer(records, actions[j].q, actions[j].id, states[k].applied[..n], states[k].threads[t].answer)
  {
    hide Inv, Init, Step, Enabled, AnswerAfter, TrueAnswer;
    QueriesAtomic(records, states, actions, k, t);
    AskedKept(records, states, actions, j, k, t);
    var n := states[k].seen[t];
    AnswerAfterIsTrue(records, actions[j].q, actions[j].id, states[k].applied[..n]);
  }

  // ---- updates

  /** At step `m` thread `t` changes which readings count as applied. */
  ghost predicate Counts(states: seq<State>, actions: seq<Action>, m: nat, t: nat) {
    m < |actions| && m + 1 < |states| && actions[m] == Run(t) && states[m + 1].applied != states[m].applied
  }

  ghost predicate CountsOnce(states: seq<State>, actions: seq<Action>, j: nat, k: nat, t: nat, r: Reading) {
    exists m: nat {:trigger Counts(states, actions, m, t)} ::
      && j < m < k && Counts(states, actions, m, t) && states[m + 1].applied == states[m].applied + [r]
      && forall l: nat {:trigger Counts(states, actions, l, t)} :: j < l < k && Counts(states, actions, l, t) ==> l == m
  }

  /** What an update of `r` called at step `j` has done by state `k`. */
  ghost predicate UpdateSoFar(states: seq<State>, actions: seq<Action>, j: nat, k: nat, t: nat, r: Reading)
    requires k < |states| && t < |states[k].threads|
  {
    var pc := states[k].threads[t];
    if Holding(pc).Some? then
      && Holding(pc).value == r
      && forall l: nat {:trigger Counts(states, actions, l, t)} :: j < l < k ==> !Counts(states, actions, l, t)
    else (pc.UpdUnlock? || pc.Ready?) && CountsOnce(states, actions, j, k, t, r)
  }

  lemma AppliedGrows(s: State, a: Action, t: nat)
    requires Enabled(s, a) && t < |s.threads| && a.t != t
    ensures t < |Step(s, a).threads| && Step(s, a).threads[t] == s.threads[t]
  {
  }

  lemma {:induction false} UpdateHistory(records: seq<Record>, states: seq<State>, actions: seq<Action>,
                                         j: nat, k: nat, t: nat, r: Reading)
    requires IsRun(records, states, actions) && j < k < |states|
    requires actions[j] == Apply(t, r) && NoCall(actions, j + 1, k, t)
    ensures t < |states[k].threads| && UpdateSoFar(states, actions, j, k, t, r)
    decreases k
  {
    hide Init, Exec, Holding, Counts, CountsOnce;
    var n := k - 1;
    assert Enabled(states[n], actions[n]) && states[n + 1] == Step(states[n], actions[n]);
    if k == j + 1 {
      StartsHolding(states[j], t, r);
    } else {
      UpdateHistory(records, states, actions, j, n, t, r);
      if actions[n].t == t {
        OwnUpdateStep(states, actions, j, n, t, r);
      } else {
        AppliedGrows(states[n], actions[n], t);
        OthersDoNotCount(states, actions, j, n, t, r);
      }
    }
  }

  lemma StartsHolding(s: State, t: nat, r: Reading)
    requires Enabled(s, Apply(t, r))
    ensures t < |Step(s, Apply(t, r)).threads| && Holding(Step(s, Apply(t, r)).threads[t]) == Some(r)
  {
  }

  lemma OthersDoNotCount(states: seq<State>, actions: seq<Action>, j: nat, n: nat, t: nat, r: Reading)
    requires n < |actions| && |states| == |actions| + 1 && actions[n].t != t
    requires t < |states[n].threads| && t < |states[n + 1].threads| && states[n + 1].threads[t] == states[n].threads[t]
    requires UpdateSoFar(states, actions, j, n, t, r)
    ensures UpdateSoFar(states, actions, j, n + 1, t, r)
  {
    hide Holding;
    assert !Counts(states, actions, n, t);
    if CountsOnce(states, actions, j, n, t, r) {
      CountedBefore(states, actions, j, n, t, r);
    }
  }

  lemma CountedBefore(states: seq<State>, actions: seq<Action>, j: nat, n: nat, t: nat, r: Reading)
    requires CountsOnce(states, actions, j, n, t, r) && !Counts(states, actions, n, t)
    ensures CountsOnce(states, actions, j, n + 1, t, r)
  {
    var m: nat :| j < m < n && Counts(states, actions, m, t) && states[m + 1].applied == states[m].applied + [r]
                  && forall l: nat {:trigger Counts(states, actions, l, t)} ::
                       j < l < n && Counts(states, actions, l, t) ==> l == m;
    assert Counts(states, actions, m, t);
  }

  lemma OwnUpdateStep(states: seq<State>, actions: seq<Action>, j: nat, n: nat, t: nat, r: Reading)
    requires j < n < |actions| && |states| == |actions| + 1 && actions[n] == Run(t)
    requires Enabled(states[n], actions[n]) && states[n + 1] == Step(states[n], actions[n])
    requires t < |states[n].threads| && t < |states[n + 1].threads| && UpdateSoFar(states, actions, j, n, t, r)
    ensures UpdateSoFar(states, actions, j, n + 1, t, r)
  {
    hide Holding, Exec;
    HoldingStep(states[n], t);
    if Holding(states[n].threads[t]).Some? {
      if states[n + 1].threads[t] == UpdUnlock && states[n + 1].applied == states[n].applied + [r] {
        assert Holding(UpdUnlock) == None by { UnlockHoldsNothing(); }
        assert Counts(states, actions, n, t);
      }
    } else {
      CountedBefore(states, actions, j, n, t, r);
    }
  }

  lemma UnlockHoldsNothing()
    ensures Holding(UpdUnlock) == None
  {
  }

  /** An update of `r` called at step `j` that has returned by state `k` made `r`, and nothing else, count as
      applied, exactly once. */
  lemma UpdateOutcome(records: seq<Record>, states: seq<State>, actions: seq<Action>, j: nat, k: nat, t: nat,
                      r: Reading)
    requires IsRun(records, states, actions) && j < k < |states|
    requires actions[j] == Apply(t, r) && NoCall(actions, j + 1, k, t)
    requires t < |states[k].threads| && states[k].threads[t].Ready?
    ensures exists m: nat {:trigger Counts(states, actions, m, t)} ::
              && j < m < k && Counts(states, actions, m, t) && states[m + 1].applied == states[m].applied + [r]
              && forall l: nat {:trigger Counts(states, actions, l, t)} ::
                   j < l < k && Counts(states, actions, l, t) ==> l == m
  {
    hide Init, Step, Enabled, Counts;
    UpdateHistory(records, states, actions, j, k, t, r);
  }
}
