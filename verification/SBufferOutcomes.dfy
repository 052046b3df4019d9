/** What a call of the buffer has done by the time it returns, told by the calls, the results and the logs alone. */
module SBufferOutcomes {
  import opened Util
  import opened Windows
  import opened SBufferThreads
  import opened SBufferRefinement
  import opened SBufferProgress

  lemma ShareAppend(es: seq<Entry>, e: Entry, t: nat)
    ensures Share(es + [e], t) == Share(es, t) + (if e.thread == t then [e.data] else [])
  {
    assert (es + [e])[..|es + [e]| - 1] == es;
  }

  /** Steps of other threads change neither where `t` stands nor what is logged for `t`. */
  lemma OtherStep(s: State, a: Action, t: nat)
    requires Inv(s) && Enabled(s, a) && t < |s.threads| && a.t != t
    ensures var s' := Step(s, a);
            && t < |s'.threads| && s'.threads[t] == s.threads[t]
            && Share(s'.ins, t) == Share(s.ins, t) && Share(s'.rem, t) == Share(s.rem, t)
  {
    hide Inv, Exec, Share;
    if a.Run? {
      LogsKept(s, a.t, a.choice);
      SharesGrow(s.ins, Step(s, a).ins, t);
      SharesGrow(s.rem, Step(s, a).rem, t);
    }
  }

  lemma SharesGrow(es: seq<Entry>, es': seq<Entry>, t: nat)
    ensures forall u, d :: es' == es + [Entry(u, d)] ==> Share(es', t) == Share(es, t) + (if u == t then [d] else [])
  {
    hide Share;
    forall u, d | es' == es + [Entry(u, d)]
      ensures Share(es', t) == Share(es, t) + (if u == t then [d] else [])
    {
      ShareAppend(es, Entry(u, d), t);
    }
  }

  // ---- insertions

  /** How far an insertion of `d` has come whose malloc returned `p`; `before` and `now` are the readings
      logged as inserted by its thread. */
  ghost predicate Inserts(pc: Pc, d: Reading, p: Ptr, before: seq<Reading>, now: seq<Reading>) {
    match pc
    case InsFail => p == NULL && now == before
    case InsData(e, q) => e == d && q == p != NULL && now == before
    case InsNext(e, q) => e == d && q == p != NULL && now == before
    case InsLock(e, q) => e == d && q == p != NULL && now == before
    case InsTest(e, q) => e == d && q == p != NULL && now == before
    case InsTail(e, q) => e == d && q == p != NULL && now == before
    case InsLink(e, q) => e == d && q == p != NULL && now == before
    case InsHead(_, _) => p != NULL && now == before + [d]
    case InsAdvance(_, _) => p != NULL && now == before + [d]
    case InsUnlock => p != NULL && now == before + [d]
    case Done(r) => if p == NULL then r == Failure && now == before else r == Success && now == before + [d]
    case _ => false
  }

  lemma InsertStep(s: State, t: nat, c: Choice, d: Reading, p: Ptr, before: seq<Reading>)
    requires Inv(s) && Enabled(s, Run(t, c)) && Inserts(s.threads[t], d, p, before, Share(s.ins, t))
    ensures var s' := Exec(s, t, c); Inserts(s'.threads[t], d, p, before, Share(s'.ins, t))
  {
    hide Memory, Private, Shared, Ends, Linked, Mutex, Share;
    NoFault(s, t, c);
    SharesGrow(s.ins, Exec(s, t, c).ins, t);
  }

  lemma MallocStep(s: State, t: nat, c: Choice)
    requires Inv(s) && Enabled(s, Run(t, c)) && s.threads[t].InsMalloc?
    ensures var s' := Exec(s, t, c); Inserts(s'.threads[t], s.threads[t].d, c.p, Share(s.ins, t), Share(s'.ins, t))
  {
    hide Inv, Share;
  }

  /** A step of the run, from the point of view of an insertion in progress. */
  lemma InsertionGoesOn(states: seq<State>, actions: seq<Action>, k: nat, t: nat, d: Reading, p: Ptr,
                        before: seq<Reading>)
    requires IsRun(states, actions) && k < |actions| && t < |states[k].threads|
    requires !(actions[k].Call? && actions[k].t == t)
    requires Inserts(states[k].threads[t], d, p, before, Share(states[k].ins, t))
    ensures t < |states[k + 1].threads|
    ensures Inserts(states[k + 1].threads[t], d, p, before, Share(states[k + 1].ins, t))
  {
    hide Inv, Init, Exec, Share, Inserts;
    RunInv(states, actions, k);
    assert Enabled(states[k], actions[k]) && states[k + 1] == Step(states[k], actions[k]);
    if actions[k].t == t {
      InsertStep(states[k], t, actions[k].choice, d, p, before);
    } else {
      OtherStep(states[k], actions[k], t);
    }
  }

  lemma {:induction false} InsertionSoFar(states: seq<State>, actions: seq<Action>, m: nat, j: nat, t: nat)
    requires IsRun(states, actions) && m < j < |states| && NoCall(actions, m, j, t)
    requires actions[m].Run? && actions[m].t == t && t < |states[m].threads| && states[m].threads[t].InsMalloc?
    ensures t < |states[j].threads|
    ensures Inserts(states[j].threads[t], states[m].threads[t].d, actions[m].choice.p,
                    Share(states[m].ins, t), Share(states[j].ins, t))
    decreases j
  {
    hide Inv, Init, Exec, Share, Inserts;
    if j == m + 1 {
      RunInv(states, actions, m);
      assert Enabled(states[m], actions[m]) && states[m + 1] == Step(states[m], actions[m]);
      MallocStep(states[m], t, actions[m].choice);
    } else {
      InsertionSoFar(states, actions, m, j - 1, t);
      InsertionGoesOn(states, actions, j - 1, t, states[m].threads[t].d, actions[m].choice.p, Share(states[m].ins, t));
    }
  }

  /** What malloc returns decides an insertion: with memory the call returns Success and its reading has been
      appended exactly once to what its thread inserted; without, it returns Failure and nothing was. */
  lemma MallocDecides(states: seq<State>, actions: seq<Action>, m: nat, j: nat, t: nat)
    requires IsRun(states, actions) && m < j < |states| && NoCall(actions, m, j, t)
    requires actions[m].Run? && actions[m].t == t && t < |states[m].threads| && states[m].threads[t].InsMalloc?
    requires t < |states[j].threads| && states[j].threads[t].Done?
    ensures states[j].threads[t].result == if actions[m].choice.p != NULL then Success else Failure
    ensures Share(states[j].ins, t)
            == Share(states[m].ins, t) + (if actions[m].choice.p != NULL then [states[m].threads[t].d] else [])
  {
    hide Inv, Init, Step, Enabled, Share;
    InsertionSoFar(states, actions, m, j, t);
  }

  /** The step of `t` between `i` and `j` that ran malloc for `d`, and what it led to by state `j`. */
  ghost predicate MallocAt(states: seq<State>, actions: seq<Action>, i: nat, m: nat, j: nat, t: nat, d: Reading)
    requires IsRun(states, actions) && i < |states| && j < |states| && t < |states[j].threads|
  {
    && i < m < j && actions[m].Run? && actions[m].t == t
    && t < |states[m].threads| && states[m].threads[t] == InsMalloc(d)
    && Share(states[m].ins, t) == Share(states[i].ins, t)
    && Inserts(states[j].threads[t], d, actions[m].choice.p, Share(states[i].ins, t), Share(states[j].ins, t))
  }

  lemma {:induction false} InsertCallSoFar(states: seq<State>, actions: seq<Action>, i: nat, j: nat, t: nat, d: Reading)
    requires IsRun(states, actions) && i < j < |states| && actions[i] == Call(t, Insert(d))
    requires NoCall(actions, i + 1, j, t)
    ensures t < |states[j].threads|
    ensures || (states[j].threads[t] == InsMalloc(d) && Share(states[j].ins, t) == Share(states[i].ins, t))
            || exists m: nat {:trigger MallocAt(states, actions, i, m, j, t, d)} ::
                 MallocAt(states, actions, i, m, j, t, d)
    decreases j
  {
    hide Inv, Init, Exec, Share, Inserts;
    assert Enabled(states[j - 1], actions[j - 1]) && states[j - 1 + 1] == Step(states[j - 1], actions[j - 1]);
    if j > i + 1 {
      var k := j - 1;
      InsertCallSoFar(states, actions, i, k, t, d);
      RunInv(states, actions, k);
      if m: nat :| MallocAt(states, actions, i, m, k, t, d) {
        InsertionGoesOn(states, actions, j - 1, t, d, actions[m].choice.p, Share(states[i].ins, t));
        assert MallocAt(states, actions, i, m, j, t, d);
      } else if actions[j - 1].t == t {
        MallocStep(states[j - 1], t, actions[j - 1].choice);
        assert MallocAt(states, actions, i, j - 1, j, t, d);
      } else {
        OtherStep(states[j - 1], actions[j - 1], t);
      }
    }
  }

  /** A call of sbuffer_insert(d) that has returned ran malloc once in between; it succeeded, and its reading
      was appended exactly once, if and only if malloc returned an address. */
  lemma InsertOutcome(states: seq<State>, actions: seq<Action>, i: nat, j: nat, t: nat, d: Reading)
    requires IsRun(states, actions) && i < j < |states| && actions[i] == Call(t, Insert(d))
    requires NoCall(actions, i + 1, j, t) && t < |states[j].threads| && states[j].threads[t].Done?
    ensures exists m: nat {:trigger actions[m]} ::
              && i < m < j && actions[m].Run? && actions[m].t == t
              && t < |states[m].threads| && states[m].threads[t] == InsMalloc(d)
              && var ok := actions[m].choice.p != NULL;
              && states[j].threads[t].result == (if ok then Success else Failure)
              && Share(states[j].ins, t) == Share(states[i].ins, t) + (if ok then [d] else [])
  {
    hide Inv, Init, Step, Enabled, Share;
    InsertCallSoFar(states, actions, i, j, t, d);
    var m: nat :| MallocAt(states, actions, i, m, j, t, d);
    assert actions[m].Run?;
  }

  // ---- removals

  /** Everything inserted so far has been removed. */
  ghost predicate Drained(s: State) {
    |s.ins| == |s.rem|
  }

  /** How far a removal has come; `sawEmpty` says whether the buffer was empty at some state during the call. */
  ghost predicate Removes(pc: Pc, before: seq<Reading>, now: seq<Reading>, sawEmpty: bool) {
    match pc
    case RemLock => now == before
    case RemTest => now == before
    case RemCopy => now == before
    case RemSave(_) => now == before
    case RemCompare(_, _) => now == before
    case RemClearTail(_, _) => now == before
    case RemAdvance(_, _) => now == before
    case RemUnlockEmpty => now == before && sawEmpty
    case RemClearHead(d, _) => now == before + [d]
    case RemFree(d, _) => now == before + [d]
    case RemUnlock(d) => now == before + [d]
    case Done(r) => if r.Got? then now == before + [r.data] else r == NoData && now == before && sawEmpty
    case _ => false
  }

  lemma RemoveStep(s: State, t: nat, c: Choice, before: seq<Reading>, sawEmpty: bool)
    requires Inv(s) && Readings(s.ins) == Readings(s.rem) + Queue(s)
    requires Enabled(s, Run(t, c)) && Removes(s.threads[t], before, Share(s.rem, t), sawEmpty)
    ensures var s' := Exec(s, t, c); Removes(s'.threads[t], before, Share(s'.rem, t), sawEmpty || Drained(s))
  {
    hide Inv, Exec, Removes, Unlinking, Share, Queue, Readings, Drained;
    if Unlinking(s.threads[t]) {
      UnlinkStep(s, t, c, before, sawEmpty);
    } else {
      SearchStep(s, t, c, before, sawEmpty);
    }
  }

  lemma UnlinkStep(s: State, t: nat, c: Choice, before: seq<Reading>, sawEmpty: bool)
    requires Inv(s) && Readings(s.ins) == Readings(s.rem) + Queue(s) && t < |s.threads| && Unlinking(s.threads[t])
    requires Enabled(s, Run(t, c)) && Removes(s.threads[t], before, Share(s.rem, t), sawEmpty)
    ensures var s' := Exec(s, t, c); Removes(s'.threads[t], before, Share(s'.rem, t), sawEmpty || Drained(s))
  {
    hide Memory, Private, Shared, Ends, Linked, Mutex, Share, Queue, Readings;
    NoFault(s, t, c);
    SharesGrow(s.rem, Exec(s, t, c).rem, t);
  }

  lemma SearchStep(s: State, t: nat, c: Choice, before: seq<Reading>, sawEmpty: bool)
    requires Inv(s) && Readings(s.ins) == Readings(s.rem) + Queue(s) && t < |s.threads| && !Unlinking(s.threads[t])
    requires Enabled(s, Run(t, c)) && Removes(s.threads[t], before, Share(s.rem, t), sawEmpty)
    ensures var s' := Exec(s, t, c); Removes(s'.threads[t], before, Share(s'.rem, t), sawEmpty || Drained(s))
  {
    hide Memory, Private, Shared, Ends, Linked, Mutex, Share, Queue;
    NoFault(s, t, c);
    SharesGrow(s.rem, Exec(s, t, c).rem, t);
    if s.threads[t].RemTest? {
      HeadTellsEmpty(s, t);
    }
  }

  lemma RemovesMore(pc: Pc, before: seq<Reading>, now: seq<Reading>, a: bool, b: bool)
    requires Removes(pc, before, now, a) && (a ==> b)
    ensures Removes(pc, before, now, b)
  {
  }

  ghost predicate WasDrained(states: seq<State>, i: nat, j: nat) {
    exists k {:trigger Drained(states[k])} :: i < k < j && k < |states| && Drained(states[k])
  }

  lemma {:induction false} RemoveCallSoFar(states: seq<State>, actions: seq<Action>, i: nat, j: nat, t: nat)
    requires IsRun(states, actions) && i < j < |states| && actions[i] == Call(t, Remove)
    requires NoCall(actions, i + 1, j, t)
    ensures t < |states[j].threads|
    ensures Removes(states[j].threads[t], Share(states[i].rem, t), Share(states[j].rem, t), WasDrained(states, i, j))
    decreases j
  {
    hide Inv, Init, Exec, Share, Drained, Queue, Readings;
    assert Enabled(states[j - 1], actions[j - 1]) && states[j - 1 + 1] == Step(states[j - 1], actions[j - 1]);
    if j > i + 1 {
      hide Removes;
      RemoveCallSoFar(states, actions, i, j - 1, t);
      RunInv(states, actions, j - 1);
      var s, before, seen := states[j - 1], Share(states[i].rem, t), WasDrained(states, i, j - 1);
      assert WasDrained(states, i, j) <==> seen || Drained(s);
      if actions[j - 1].t == t {
        RunConserves(states, actions, j - 1);
        RemoveStep(s, t, actions[j - 1].choice, before, seen);
      } else {
        OtherStep(s, actions[j - 1], t);
        RemovesMore(s.threads[t], before, Share(s.rem, t), seen, WasDrained(states, i, j));
      }
    }
  }

  /** A call of sbuffer_remove that has returned either returned a reading, and exactly that one was added to
      what its thread removed, or it reported no data, removed nothing, and at some state during the
      call everything inserted had been removed. */
  lemma RemoveOutcome(states: seq<State>, actions: seq<Action>, i: nat, j: nat, t: nat)
    requires IsRun(states, actions) && i < j < |states| && actions[i] == Call(t, Remove)
    requires NoCall(actions, i + 1, j, t) && t < |states[j].threads| && states[j].threads[t].Done?
    ensures var r := states[j].threads[t].result;
            if r.Got? then Share(states[j].rem, t) == Share(states[i].rem, t) + [r.data]
            else
              && r == NoData && Share(states[j].rem, t) == Share(states[i].rem, t)
              && exists k {:trigger states[k]} :: i < k < j && |states[k].ins| == |states[k].rem|
  {
    hide Inv, Init, Step, Enabled, Share;
    RemoveCallSoFar(states, actions, i, j, t);
    if !states[j].threads[t].result.Got? {
      var k :| i < k < j && k < |states| && Drained(states[k]);
      assert |states[k].ins| == |states[k].rem|;
    }
  }
}
