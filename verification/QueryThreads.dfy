/** datamgr.c under threads: any number of threads apply readings and ask queries, one statement per step,
    all under list_mutex. */
module QueryThreads {
  import opened Util
  import opened Windows

  datatype Query = AskRoom | AskAvg | AskLast

  datatype Answer = RoomIs(room: U16) | AvgIs(avg: real) | LastIs(last: int)

  /** Where a thread stands. `r` is the reading being applied; `from` is how many readings had been
      applied when the query was called; `i`, `k` and `sum` are the locals of the loops. */
  datatype Pc =
    | Ready
    // datamgr_parse_sensor_data, lines 61 to 78
    | UpdLock(r: Reading)
    | UpdSearch(r: Reading, i: nat)               // compare entry i
    | UpdFetch(r: Reading, i: nat, k: nat)        // walk from the head to index i, now at k
    | UpdLast(r: Reading, i: nat)                 // last_modified = ts
    | UpdMove(r: Reading, i: nat)                 // memmove
    | UpdSlot(r: Reading, i: nat)                 // temperatures[0] = value
    | UpdSum(r: Reading, i: nat, k: nat, sum: real)
    | UpdAvg(r: Reading, i: nat, sum: real)       // running_avg = sum / RUN_AVG_LENGTH
    | UpdUnlock
    // the three queries, lines 88 to 134
    | AskLock(q: Query, id: U16, from: nat)
    | AskSearch(q: Query, id: U16, from: nat, i: nat)
    | AskFetch(q: Query, id: U16, from: nat, i: nat, k: nat)
    | AskRead(q: Query, id: U16, from: nat, i: nat)
    | AskUnlock(q: Query, id: U16, from: nat, answer: Answer)
    | Answered(q: Query, id: U16, from: nat, answer: Answer)

  /** `applied` and `seen` are history: the readings applied so far, and per thread how many of them its
      last query saw. No step reads them. */
  datatype State = State(
    table: seq<View>,
    lock: Option<nat>,
    threads: seq<Pc>,
    applied: seq<Reading>,
    seen: seq<nat>)

  datatype Action = Apply(t: nat, r: Reading) | Ask(t: nat, q: Query, id: U16) | Run(t: nat)

  function Default(q: Query): Answer {
    match q
    case AskRoom => RoomIs(0xFFFF)
    case AskAvg => AvgIs(0.0)
    case AskLast => LastIs(0)
  }

  function Field(q: Query, e: View): Answer {
    match q
    case AskRoom => RoomIs(e.room)
    case AskAvg => AvgIs(e.avg)
    case AskLast => LastIs(e.last)
  }

  /** What the query answers after the readings `h`, had it run alone. */
  function AnswerAfter(records: seq<Record>, q: Query, id: U16, h: seq<Reading>): Answer {
    match q
    case AskRoom => RoomIs(RoomAnswer(records, id))
    case AskAvg => AvgIs(AvgAnswer(records, id, h))
    case AskLast => LastIs(LastAnswer(records, id, h))
  }

  ghost predicate Enabled(s: State, a: Action) {
    && a.t < |s.threads| == |s.seen|
    && match a
       case Run(t) =>
         && !s.threads[t].Ready? && !s.threads[t].Answered?
         && ((s.threads[t].UpdLock? || s.threads[t].AskLock?) ==> s.lock == None)
       case _ => s.threads[a.t].Ready? || s.threads[a.t].Answered?
  }

  function Goto(s: State, t: nat, pc: Pc): State
    requires t < |s.threads|
  {
    s.(threads := s.threads[t := pc])
  }

  /** The table with entry `i` replaced; nothing happens outside the table. */
  function Put(table: seq<View>, i: nat, e: View): (r: seq<View>)
    ensures |r| == |table|
  {
    if i < |table| then table[i := e] else table
  }

  function Get(table: seq<View>, i: nat): View {
    if i < |table| then table[i] else View(0, 0, 0.0, 0, [])
  }

  /** memmove(&temperatures[1], &temperatures[0], ..): slot 0 keeps its value. */
  function Moved(w: seq<real>): seq<real> {
    if w == [] then [] else [w[0]] + w[..|w| - 1]
  }

  function SetFirst(w: seq<real>, v: real): seq<real> {
    if w == [] then [] else w[0 := v]
  }

  function Exec(s: State, t: nat): (s': State)
    requires t < |s.threads| == |s.seen| && !s.threads[t].Ready? && !s.threads[t].Answered?
    ensures |s'.threads| == |s.threads| && s'.threads == s.threads[t := s'.threads[t]] && |s'.seen| == |s.seen|
  {
    match s.threads[t]
    case UpdLock(r) => Goto(s, t, UpdSearch(r, 0)).(lock := Some(t))
    case UpdSearch(r, i) =>
      if i >= |s.table| then Goto(s, t, UpdUnlock).(applied := s.applied + [r])
      else Goto(s, t, if s.table[i].id == r.id then UpdFetch(r, i, 0) else UpdSearch(r, i + 1))
    case UpdFetch(r, i, k) => Goto(s, t, if k < i then UpdFetch(r, i, k + 1) else UpdLast(r, k))
    case UpdLast(r, i) =>
      Goto(s, t, UpdMove(r, i)).(table := Put(s.table, i, Get(s.table, i).(last := r.ts)))
    case UpdMove(r, i) =>
      Goto(s, t, UpdSlot(r, i)).(table := Put(s.table, i, Get(s.table, i).(temps := Moved(Get(s.table, i).temps))))
    case UpdSlot(r, i) =>
      Goto(s, t, UpdSum(r, i, 0, 0.0)).(table :=
        Put(s.table, i, Get(s.table, i).(temps := SetFirst(Get(s.table, i).temps, r.value))))
    case UpdSum(r, i, k, sum) =>
      Goto(s, t, if k < |Get(s.table, i).temps| then UpdSum(r, i, k + 1, sum + Get(s.table, i).temps[k])
                 else UpdAvg(r, i, sum))
    case UpdAvg(r, i, sum) =>
      Goto(s, t, UpdUnlock).(table := Put(s.table, i, Get(s.table, i).(avg := sum / RUN_AVG_LENGTH as real)),
                             applied := s.applied + [r])
    case UpdUnlock => Goto(s, t, Ready).(lock := None)
    case AskLock(q, id, from) => Goto(s, t, AskSearch(q, id, from, 0)).(lock := Some(t))
    case AskSearch(q, id, from, i) =>
      if i >= |s.table| then
        Goto(s, t, AskUnlock(q, id, from, Default(q))).(seen := s.seen[t := |s.applied|])
      else Goto(s, t, if s.table[i].id == id then AskFetch(q, id, from, i, 0) else AskSearch(q, id, from, i + 1))
    case AskFetch(q, id, from, i, k) =>
      Goto(s, t, if k < i then AskFetch(q, id, from, i, k + 1) else AskRead(q, id, from, k))
    case AskRead(q, id, from, i) =>
      Goto(s, t, AskUnlock(q, id, from, Field(q, Get(s.table, i)))).(seen := s.seen[t := |s.applied|])
    case AskUnlock(q, id, from, answer) => Goto(s, t, Answered(q, id, from, answer)).(lock := None)
  }

  function Step(s: State, a: Action): State
    requires Enabled(s, a)
  {
    match a
    case Apply(t, r) => Goto(s, t, UpdLock(r))
    case Ask(t, q, id) => Goto(s, t, AskLock(q, id, |s.applied|))
    case Run(t) => Exec(s, t)
  }

  /** After map loading, before anything else runs. */
  ghost predicate Init(records: seq<Record>, s: State) {
    && |s.table| == |records| && (forall i :: 0 <= i < |records| ==> s.table[i] == EntryAfter(records, i, []))
    && s.lock == None && s.applied == [] && |s.seen| == |s.threads|
    && (forall t :: 0 <= t < |s.threads| ==> s.threads[t] == Ready && s.seen[t] == 0)
  }

  // ---- the inductive invariant

  predicate Critical(pc: Pc) {
    !pc.Ready? && !pc.Answered? && !pc.UpdLock? && !pc.AskLock?
  }

  ghost predicate Mutex(s: State) {
    && (s.lock.Some? ==> s.lock.value < |s.threads|)
    && forall t :: 0 <= t < |s.threads| ==> (Critical(s.threads[t]) <==> s.lock == Some(t))
  }

  function Holder(s: State): Pc {
    if s.lock.Some? && s.lock.value < |s.threads| then s.threads[s.lock.value] else Ready
  }

  /** The entry being updated, if an update is under way; -1 otherwise. */
  function Dirty(pc: Pc): int {
    match pc
    case UpdMove(_, i) => i
    case UpdSlot(_, i) => i
    case UpdSum(_, i, _, _) => i
    case UpdAvg(_, i, _) => i
    case _ => -1
  }

  /** How far the update of entry `i` has come: `e` is the entry before, `now` the entry in the table. */
  ghost predicate Partial(pc: Pc, e: View, now: View) {
    match pc
    case UpdMove(r, _) => now == e.(last := r.ts)
    case UpdSlot(r, _) => now == e.(last := r.ts, temps := Moved(e.temps))
    case UpdSum(r, _, k, sum) =>
      && now == e.(last := r.ts, temps := SetFirst(Moved(e.temps), r.value))
      && k <= |now.temps| && sum == Sum(now.temps[..k])
    case UpdAvg(r, _, sum) =>
      now == e.(last := r.ts, temps := SetFirst(Moved(e.temps), r.value)) && sum == Sum(now.temps)
    case _ => true
  }

  /** What a search has established. */
  ghost predicate Searched(records: seq<Record>, pc: Pc) {
    match pc
    case UpdSearch(r, i) => i <= |records| && forall j :: 0 <= j < i ==> records[j].id != r.id
    case UpdFetch(r, i, k) => FirstRecord(records, r.id) == i && k <= i
    case UpdLast(r, i) => FirstRecord(records, r.id) == i
    case UpdMove(r, i) => FirstRecord(records, r.id) == i
    case UpdSlot(r, i) => FirstRecord(records, r.id) == i
    case UpdSum(r, i, _, _) => FirstRecord(records, r.id) == i
    case UpdAvg(r, i, _) => FirstRecord(records, r.id) == i
    case AskSearch(_, id, _, i) => i <= |records| && forall j :: 0 <= j < i ==> records[j].id != id
    case AskFetch(_, id, _, i, k) => FirstRecord(records, id) == i && k <= i
    case AskRead(_, id, _, i) => FirstRecord(records, id) == i
    case _ => true
  }

  /** Outside the entry under update, the table shows exactly the applied readings. */
  ghost predicate Table(records: seq<Record>, table: seq<View>, holder: Pc, h: seq<Reading>) {
    && |table| == |records|
    && forall i {:trigger table[i]} :: 0 <= i < |table| ==>
         (if i == Dirty(holder) then Partial(holder, EntryAfter(records, i, h), table[i])
          else table[i] == EntryAfter(records, i, h))
  }

  /** An answer given, or about to be given, is the answer of a query run alone on a prefix of the applied
      readings that was complete at some moment during the call. */
  ghost predicate AnswerSound(records: seq<Record>, pc: Pc, seen: nat, h: seq<Reading>) {
    match pc
    case AskLock(_, _, from) => seen <= from <= |h|
    case AskSearch(_, _, from, _) => seen <= from <= |h|
    case AskFetch(_, _, from, _, _) => seen <= from <= |h|
    case AskRead(_, _, from, _) => seen <= from <= |h|
    case AskUnlock(q, id, from, answer) =>
      from <= seen <= |h| && answer == AnswerAfter(records, q, id, h[..seen])
    case Answered(q, id, from, answer) =>
      from <= seen <= |h| && answer == AnswerAfter(records, q, id, h[..seen])
    case _ => seen <= |h|
  }

  ghost predicate Inv(records: seq<Record>, s: State) {
    && |s.seen| == |s.threads|
    && Mutex(s)
    && Table(records, s.table, Holder(s), s.applied)
    && Searched(records, Holder(s))
    && (forall t {:trigger s.threads[t]} :: 0 <= t < |s.threads| ==>
          AnswerSound(records, s.threads[t], s.seen[t], s.applied))
  }

  lemma InitInv(records: seq<Record>, s: State)
    requires Init(records, s)
    ensures Inv(records, s)
  {
    hide EntryAfter;
  }

  // ---- every step keeps it

  lemma LockStep(records: seq<Record>, s: State, t: nat)
    requires Inv(records, s) && Enabled(s, Run(t))
    ensures var s' := Exec(s, t);
            && (Critical(s'.threads[t]) <==> s'.lock == Some(t))
            && (s'.lock == s.lock || (s.lock == None && s'.lock == Some(t)) || (s.lock == Some(t) && s'.lock == None))
  {
    hide Table, Searched, AnswerSound;
    assert Critical(s.threads[t]) <==> s.lock == Some(t);
  }

  lemma MutexKept(records: seq<Record>, s: State, t: nat)
    requires Inv(records, s) && Enabled(s, Run(t))
    ensures Mutex(Exec(s, t))
    ensures var s' := Exec(s, t);
            && (Critical(s.threads[t]) ==> Holder(s) == s.threads[t])
            && Holder(s') == (if Critical(s'.threads[t]) then s'.threads[t]
                              else if Critical(s.threads[t]) then Ready
                              else Holder(s))
            && (s.threads[t].UpdLock? || s.threads[t].AskLock? ==> Holder(s) == Ready)
  {
    hide Table, Searched, AnswerSound, Exec, Critical;
    LockStep(records, s, t);
    var s' := Exec(s, t);
    forall u | 0 <= u < |s'.threads| ensures Critical(s'.threads[u]) <==> s'.lock == Some(u) {
      if u != t {
        assert s'.threads[u] == s.threads[u];
      }
    }
    assert Critical(s.threads[t]) <==> s.lock == Some(t);
    assert Critical(s'.threads[t]) <==> s'.lock == Some(t);
  }

  /** Moving everything up one slot and overwriting slot 0 is the shift of the window. */
  lemma MoveThenSetIsShift(w: seq<real>, v: real)
    requires w != []
    ensures SetFirst(Moved(w), v) == Shifted(w, v)
  {
  }

  lemma SumStep(w: seq<real>, k: nat)
    requires k < |w|
    ensures Sum(w[..k + 1]) == Sum(w[..k]) + w[k]
  {
    assert w[..k + 1][..k] == w[..k];
  }

  /** A step that leaves the history alone and touches at most the dirty entry. */
  lemma TableFromEntries(records: seq<Record>, table: seq<View>, holder: Pc, h: seq<Reading>)
    requires |table| == |records|
    requires forall i {:trigger table[i]} :: 0 <= i < |table| && i != Dirty(holder) ==>
               table[i] == EntryAfter(records, i, h)
    requires 0 <= Dirty(holder) < |table| ==>
               Partial(holder, EntryAfter(records, Dirty(holder), h), table[Dirty(holder)])
    ensures Table(records, table, holder, h)
  {
  }

  /** Completing an update: the table now shows one more reading. */
  lemma TableAfterUpdate(records: seq<Record>, table: seq<View>, h: seq<Reading>, r: Reading, i: nat, now: View)
    requires |table| == |records| && i < |table| && FirstRecord(records, r.id) == i
    requires forall j {:trigger table[j]} :: 0 <= j < |table| && j != i ==> table[j] == EntryAfter(records, j, h)
    requires var e := EntryAfter(records, i, h);
             now == e.(last := r.ts, temps := Shifted(e.temps, r.value), avg := Average(Shifted(e.temps, r.value)))
    ensures Table(records, Put(table, i, now), UpdUnlock, h + [r])
  {
    hide EntryAfter;
    var t := Put(table, i, now);
    forall j | 0 <= j < |t| ensures t[j] == EntryAfter(records, j, h + [r]) {
      EntryStep(records, j, h, r);
      assert j != i ==> t[j] == table[j];
    }
  }

  lemma TableAfterUnknown(records: seq<Record>, table: seq<View>, h: seq<Reading>, r: Reading)
    requires Table(records, table, UpdSearch(r, |records|), h)
    requires forall j :: 0 <= j < |records| ==> records[j].id != r.id
    ensures Table(records, table, UpdUnlock, h + [r])
  {
    hide EntryAfter;
    forall j | 0 <= j < |table| ensures table[j] == EntryAfter(records, j, h + [r]) {
      EntryStep(records, j, h, r);
      assert FirstRecord(records, r.id) != j;
    }
  }

  /** Pcs between which the table and the history do not change and nothing is half done. */
  ghost predicate Clean(pc: Pc) {
    Dirty(pc) == -1
  }

  lemma TableClean(records: seq<Record>, table: seq<View>, a: Pc, b: Pc, h: seq<Reading>)
    requires Table(records, table, a, h) && Clean(a) && Clean(b)
    ensures Table(records, table, b, h)
  {
    hide EntryAfter;
  }

  lemma EntryLength(records: seq<Record>, i: nat, h: seq<Reading>)
    requires i < |records|
    ensures |EntryAfter(records, i, h).temps| == RUN_AVG_LENGTH
  {
  }

  /** The update proper: from UpdLast to UpdAvg, entry `i` goes through its half-done states. */
  lemma TableDuringUpdate(records: seq<Record>, s: State, t: nat)
    requires Inv(records, s) && Enabled(s, Run(t))
    requires var pc := s.threads[t]; pc.UpdLast? || pc.UpdMove? || pc.UpdSlot? || pc.UpdSum?
    ensures var s' := Exec(s, t);
            s'.applied == s.applied && Table(records, s'.table, s'.threads[t], s.applied)
  {
    hide AnswerSound, EntryAfter, Mutex, Holder;
    MutexKept(records, s, t);
    var pc, s' := s.threads[t], Exec(s, t);
    var i := pc.i;
    var e := EntryAfter(records, i, s.applied);
    EntryLength(records, i, s.applied);
    if pc.UpdSum? {
      if pc.k < |s.table[i].temps| {
        SumStep(s.table[i].temps, pc.k);
      } else {
        assert s.table[i].temps[..pc.k] == s.table[i].temps;
      }
    }
    TableFromEntries(records, s'.table, s'.threads[t], s.applied);
  }

  lemma TableAtEnd(records: seq<Record>, s: State, t: nat)
    requires Inv(records, s) && Enabled(s, Run(t)) && s.threads[t].UpdAvg?
    ensures Table(records, Exec(s, t).table, UpdUnlock, Exec(s, t).applied)
  {
    hide AnswerSound, EntryAfter, Mutex, Holder, Sum;
    MutexKept(records, s, t);
    var pc := s.threads[t];
    var e := EntryAfter(records, pc.i, s.applied);
    EntryLength(records, pc.i, s.applied);
    MoveThenSetIsShift(e.temps, pc.r.value);
    TableAfterUpdate(records, s.table, s.applied, pc.r, pc.i,
                     s.table[pc.i].(avg := pc.sum / RUN_AVG_LENGTH as real));
  }

  lemma TableKept(records: seq<Record>, s: State, t: nat)
    requires Inv(records, s) && Enabled(s, Run(t))
    ensures var s' := Exec(s, t); Table(records, s'.table, Holder(s'), s'.applied)
  {
    hide AnswerSound, EntryAfter, Mutex, Holder, Table, Partial;
    MutexKept(records, s, t);
    var pc, s' := s.threads[t], Exec(s, t);
    if pc.UpdLast? || pc.UpdMove? || pc.UpdSlot? || pc.UpdSum? {
      TableDuringUpdate(records, s, t);
    } else if pc.UpdAvg? {
      TableAtEnd(records, s, t);
    } else if pc.UpdSearch? && pc.i >= |s.table| {
      TableSize(records, s);
      TableClean(records, s.table, pc, UpdSearch(pc.r, |records|), s.applied);
      TableAfterUnknown(records, s.table, s.applied, pc.r);
    } else if Critical(pc) || pc.UpdLock? || pc.AskLock? {
      TableClean(records, s.table, Holder(s), Holder(s'), s.applied);
    }
  }

  lemma TableSize(records: seq<Record>, s: State)
    requires Inv(records, s)
    ensures |s.table| == |records|
    ensures Clean(Holder(s)) ==> forall i {:trigger s.table[i]} :: 0 <= i < |s.table| ==>
              s.table[i] == EntryAfter(records, i, s.applied) && s.table[i].id == records[i].id
  {
  }

  lemma SearchedKept(records: seq<Record>, s: State, t: nat)
    requires Inv(records, s) && Enabled(s, Run(t))
    ensures Searched(records, Holder(Exec(s, t)))
  {
    hide AnswerSound, EntryAfter, Mutex, Holder, Table, Partial, FirstRecord;
    MutexKept(records, s, t);
    TableSize(records, s);
    var pc := s.threads[t];
    if pc.UpdSearch? && pc.i < |s.table| && s.table[pc.i].id == pc.r.id {
      FirstRecordUnique(records, pc.r.id, pc.i);
    }
    if pc.AskSearch? && pc.i < |s.table| && s.table[pc.i].id == pc.id {
      FirstRecordUnique(records, pc.id, pc.i);
    }
  }

  lemma HistoryGrows(records: seq<Record>, s: State, t: nat)
    requires Inv(records, s) && Enabled(s, Run(t))
    ensures var s' := Exec(s, t);
            && s.applied <= s'.applied
            && (forall u :: 0 <= u < |s.threads| && u != t ==> s'.seen[u] == s.seen[u])
            && s.seen[t] <= s'.seen[t]
  {
    hide Table, Searched, Mutex;
    assert AnswerSound(records, s.threads[t], s.seen[t], s.applied);
  }

  lemma AnswerStable(records: seq<Record>, pc: Pc, seen: nat, h: seq<Reading>, h': seq<Reading>)
    requires AnswerSound(records, pc, seen, h) && h <= h'
    ensures AnswerSound(records, pc, seen, h')
  {
    assert seen <= |h| ==> h'[..seen] == h[..seen];
  }

  /** The answer read under the lock is the answer after everything applied so far. */
  lemma AnswerRead(records: seq<Record>, q: Query, id: U16, h: seq<Reading>)
    ensures FirstRecord(records, id) < 0 ==> Default(q) == AnswerAfter(records, q, id, h)
    ensures FirstRecord(records, id) >= 0 ==>
              Field(q, EntryAfter(records, FirstRecord(records, id), h)) == AnswerAfter(records, q, id, h)
  {
  }

  lemma OwnAnswerKept(records: seq<Record>, s: State, t: nat)
    requires Inv(records, s) && Enabled(s, Run(t))
    ensures var s' := Exec(s, t); AnswerSound(records, s'.threads[t], s'.seen[t], s'.applied)
  {
    hide EntryAfter, Mutex, Holder, Table, Partial, FirstRecord, AnswerAfter;
    MutexKept(records, s, t);
    TableSize(records, s);
    var pc, h := s.threads[t], s.applied;
    assert AnswerSound(records, pc, s.seen[t], h);
    assert h[..|h|] == h;
    if pc.AskSearch? && pc.i >= |s.table| {
      FirstRecordUnique(records, pc.id, -1);
      AnswerRead(records, pc.q, pc.id, h);
    } else if pc.AskRead? {
      AnswerRead(records, pc.q, pc.id, h);
    }
  }

  lemma AnswersKept(records: seq<Record>, s: State, t: nat, u: nat)
    requires Inv(records, s) && Enabled(s, Run(t)) && u < |s.threads|
    ensures var s' := Exec(s, t); AnswerSound(records, s'.threads[u], s'.seen[u], s'.applied)
  {
    hide Mutex, Holder, Table, Exec, AnswerSound, Searched;
    if u == t {
      OwnAnswerKept(records, s, t);
    } else {
      HistoryGrows(records, s, t);
      AnswerStable(records, s.threads[u], s.seen[u], s.applied, Exec(s, t).applied);
      assert Exec(s, t).threads[u] == s.threads[u];
    }
  }

  lemma StepInv(records: seq<Record>, s: State, a: Action)
    requires Inv(records, s) && Enabled(s, a)
    ensures Inv(records, Step(s, a))
  {
    hide Mutex, Holder, Table, Exec, AnswerSound, Searched;
    if a.Run? {
      MutexKept(records, s, a.t);
      TableKept(records, s, a.t);
      SearchedKept(records, s, a.t);
      forall u | 0 <= u < |s.threads|
        ensures AnswerSound(records, Exec(s, a.t).threads[u], Exec(s, a.t).seen[u], Exec(s, a.t).applied)
      {
        AnswersKept(records, s, a.t, u);
      }
    } else {
      CallKept(records, s, a);
    }
  }

  lemma CallKept(records: seq<Record>, s: State, a: Action)
    requires Inv(records, s) && Enabled(s, a) && !a.Run?
    ensures Inv(records, Step(s, a))
  {
    hide Table, Searched, AnswerAfter;
    assert s.lock != Some(a.t);
    assert AnswerSound(records, s.threads[a.t], s.seen[a.t], s.applied);
  }

  // ---- whole runs

  ghost predicate IsRun(records: seq<Record>, states: seq<State>, actions: seq<Action>) {
    && |states| == |actions| + 1
    && Init(records, states[0])
    && forall i :: 0 <= i < |actions| ==> Enabled(states[i], actions[i]) && states[i + 1] == Step(states[i], actions[i])
  }

  lemma {:induction false} RunInv(records: seq<Record>, states: seq<State>, actions: seq<Action>, i: nat)
    requires IsRun(records, states, actions) && i < |states|
    ensures Inv(records, states[i])
  {
    hide Inv, Step, Enabled;
    if i == 0 {
      InitInv(records, states[0]);
    } else {
      RunInv(records, states, actions, i - 1);
      assert Enabled(states[i - 1], actions[i - 1]) && states[i - 1 + 1] == Step(states[i - 1], actions[i - 1]);
      StepInv(records, states[i - 1], actions[i - 1]);
    }
  }

  /** Whenever list_mutex is free, every sensor's window, average and timestamp describe the same prefix of
      readings, namely all those applied, and the average is the window's sum over RUN_AVG_LENGTH. */
  lemma ConsistentWhenFree(records: seq<Record>, states: seq<State>, actions: seq<Action>, i: nat, e: nat)
    requires IsRun(records, states, actions) && i < |states| && states[i].lock == None && e < |records|
    ensures |states[i].table| == |records|
    ensures states[i].table[e] == EntryAfter(records, e, states[i].applied)
    ensures states[i].table[e].avg * RUN_AVG_LENGTH as real == Sum(states[i].table[e].temps)
    ensures Describes(records, e, states[i].applied, states[i].table[e])
  {
    hide Mutex, Searched, AnswerSound, Step, Enabled, Describes;
    EntryDescribed(records, e, states[i].applied);
    RunInv(records, states, actions, i);
    assert Holder(states[i]) == Ready;
  }

  /** Every answered query returned what it would have returned alone, after some prefix of the applied
      readings no shorter than what had been applied when the query was called. */
  lemma QueriesAtomic(records: seq<Record>, states: seq<State>, actions: seq<Action>, i: nat, t: nat)
    requires IsRun(records, states, actions) && i < |states| && t < |states[i].threads|
    requires states[i].threads[t].Answered?
    ensures t < |states[i].seen|
    ensures var pc, n := states[i].threads[t], states[i].seen[t];
            && pc.from <= n <= |states[i].applied|
            && pc.answer == AnswerAfter(records, pc.q, pc.id, states[i].applied[..n])
  {
    hide Mutex, Searched, Table, Step, Enabled;
    RunInv(records, states, actions, i);
    assert AnswerSound(records, states[i].threads[t], states[i].seen[t], states[i].applied);
  }

  lemma StepMonotone(records: seq<Record>, s: State, a: Action)
    requires Inv(records, s) && Enabled(s, a)
    ensures var s' := Step(s, a);
            && s.applied <= s'.applied && |s'.seen| == |s.seen| == |s.threads| == |s'.threads|
            && forall u :: 0 <= u < |s.seen| ==> s.seen[u] <= s'.seen[u]
  {
    hide Mutex, Searched, Table, AnswerSound, Exec;
    if a.Run? {
      HistoryGrows(records, s, a.t);
    }
  }

  /** Readings are only ever added to the history, and the prefixes that successive queries of one thread
      see never get shorter. */
  lemma {:induction false} PrefixesNeverShrink(records: seq<Record>, states: seq<State>, actions: seq<Action>,
                                               i: nat, j: nat, t: nat)
    requires IsRun(records, states, actions) && i <= j < |states| && t < |states[i].threads|
    ensures |states[i].seen| == |states[j].seen| == |states[i].threads| == |states[j].threads|
    ensures states[i].applied <= states[j].applied && states[i].seen[t] <= states[j].seen[t]
    decreases j
  {
    hide Inv, Step, Enabled;
    if i == j {
      RunInv(records, states, actions, i);
      SeenSize(records, states[i]);
    } else {
      PrefixesNeverShrink(records, states, actions, i, j - 1, t);
      RunInv(records, states, actions, j - 1);
      assert Enabled(states[j - 1], actions[j - 1]) && states[j - 1 + 1] == Step(states[j - 1], actions[j - 1]);
      StepMonotone(records, states[j - 1], actions[j - 1]);
    }
  }

  lemma SeenSize(records: seq<Record>, s: State)
    requires Inv(records, s)
    ensures |s.seen| == |s.threads|
  {
  }

  /** What a thread asked, and how many readings had been applied when it did. */
  datatype Asked = Asked(q: Query, id: U16, from: nat)

  function AskedOf(pc: Pc): Option<Asked> {
    match pc
    case AskLock(q, id, from) => Some(Asked(q, id, from))
    case AskSearch(q, id, from, _) => Some(Asked(q, id, from))
    case AskFetch(q, id, from, _, _) => Some(Asked(q, id, from))
    case AskRead(q, id, from, _) => Some(Asked(q, id, from))
    case AskUnlock(q, id, from, _) => Some(Asked(q, id, from))
    case Answered(q, id, from, _) => Some(Asked(q, id, from))
    case _ => None
  }

  ghost predicate CallsBy(a: Action, t: nat) {
    !a.Run? && a.t == t
  }

  /** Thread `t` makes no call in the steps from `i` to before `j`. */
  ghost predicate NoCall(actions: seq<Action>, i: nat, j: nat, t: nat) {
    forall m {:trigger actions[m]} :: i <= m < j && m < |actions| ==> !CallsBy(actions[m], t)
  }

  lemma AskedStep(s: State, a: Action, t: nat)
    requires Enabled(s, a) && t < |s.threads| && !CallsBy(a, t) && AskedOf(s.threads[t]).Some?
    ensures t < |Step(s, a).threads| && AskedOf(Step(s, a).threads[t]) == AskedOf(s.threads[t])
  {
  }

  lemma {:induction false} AskedKept(records: seq<Record>, states: seq<State>, actions: seq<Action>,
                                    j: nat, k: nat, t: nat)
    requires IsRun(records, states, actions) && j < k < |states|
    requires actions[j].Ask? && actions[j].t == t && NoCall(actions, j + 1, k, t)
    ensures t < |states[k].threads|
    ensures AskedOf(states[k].threads[t]) == Some(Asked(actions[j].q, actions[j].id, |states[j].applied|))
    decreases k
  {
    hide Init, Exec, AskedOf;
    assert Enabled(states[k - 1], actions[k - 1]) && states[k - 1 + 1] == Step(states[k - 1], actions[k - 1]);
    if k == j + 1 {
      AskedAtCall(states[j], actions[j]);
    } else {
      AskedKept(records, states, actions, j, k - 1, t);
      AskedStep(states[k - 1], actions[k - 1], t);
    }
  }

  lemma AskedAtCall(s: State, a: Action)
    requires Enabled(s, a) && a.Ask?
    ensures a.t < |Step(s, a).threads| && AskedOf(Step(s, a).threads[a.t]) == Some(Asked(a.q, a.id, |s.applied|))
  {
  }

  /** In real time: a query called (at step `j`) after another one, of any thread, has returned (by state `i`)
      sees at least as many readings as that one; indeed all that had been applied when it was called. */
  lemma LaterQueriesSeeMore(records: seq<Record>, states: seq<State>, actions: seq<Action>,
                            i: nat, t: nat, j: nat, u: nat, k: nat)
    requires IsRun(records, states, actions) && i <= j < k < |states|
    requires t < |states[i].threads| && states[i].threads[t].Answered?
    requires actions[j].Ask? && actions[j].t == u && NoCall(actions, j + 1, k, u)
    requires u < |states[k].threads| && states[k].threads[u].Answered?
    ensures t < |states[i].seen| && u < |states[k].seen|
    ensures states[i].seen[t] <= |states[i].applied| <= |states[j].applied| <= states[k].seen[u]
    ensures var before, after, all := states[i].threads[t], states[k].threads[u], states[k].applied;
            && states[i].seen[t] <= states[k].seen[u] <= |all|
            && before.answer == AnswerAfter(records, before.q, before.id, all[..states[i].seen[t]])
            && after.answer == AnswerAfter(records, after.q, after.id, all[..states[k].seen[u]])
  {
    hide Inv, Init, Step, Enabled, AnswerAfter;
    QueriesAtomic(records, states, actions, i, t);
    QueriesAtomic(records, states, actions, k, u);
    AskedKept(records, states, actions, j, k, u);
    PrefixesNeverShrink(records, states, actions, i, j, t);
    PrefixesNeverShrink(records, states, actions, i, k, t);
    assert states[k].applied[..states[i].seen[t]] == states[i].applied[..states[i].seen[t]];
  }

  // ---- one update, seen from outside

  /** The reading a thread is applying, until it counts as applied. */
  function Holding(pc: Pc): Option<Reading> {
    match pc
    case UpdLock(r) => Some(r)
    case UpdSearch(r, _) => Some(r)
    case UpdFetch(r, _, _) => Some(r)
    case UpdLast(r, _) => Some(r)
    case UpdMove(r, _) => Some(r)
    case UpdSlot(r, _) => Some(r)
    case UpdSum(r, _, _, _) => Some(r)
    case UpdAvg(r, _, _) => Some(r)
    case _ => None
  }

  /** The history grows by the reading a thread holds at the moment the thread stops holding it, and in
      no other step; and threads that query never start to hold one. */
  lemma HoldingStep(s: State, t: nat)
    requires Enabled(s, Run(t))
    ensures var s', h := Exec(s, t), Holding(s.threads[t]);
            if h.Some? then
              || (Holding(s'.threads[t]) == h && s'.applied == s.applied)
              || (s'.threads[t] == UpdUnlock && s'.applied == s.applied + [h.value])
            else
              && s'.applied == s.applied && Holding(s'.threads[t]) == None && !s'.threads[t].UpdUnlock?
              && (s.threads[t].UpdUnlock? ==> s'.threads[t].Ready?)
              && (!s.threads[t].UpdUnlock? ==> !s'.threads[t].Ready?)
  {
  }
}
