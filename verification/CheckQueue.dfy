/** The parallel check queue as a state machine: one step per region in which a
    thread holds the mutex, one step per check executed outside it, and one
    per notification. Thread 0 is the master, the others are workers. */
module CheckQueue {

  type Check = nat
  type Eval = Check -> bool

  datatype Thread =
    | Out                                               // a worker not started, the master outside Wait
    | Notifying(all: bool)                              // the master between Add's unlock and its notification
    | Asleep(notified: bool)                            // in cond.wait
    | Working(batch: seq<Check>, done: nat, fOk: bool)  // executing a batch without the mutex

  datatype Verdict = Verdict(checks: seq<Check>, result: bool)

  datatype State = State(
    queue: seq<Check>,
    nIdle: int,
    nTotal: int,
    fAllOk: bool,
    nTodo: int,
    threads: seq<Thread>,
    added: seq<Check>,        // history: everything added since Wait last returned
    verdicts: seq<Verdict>)   // history: what each Wait answered, and about which checks

  const MASTER: nat := 0

  ghost function Initial(nWorkers: nat): State {
    State([], 0, 0, true, 0, seq(1 + nWorkers, _ => Out), [], [])
  }

  function Min(a: nat, b: nat): nat { if a <= b then a else b }

  function Max(a: nat, b: nat): nat { if a >= b then a else b }

  /** How many checks a thread takes at once. */
  function BatchSize(nBatchSize: nat, queued: nat, nTotal: nat, nIdle: nat): (n: nat)
    ensures n >= 1 && (queued >= 1 ==> n <= queued)
  {
    DivBound(queued, nTotal + nIdle + 1);
    Max(1, Min(nBatchSize, queued / (nTotal + nIdle + 1)))
  }

  lemma DivBound(a: nat, b: nat)
    requires b >= 1
    ensures a / b <= a
  {
  }

  /** The last n of the queue, last first. */
  function Taken(queue: seq<Check>, n: nat): (batch: seq<Check>)
    requires n <= |queue|
  {
    seq(n, i requires 0 <= i < n => queue[|queue| - 1 - i])
  }

  /** The loop that moves a batch from the queue to the thread. */
  method TakeBatch(queue: seq<Check>, n: nat) returns (batch: seq<Check>, rest: seq<Check>)
    requires n <= |queue|
    ensures batch == Taken(queue, n) && rest == queue[..|queue| - n]
  {
    batch, rest := [], queue;
    for i := 0 to n
      invariant rest == queue[..|queue| - i] && batch == Taken(queue, i)
    {
      batch := batch + [rest[|rest| - 1]];
      rest := rest[..|rest| - 1];
    }
  }

  /** Executing a batch: checks after the first failure are skipped. */
  ghost function Outcome(eval: Eval, batch: seq<Check>, done: nat, fOk: bool): bool
    requires done <= |batch|
  {
    fOk && forall i :: done <= i < |batch| ==> eval(batch[i])
  }

  // ---------- the steps ----------

  ghost function SetThread(s: State, i: nat, t: Thread): State
    requires i < |s.threads|
  {
    s.(threads := s.threads[i := t])
  }

  /** The part of a region from "logically, the do loop starts here" on: take
      work, go to sleep, or return if this is the master and all is done. */
  ghost function Decide(s: State, i: nat, nBatchSize: nat): State
    requires i < |s.threads|
  {
    if s.queue == [] then
      if i == MASTER && s.nTodo == 0 then
        SetThread(s, i, Out).(
          nTotal := s.nTotal - 1, fAllOk := true, added := [],
          verdicts := s.verdicts + [Verdict(s.added, s.fAllOk)])
      else
        SetThread(s, i, Asleep(false)).(nIdle := s.nIdle + 1)
    else
      var n := BatchSize(nBatchSize, |s.queue|, ToNat(s.nTotal), ToNat(s.nIdle));
      SetThread(s, i, Working(Taken(s.queue, n), 0, s.fAllOk)).(queue := s.queue[..|s.queue| - n])
  }

  function ToNat(x: int): nat { if x >= 0 then x else 0 }

  ghost predicate Add(s: State, s': State, vChecks: seq<Check>) {
    && |s.threads| > 0 && s.threads[MASTER] == Out && vChecks != []
    && s' == SetThread(s, MASTER, Notifying(|vChecks| > 1)).(
         queue := s.queue + vChecks, nTodo := s.nTodo + |vChecks|, added := s.added + vChecks)
  }

  function Notified(t: Thread): Thread { if t.Asleep? then Asleep(true) else t }

  ghost predicate Notify(s: State, s': State, k: nat) {
    && |s.threads| > 0 && s.threads[MASTER].Notifying?
    && (if s.threads[MASTER].all then
          s' == s.(threads := seq(|s.threads|, i requires 0 <= i < |s.threads| =>
                   if i == MASTER then Out else Notified(s.threads[i])))
        else if 0 < k < |s.threads| && s.threads[k] == Asleep(false) then
          s' == s.(threads := s.threads[k := Asleep(true)][MASTER := Out])
        else
          && (forall i :: 0 < i < |s.threads| ==> s.threads[i] != Asleep(false))
          && s' == SetThread(s, MASTER, Out))
  }

  ghost predicate Enter(s: State, s': State, i: nat, nBatchSize: nat) {
    && i < |s.threads| && s.threads[i] == Out
    && s' == Decide(s.(nTotal := s.nTotal + 1), i, nBatchSize)
  }

  /** Leaving cond.wait, notified or not. */
  ghost predicate Wake(s: State, s': State, i: nat, nBatchSize: nat) {
    && i < |s.threads| && s.threads[i].Asleep?
    && s' == Decide(s.(nIdle := s.nIdle - 1), i, nBatchSize)
  }

  ghost predicate Work(s: State, s': State, i: nat, eval: Eval) {
    && i < |s.threads| && s.threads[i].Working? && s.threads[i].done < |s.threads[i].batch|
    && var t := s.threads[i];
       s' == SetThread(s, i, t.(done := t.done + 1, fOk := t.fOk && eval(t.batch[t.done])))
  }

  /** The clean-up of a finished batch, waking the master after the last. */
  ghost function Cleaned(s: State, i: nat): State
    requires i < |s.threads| && s.threads[i].Working?
  {
    var t := s.threads[i];
    var s1 := s.(fAllOk := s.fAllOk && t.fOk, nTodo := s.nTodo - |t.batch|);
    if s1.nTodo == 0 && i != MASTER then SetThread(s1, MASTER, Notified(s1.threads[MASTER])) else s1
  }

  ghost predicate Finish(s: State, s': State, i: nat, nBatchSize: nat) {
    && i < |s.threads| && s.threads[i].Working? && s.threads[i].done == |s.threads[i].batch|
    && s' == Decide(Cleaned(s, i), i, nBatchSize)
  }

  datatype Label =
    | LAdd(vChecks: seq<Check>)
    | LNotify(k: nat)
    | LEnter(i: nat)
    | LWake(i: nat)
    | LWork(i: nat)
    | LFinish(i: nat)

  ghost predicate Next(s: State, s': State, l: Label, eval: Eval, nBatchSize: nat) {
    match l
    case LAdd(vChecks) => Add(s, s', vChecks)
    case LNotify(k) => Notify(s, s', k)
    case LEnter(i) => Enter(s, s', i, nBatchSize)
    case LWake(i) => Wake(s, s', i, nBatchSize)
    case LWork(i) => Work(s, s', i, eval)
    case LFinish(i) => Finish(s, s', i, nBatchSize)
  }

  // ---------- sums over the threads ----------

  ghost function Sum(f: Thread -> int, ts: seq<Thread>): int {
    if ts == [] then 0 else f(ts[0]) + Sum(f, ts[1..])
  }

  lemma {:induction false} SumUpdate(f: Thread -> int, ts: seq<Thread>, i: nat, t: Thread)
    requires i < |ts|
    ensures Sum(f, ts[i := t]) == Sum(f, ts) - f(ts[i]) + f(t)
  {
    if i == 0 {
      assert ts[i := t][1..] == ts[1..];
    } else {
      assert ts[i := t][1..] == ts[1..][i - 1 := t];
      SumUpdate(f, ts[1..], i - 1, t);
    }
  }

  ghost function Flight(t: Thread): int { if t.Working? then |t.batch| else 0 }
  ghost function Sleeper(t: Thread): int { if t.Asleep? then 1 else 0 }
  ghost function Inside(t: Thread): int { if t.Asleep? || t.Working? then 1 else 0 }

  // ---------- the invariant ----------

  ghost predicate Counts(s: State) {
    && s.nTodo == |s.queue| + Sum(Flight, s.threads)
    && s.nIdle == Sum(Sleeper, s.threads)
    && s.nTotal == Sum(Inside, s.threads)
  }

  ghost predicate Shape(s: State) {
    && |s.threads| > 0
    && (forall i :: 0 < i < |s.threads| ==> !s.threads[i].Notifying?)
    && (forall i :: 0 <= i < |s.threads| && s.threads[i].Working? ==>
          1 <= |s.threads[i].batch| && s.threads[i].done <= |s.threads[i].batch|)
  }

  /** The master sleeps only on an empty queue, and never without having been
      notified once nothing is left to do. */
  ghost predicate MasterAwaited(s: State) {
    |s.threads| > 0 && s.threads[MASTER].Asleep? ==>
      s.queue == [] && (s.nTodo == 0 ==> s.threads[MASTER].notified)
  }

  ghost predicate SomeBad(eval: Eval, checks: seq<Check>) {
    exists c :: c in checks && !eval(c)
  }

  /** Where a failure that has not reached fAllOk yet can still be seen. */
  ghost predicate Carries(eval: Eval, t: Thread) {
    t.Working? && t.done <= |t.batch| && !Outcome(eval, t.batch, t.done, t.fOk)
  }

  ghost predicate Failing(eval: Eval, s: State) {
    || !s.fAllOk
    || SomeBad(eval, s.queue)
    || SomeCarries(eval, s.threads)
  }

  ghost predicate SomeCarries(eval: Eval, ts: seq<Thread>) {
    exists i :: 0 <= i < |ts| && Carries(eval, ts[i])
  }

  /** A failed check is in fAllOk, or on its way there; nothing else fails. */
  ghost predicate FailuresKept(eval: Eval, s: State) {
    SomeBad(eval, s.added) <==> Failing(eval, s)
  }

  ghost predicate VerdictsRight(eval: Eval, s: State) {
    forall v :: v in s.verdicts ==> (v.result <==> forall c :: c in v.checks ==> eval(c))
  }

  ghost predicate Inv(eval: Eval, s: State) {
    Shape(s) && Counts(s) && MasterAwaited(s) && FailuresKept(eval, s) && VerdictsRight(eval, s)
  }

  /** The invariant in the middle of a region: thread i, shown as Out, holds
      the mutex and is counted as inside. */
  ghost predicate Deciding(eval: Eval, s: State, i: nat) {
    && Shape(s) && i < |s.threads| && s.threads[i] == Out
    && s.nTodo == |s.queue| + Sum(Flight, s.threads)
    && s.nIdle == Sum(Sleeper, s.threads)
    && s.nTotal == Sum(Inside, s.threads) + 1
    && MasterAwaited(s) && FailuresKept(eval, s) && VerdictsRight(eval, s)
  }

  lemma {:induction false} SumNonneg(f: Thread -> int, ts: seq<Thread>)
    requires forall t: Thread :: f(t) >= 0
    ensures Sum(f, ts) >= 0
    ensures forall i :: 0 <= i < |ts| ==> Sum(f, ts) >= f(ts[i])
  {
    if ts != [] {
      SumNonneg(f, ts[1..]);
      forall i | 0 <= i < |ts| ensures Sum(f, ts) >= f(ts[i]) {
        if i > 0 {
          assert ts[i] == ts[1..][i - 1];
        }
      }
    }
  }

  lemma {:induction false} SumSame(f: Thread -> int, ts: seq<Thread>, ts': seq<Thread>)
    requires |ts| == |ts'| && forall i :: 0 <= i < |ts| ==> f(ts[i]) == f(ts'[i])
    ensures Sum(f, ts) == Sum(f, ts')
  {
    if ts != [] {
      SumSame(f, ts[1..], ts'[1..]);
    }
  }

  lemma BadSplit(eval: Eval, a: seq<Check>, b: seq<Check>)
    ensures SomeBad(eval, a + b) <==> SomeBad(eval, a) || SomeBad(eval, b)
  {
    if SomeBad(eval, a) {
      var c :| c in a && !eval(c);
      assert c in a + b;
    }
    if SomeBad(eval, b) {
      var c :| c in b && !eval(c);
      assert c in a + b;
    }
  }

  lemma BadTaken(eval: Eval, queue: seq<Check>, n: nat)
    requires n <= |queue|
    ensures SomeBad(eval, queue) <==>
            SomeBad(eval, queue[..|queue| - n]) || exists i :: 0 <= i < n && !eval(Taken(queue, n)[i])
  {
    var m := |queue| - n;
    assert queue == queue[..m] + queue[m..];
    BadSplit(eval, queue[..m], queue[m..]);
    if SomeBad(eval, queue[m..]) {
      var c :| c in queue[m..] && !eval(c);
      var k :| 0 <= k < n && queue[m..][k] == c;
      assert Taken(queue, n)[n - 1 - k] == c;
    }
    if i :| 0 <= i < n && !eval(Taken(queue, n)[i]) {
      assert queue[m..][n - 1 - i] == Taken(queue, n)[i];
      assert Taken(queue, n)[i] in queue[m..];
    }
  }

  lemma CarriesUpdate(eval: Eval, ts: seq<Thread>, i: nat, t: Thread)
    requires i < |ts|
    ensures SomeCarries(eval, ts[i := t]) <==> Carries(eval, t) || SomeCarries(eval, ts[i := Out])
    ensures SomeCarries(eval, ts) <==> Carries(eval, ts[i]) || SomeCarries(eval, ts[i := Out])
  {
    var ts', out := ts[i := t], ts[i := Out];
    if Carries(eval, t) {
      assert Carries(eval, ts'[i]);
    }
    if j :| 0 <= j < |ts| && Carries(eval, out[j]) {
      assert j != i && ts'[j] == out[j] == ts[j];
    }
    if j :| 0 <= j < |ts| && Carries(eval, ts'[j]) {
      assert j == i || out[j] == ts'[j];
    }
    if j :| 0 <= j < |ts| && Carries(eval, ts[j]) {
      assert j == i || out[j] == ts[j];
    }
  }

  lemma NoFlight(eval: Eval, s: State)
    requires Shape(s) && Sum(Flight, s.threads) == 0
    ensures forall i :: 0 <= i < |s.threads| ==> !s.threads[i].Working?
  {
    SumNonneg(Flight, s.threads);
  }

  lemma DecideReturns(eval: Eval, s: State, nBatchSize: nat)
    requires Deciding(eval, s, MASTER) && s.queue == [] && s.nTodo == 0
    ensures Inv(eval, Decide(s, MASTER, nBatchSize))
  {
    var s' := Decide(s, MASTER, nBatchSize);
    assert s'.threads == s.threads;
    NoFlight(eval, s);
    assert Failing(eval, s) <==> !s.fAllOk;
    var v := Verdict(s.added, s.fAllOk);
    assert s.fAllOk <==> !SomeBad(eval, s.added);
    assert v.result <==> forall c :: c in v.checks ==> eval(c);
    assert forall w :: w in s'.verdicts ==> w in s.verdicts || w == v;
  }

  lemma DecideSleeps(eval: Eval, s: State, i: nat, nBatchSize: nat)
    requires Deciding(eval, s, i) && s.queue == [] && !(i == MASTER && s.nTodo == 0)
    ensures Inv(eval, Decide(s, i, nBatchSize))
  {
    SumUpdate(Flight, s.threads, i, Asleep(false));
    SumUpdate(Sleeper, s.threads, i, Asleep(false));
    SumUpdate(Inside, s.threads, i, Asleep(false));
    CarriesUpdate(eval, s.threads, i, Asleep(false));
    var s' := Decide(s, i, nBatchSize);
    assert Failing(eval, s') <==> Failing(eval, s);
  }

  lemma DecideTakes(eval: Eval, s: State, i: nat, nBatchSize: nat)
    requires Deciding(eval, s, i) && s.queue != []
    ensures Inv(eval, Decide(s, i, nBatchSize))
  {
    var n := BatchSize(nBatchSize, |s.queue|, ToNat(s.nTotal), ToNat(s.nIdle));
    var t := Working(Taken(s.queue, n), 0, s.fAllOk);
    SumUpdate(Flight, s.threads, i, t);
    SumUpdate(Sleeper, s.threads, i, t);
    SumUpdate(Inside, s.threads, i, t);
    CarriesUpdate(eval, s.threads, i, t);
    BadTaken(eval, s.queue, n);
    var s' := Decide(s, i, nBatchSize);
    assert Failing(eval, s') <==> Failing(eval, s);
  }

  lemma DecideKeeps(eval: Eval, s: State, i: nat, nBatchSize: nat)
    requires Deciding(eval, s, i)
    ensures Inv(eval, Decide(s, i, nBatchSize))
  {
    hide Inv, Deciding, Decide;
    if s.queue == [] {
      if i == MASTER && s.nTodo == 0 {
        DecideReturns(eval, s, nBatchSize);
      } else {
        DecideSleeps(eval, s, i, nBatchSize);
      }
    } else {
      DecideTakes(eval, s, i, nBatchSize);
    }
  }

  /** What the deciding thread was doing before does not matter. */
  lemma DecideForgets(s: State, i: nat, nBatchSize: nat)
    requires i < |s.threads|
    ensures Decide(SetThread(s, i, Out), i, nBatchSize) == Decide(s, i, nBatchSize)
  {
    SetTwice(s.threads, i, Out);
    SetTwice(s.threads, i, Asleep(false));
    if s.queue != [] {
      var n := BatchSize(nBatchSize, |s.queue|, ToNat(s.nTotal), ToNat(s.nIdle));
      SetTwice(s.threads, i, Working(Taken(s.queue, n), 0, s.fAllOk));
    }
  }

  lemma SetTwice(ts: seq<Thread>, i: nat, t: Thread)
    requires i < |ts|
    ensures ts[i := Out][i := t] == ts[i := t]
  {
  }

  // ---------- every step keeps the invariant ----------

  lemma AddKeeps(eval: Eval, s: State, s': State, vChecks: seq<Check>)
    requires Inv(eval, s) && Add(s, s', vChecks)
    ensures Inv(eval, s')
  {
    var t := Notifying(|vChecks| > 1);
    SumUpdate(Flight, s.threads, MASTER, t);
    SumUpdate(Sleeper, s.threads, MASTER, t);
    SumUpdate(Inside, s.threads, MASTER, t);
    CarriesUpdate(eval, s.threads, MASTER, t);
    BadSplit(eval, s.added, vChecks);
    BadSplit(eval, s.queue, vChecks);
  }

  lemma NotifyKeeps(eval: Eval, s: State, s': State, k: nat)
    requires Inv(eval, s) && Notify(s, s', k)
    ensures Inv(eval, s')
  {
    NotifyOnlyMarks(s, s', k);
    hide Notify;
    SumSame(Flight, s.threads, s'.threads);
    SumSame(Sleeper, s.threads, s'.threads);
    SumSame(Inside, s.threads, s'.threads);
    CarriesSame(eval, s.threads, s'.threads);
  }

  lemma NotifyOnlyMarks(s: State, s': State, k: nat)
    requires Notify(s, s', k)
    ensures |s'.threads| == |s.threads| && s'.threads[MASTER] == Out && s' == s.(threads := s'.threads)
    ensures forall i :: 0 < i < |s.threads| ==>
              s'.threads[i] == s.threads[i] || (s.threads[i].Asleep? && s'.threads[i].Asleep?)
  {
  }

  lemma CarriesSame(eval: Eval, ts: seq<Thread>, ts': seq<Thread>)
    requires |ts| == |ts'|
    requires forall i :: 0 <= i < |ts| ==> (Carries(eval, ts[i]) <==> Carries(eval, ts'[i]))
    ensures SomeCarries(eval, ts) <==> SomeCarries(eval, ts')
  {
    if i :| 0 <= i < |ts| && Carries(eval, ts[i]) {
      assert Carries(eval, ts'[i]);
    }
    if i :| 0 <= i < |ts| && Carries(eval, ts'[i]) {
      assert Carries(eval, ts[i]);
    }
  }

  lemma EnterKeeps(eval: Eval, s: State, s': State, i: nat, nBatchSize: nat)
    requires Inv(eval, s) && Enter(s, s', i, nBatchSize)
    ensures Inv(eval, s')
  {
    assert Deciding(eval, s.(nTotal := s.nTotal + 1), i);
    DecideKeeps(eval, s.(nTotal := s.nTotal + 1), i, nBatchSize);
  }

  lemma WakeKeeps(eval: Eval, s: State, s': State, i: nat, nBatchSize: nat)
    requires Inv(eval, s) && Wake(s, s', i, nBatchSize)
    ensures Inv(eval, s')
  {
    hide Decide;
    var s1 := s.(nIdle := s.nIdle - 1);
    SumUpdate(Flight, s.threads, i, Out);
    SumUpdate(Sleeper, s.threads, i, Out);
    SumUpdate(Inside, s.threads, i, Out);
    CarriesUpdate(eval, s.threads, i, Out);
    assert Deciding(eval, SetThread(s1, i, Out), i);
    DecideKeeps(eval, SetThread(s1, i, Out), i, nBatchSize);
    DecideForgets(s1, i, nBatchSize);
  }

  lemma WorkKeeps(eval: Eval, s: State, s': State, i: nat)
    requires Inv(eval, s) && Work(s, s', i, eval)
    ensures Inv(eval, s')
  {
    var t := s.threads[i];
    var t' := t.(done := t.done + 1, fOk := t.fOk && eval(t.batch[t.done]));
    SumUpdate(Flight, s.threads, i, t');
    SumUpdate(Sleeper, s.threads, i, t');
    SumUpdate(Inside, s.threads, i, t');
    CarriesUpdate(eval, s.threads, i, t');
    assert Carries(eval, t) <==> Carries(eval, t');
  }

  lemma FinishKeeps(eval: Eval, s: State, s': State, i: nat, nBatchSize: nat)
    requires Inv(eval, s) && Finish(s, s', i, nBatchSize)
    ensures Inv(eval, s')
  {
    hide Decide;
    var s1 := SetThread(Cleaned(s, i), i, Out);
    CleanedDecides(eval, s, i);
    DecideKeeps(eval, s1, i, nBatchSize);
    DecideForgets(Cleaned(s, i), i, nBatchSize);
  }

  lemma CleanedDecides(eval: Eval, s: State, i: nat)
    requires Inv(eval, s) && i < |s.threads| && s.threads[i].Working? && s.threads[i].done == |s.threads[i].batch|
    ensures Deciding(eval, SetThread(Cleaned(s, i), i, Out), i)
  {
    var t := s.threads[i];
    var out := s.threads[i := Out];
    SumUpdate(Flight, s.threads, i, Out);
    SumUpdate(Sleeper, s.threads, i, Out);
    SumUpdate(Inside, s.threads, i, Out);
    CarriesUpdate(eval, s.threads, i, Out);
    assert Carries(eval, t) <==> !t.fOk;
    var s1 := SetThread(Cleaned(s, i), i, Out);
    if i != MASTER {
      var m := Notified(s.threads[MASTER]);
      assert s1.threads == out || s1.threads == out[MASTER := m];
      SumUpdate(Flight, out, MASTER, m);
      SumUpdate(Sleeper, out, MASTER, m);
      SumUpdate(Inside, out, MASTER, m);
      CarriesUpdate(eval, out, MASTER, m);
    }
  }

  lemma NextKeeps(eval: Eval, s: State, s': State, l: Label, nBatchSize: nat)
    requires Inv(eval, s) && Next(s, s', l, eval, nBatchSize)
    ensures Inv(eval, s')
  {
    hide Inv, Add, Notify, Enter, Wake, Work, Finish;
    match l
    case LAdd(vChecks) => AddKeeps(eval, s, s', vChecks);
    case LNotify(k) => NotifyKeeps(eval, s, s', k);
    case LEnter(i) => EnterKeeps(eval, s, s', i, nBatchSize);
    case LWake(i) => WakeKeeps(eval, s, s', i, nBatchSize);
    case LWork(i) => WorkKeeps(eval, s, s', i);
    case LFinish(i) => FinishKeeps(eval, s, s', i, nBatchSize);
  }

  // ---------- whole runs ----------

  /** States and the labels of the steps between them. */
  ghost predicate IsRun(trace: seq<State>, labels: seq<Label>, eval: Eval, nBatchSize: nat) {
    && |trace| == |labels| + 1
    && forall k :: 0 <= k < |labels| ==> Next(trace[k], trace[k + 1], labels[k], eval, nBatchSize)
  }

  lemma InitialInv(eval: Eval, nWorkers: nat)
    ensures Inv(eval, Initial(nWorkers))
  {
    var ts := Initial(nWorkers).threads;
    SumZero(Flight, ts);
    SumZero(Sleeper, ts);
    SumZero(Inside, ts);
  }

  lemma {:induction false} SumZero(f: Thread -> int, ts: seq<Thread>)
    requires forall i :: 0 <= i < |ts| ==> f(ts[i]) == 0
    ensures Sum(f, ts) == 0
  {
    if ts != [] {
      SumZero(f, ts[1..]);
    }
  }

  /** In every interleaving: the counters are exact, every answer Wait gave was
      true exactly when all checks added since the previous answer hold, and
      the master never sleeps un-notified with nothing left to do. */
  lemma {:induction false} RunInv(trace: seq<State>, labels: seq<Label>, eval: Eval, nWorkers: nat,
                                 nBatchSize: nat, k: nat)
    requires IsRun(trace, labels, eval, nBatchSize) && trace[0] == Initial(nWorkers) && k < |trace|
    ensures Inv(eval, trace[k])
  {
    if k == 0 {
      InitialInv(eval, nWorkers);
    } else {
      hide Inv, Next;
      RunInv(trace, labels, eval, nWorkers, nBatchSize, k - 1);
      assert Next(trace[k - 1], trace[k], labels[k - 1], eval, nBatchSize);
      NextKeeps(eval, trace[k - 1], trace[k], labels[k - 1], nBatchSize);
    }
  }

  lemma WaitAnswersRight(trace: seq<State>, labels: seq<Label>, eval: Eval, nWorkers: nat,
                         nBatchSize: nat, k: nat, v: Verdict)
    requires IsRun(trace, labels, eval, nBatchSize) && trace[0] == Initial(nWorkers) && k < |trace|
    requires v in trace[k].verdicts
    ensures v.result <==> forall c :: c in v.checks ==> eval(c)
  {
    RunInv(trace, labels, eval, nWorkers, nBatchSize, k);
  }

  // ---------- Wait comes to an end ----------

  ghost predicate InWait(s: State) {
    |s.threads| > 0 && (s.threads[MASTER].Asleep? || s.threads[MASTER].Working?)
  }

  ghost function Weight(t: Thread): int {
    match t
    case Out => 1
    case Notifying(_) => 1
    case Asleep(notified) => if notified then 1 else 0
    case Working(batch, done, _) => (if done <= |batch| then |batch| - done else 0) + 2
  }

  /** What is left to do until the master can return. */
  ghost function Measure(s: State): int { 4 * |s.queue| + Sum(Weight, s.threads) }

  lemma MeasureNonneg(s: State)
    ensures Measure(s) >= 0
  {
    SumNonneg(Weight, s.threads);
  }

  /** Taking work or going to sleep, from a thread that weighs at least `w`. */
  lemma DecideWeighs(s: State, i: nat, nBatchSize: nat)
    requires Shape(s) && i < |s.threads| && !(i == MASTER && s.queue == [] && s.nTodo == 0)
    ensures s.queue == [] ==> Measure(Decide(s, i, nBatchSize)) == Measure(s) - Weight(s.threads[i])
    ensures s.queue != [] ==> Measure(Decide(s, i, nBatchSize)) < Measure(s) - Weight(s.threads[i])
  {
    if s.queue == [] {
      SumUpdate(Weight, s.threads, i, Asleep(false));
    } else {
      var n := BatchSize(nBatchSize, |s.queue|, ToNat(s.nTotal), ToNat(s.nIdle));
      SumUpdate(Weight, s.threads, i, Working(Taken(s.queue, n), 0, s.fAllOk));
    }
  }

  lemma CleanedWeighs(s: State, i: nat)
    requires Shape(s) && i < |s.threads| && s.threads[i].Working?
    ensures Measure(Cleaned(s, i)) <= Measure(s) + 1 && Shape(Cleaned(s, i))
    ensures Cleaned(s, i).threads[i] == s.threads[i]
  {
    SumUpdate(Weight, s.threads, MASTER, Notified(s.threads[MASTER]));
  }

  /** While the master waits, a step that changes anything brings the end
      nearer; only a wake-up that goes straight back to sleep changes nothing. */
  lemma WaitAdvances(eval: Eval, s: State, s': State, l: Label, nBatchSize: nat)
    requires Inv(eval, s) && Next(s, s', l, eval, nBatchSize) && InWait(s) && InWait(s')
    ensures s' == s || Measure(s') < Measure(s)
  {
    match l
    case LEnter(i) =>
      hide Decide, FailuresKept, VerdictsRight, Counts, MasterAwaited;
      NotReturning(s.(nTotal := s.nTotal + 1), i, nBatchSize);
      DecideWeighs(s.(nTotal := s.nTotal + 1), i, nBatchSize);
    case LWake(i) =>
      WakeAdvances(s, s', i, nBatchSize);
    case LWork(i) =>
      WorkAdvances(eval, s, s', i);
    case LFinish(i) =>
      hide Decide, Cleaned, FailuresKept, VerdictsRight, Counts, MasterAwaited, Measure;
      CleanedWeighs(s, i);
      NotReturning(Cleaned(s, i), i, nBatchSize);
      DecideWeighs(Cleaned(s, i), i, nBatchSize);
    case _ =>
  }

  lemma WorkAdvances(eval: Eval, s: State, s': State, i: nat)
    requires Shape(s) && Work(s, s', i, eval)
    ensures Measure(s') < Measure(s)
  {
    var t := s.threads[i];
    SumUpdate(Weight, s.threads, i, t.(done := t.done + 1, fOk := t.fOk && eval(t.batch[t.done])));
  }

  lemma NotReturning(s: State, i: nat, nBatchSize: nat)
    requires i < |s.threads| && InWait(Decide(s, i, nBatchSize))
    ensures !(i == MASTER && s.queue == [] && s.nTodo == 0)
  {
  }

  lemma WakeAdvances(s: State, s': State, i: nat, nBatchSize: nat)
    requires Shape(s) && Wake(s, s', i, nBatchSize) && InWait(s')
    ensures s' == s || Measure(s') < Measure(s)
  {
    var s1 := s.(nIdle := s.nIdle - 1);
    NotReturning(s1, i, nBatchSize);
    DecideWeighs(s1, i, nBatchSize);
    if s.queue == [] && s.threads[i] == Asleep(false) {
      assert s'.threads == s.threads;
    }
  }

  /** While the master waits, some thread can always bring the end nearer, or
      the master can return. */
  lemma WaitEnabled(eval: Eval, s: State, nBatchSize: nat) returns (l: Label, s': State)
    requires Inv(eval, s) && InWait(s)
    ensures Next(s, s', l, eval, nBatchSize)
    ensures s' != s && (InWait(s') ==> Measure(s') < Measure(s))
  {
    hide FailuresKept, VerdictsRight;
    if s.threads[MASTER] == Asleep(true) {
      l, s' := LWake(MASTER), Decide(s.(nIdle := s.nIdle - 1), MASTER, nBatchSize);
      assert s'.threads[MASTER] != s.threads[MASTER];
    } else {
      var i := SomeWorking(s);
      var t := s.threads[i];
      if t.done < |t.batch| {
        l := LWork(i);
        s' := SetThread(s, i, t.(done := t.done + 1, fOk := t.fOk && eval(t.batch[t.done])));
      } else {
        l, s' := LFinish(i), Decide(Cleaned(s, i), i, nBatchSize);
      }
      assert s'.threads[i] != s.threads[i];
    }
    if InWait(s') {
      WaitAdvances(eval, s, s', l, nBatchSize);
    }
  }

  lemma SomeWorking(s: State) returns (i: nat)
    requires Shape(s) && Counts(s) && MasterAwaited(s) && InWait(s) && s.threads[MASTER] != Asleep(true)
    ensures i < |s.threads| && s.threads[i].Working?
  {
    if s.threads[MASTER].Working? {
      i := MASTER;
    } else {
      assert Sum(Flight, s.threads) != 0;
      if forall j :: 0 <= j < |s.threads| ==> !s.threads[j].Working? {
        SumZero(Flight, s.threads);
        assert false;
      }
      i :| i < |s.threads| && s.threads[i].Working?;
    }
  }

  ghost function Changes(trace: seq<State>): nat {
    if |trace| <= 1 then 0
    else (if trace[1] != trace[0] then 1 else 0) + Changes(trace[1..])
  }

  /** However the threads interleave, one Wait sees at most Measure many
      changes of the state. */
  lemma {:induction false} WaitBounded(trace: seq<State>, labels: seq<Label>, eval: Eval, nBatchSize: nat)
    requires IsRun(trace, labels, eval, nBatchSize) && Inv(eval, trace[0])
    requires forall k :: 0 <= k < |trace| ==> InWait(trace[k])
    ensures Changes(trace) <= Measure(trace[0])
    decreases |trace|
  {
    MeasureNonneg(trace[0]);
    if |trace| > 1 {
      hide Inv, Next, InWait, Measure;
      assert Next(trace[0], trace[1], labels[0], eval, nBatchSize);
      NextKeeps(eval, trace[0], trace[1], labels[0], nBatchSize);
      WaitAdvances(eval, trace[0], trace[1], labels[0], nBatchSize);
      assert IsRun(trace[1..], labels[1..], eval, nBatchSize);
      WaitBounded(trace[1..], labels[1..], eval, nBatchSize);
    }
  }

  // ---------- every check is taken once ----------

  ghost function Times(checks: seq<Check>, c: Check): nat { multiset(checks)[c] }

  lemma TimesJoin(x: seq<Check>, y: seq<Check>, c: Check)
    ensures Times(x + y, c) == Times(x, c) + Times(y, c)
  {
  }

  lemma {:induction false} TimesTaken(queue: seq<Check>, n: nat, c: Check)
    requires n <= |queue|
    ensures Times(Taken(queue, n), c) + Times(queue[..|queue| - n], c) == Times(queue, c)
    decreases n
  {
    if n == 0 {
      assert queue[..|queue| - n] == queue;
    } else {
      var m := |queue| - 1;
      TimesTaken(queue[..m], n - 1, c);
      assert Taken(queue, n) == [queue[m]] + Taken(queue[..m], n - 1);
      assert queue[..m][..m - (n - 1)] == queue[..|queue| - n];
      assert queue == queue[..m] + [queue[m]];
      TimesJoin([queue[m]], Taken(queue[..m], n - 1), c);
      TimesJoin(queue[..m], [queue[m]], c);
    }
  }

  /** How often a thread holds a check, and how often among those it is through with. */
  ghost function Held(t: Thread, c: Check): nat { if t.Working? then Times(t.batch, c) else 0 }

  ghost function Tried(t: Thread, c: Check): nat {
    if t.Working? && t.done <= |t.batch| then Times(t.batch[..t.done], c) else 0
  }

  ghost function HeldOf(c: Check): Thread -> int { t => Held(t, c) }

  ghost function TriedOf(c: Check): Thread -> int { t => Tried(t, c) }

  /** How often a check is queued or held by a thread. */
  ghost function Pending(s: State, c: Check): int { Times(s.queue, c) + Sum(HeldOf(c), s.threads) }

  ghost function InHand(s: State, c: Check): int { Sum(TriedOf(c), s.threads) }

  /** How often a step adds a check, tries it, and is done with it. */
  ghost function AddedBy(l: Label, c: Check): nat { if l.LAdd? then Times(l.vChecks, c) else 0 }

  ghost function TriedBy(s: State, l: Label, c: Check): nat {
    if && l.LWork? && l.i < |s.threads| && s.threads[l.i].Working?
       && s.threads[l.i].done < |s.threads[l.i].batch| && s.threads[l.i].batch[s.threads[l.i].done] == c
    then 1 else 0
  }

  ghost function DoneBy(s: State, l: Label, c: Check): nat {
    if l.LFinish? && l.i < |s.threads| then Held(s.threads[l.i], c) else 0
  }

  /** A thread that decides what to do next drops nothing but what it holds. */
  lemma DecideConserves(s: State, i: nat, nBatchSize: nat, c: Check)
    requires i < |s.threads|
    ensures Pending(Decide(s, i, nBatchSize), c) + Held(s.threads[i], c) == Pending(s, c)
    ensures InHand(Decide(s, i, nBatchSize), c) + Tried(s.threads[i], c) == InHand(s, c)
  {
    hide Times;
    var t := Decide(s, i, nBatchSize).threads[i];
    SumUpdate(HeldOf(c), s.threads, i, t);
    SumUpdate(TriedOf(c), s.threads, i, t);
    if s.queue != [] {
      TimesTaken(s.queue, BatchSize(nBatchSize, |s.queue|, ToNat(s.nTotal), ToNat(s.nIdle)), c);
      assert t.batch[..0] == [];
    }
    NoTimes(c);
  }

  lemma NoTimes(c: Check)
    ensures Times([], c) == 0
  {
  }

  lemma CleanedConserves(s: State, i: nat, c: Check)
    requires i < |s.threads| && s.threads[i].Working?
    ensures var s1 := Cleaned(s, i);
            && |s1.threads| == |s.threads| && s1.threads[i] == s.threads[i]
            && Pending(s1, c) == Pending(s, c) && InHand(s1, c) == InHand(s, c)
  {
    hide Times;
    SumUpdate(HeldOf(c), s.threads, MASTER, Notified(s.threads[MASTER]));
    SumUpdate(TriedOf(c), s.threads, MASTER, Notified(s.threads[MASTER]));
  }

  lemma StepConserves(eval: Eval, s: State, s': State, l: Label, nBatchSize: nat, c: Check)
    requires Shape(s) && Next(s, s', l, eval, nBatchSize)
    ensures Pending(s, c) + AddedBy(l, c) == Pending(s', c) + DoneBy(s, l, c)
    ensures InHand(s, c) + TriedBy(s, l, c) == InHand(s', c) + DoneBy(s, l, c)
  {
    hide Decide, Cleaned, Times, Sum;
    match l
    case LAdd(vChecks) =>
      SumUpdate(HeldOf(c), s.threads, MASTER, s'.threads[MASTER]);
      SumUpdate(TriedOf(c), s.threads, MASTER, s'.threads[MASTER]);
      TimesJoin(s.queue, vChecks, c);
    case LNotify(k) =>
      NotifyOnlyMarks(s, s', k);
      hide Notify;
      SumSame(HeldOf(c), s.threads, s'.threads);
      SumSame(TriedOf(c), s.threads, s'.threads);
    case LEnter(i) => DecideConserves(s.(nTotal := s.nTotal + 1), i, nBatchSize, c);
    case LWake(i) => DecideConserves(s.(nIdle := s.nIdle - 1), i, nBatchSize, c);
    case LWork(i) =>
      SumUpdate(HeldOf(c), s.threads, i, s'.threads[i]);
      SumUpdate(TriedOf(c), s.threads, i, s'.threads[i]);
      OneMoreTried(s.threads[i], s'.threads[i], c);
    case LFinish(i) =>
      FinishConserves(s, s', i, nBatchSize, c);
  }

  lemma FinishConserves(s: State, s': State, i: nat, nBatchSize: nat, c: Check)
    requires Finish(s, s', i, nBatchSize)
    ensures Pending(s, c) == Pending(s', c) + Held(s.threads[i], c)
    ensures InHand(s, c) == InHand(s', c) + Held(s.threads[i], c)
  {
    hide Decide, Cleaned, Times, Pending, InHand;
    CleanedConserves(s, i, c);
    DecideConserves(Cleaned(s, i), i, nBatchSize, c);
    assert s.threads[i].batch[..s.threads[i].done] == s.threads[i].batch;
  }

  lemma OneMoreTried(t: Thread, t': Thread, c: Check)
    requires t.Working? && t.done < |t.batch| && t'.Working? && t'.batch == t.batch && t'.done == t.done + 1
    ensures Tried(t', c) == Tried(t, c) + (if t.batch[t.done] == c then 1 else 0) && Held(t', c) == Held(t, c)
  {
    assert t.batch[..t.done + 1] == t.batch[..t.done] + [t.batch[t.done]];
    TimesJoin(t.batch[..t.done], [t.batch[t.done]], c);
  }

  /** How often the first k steps added a check, tried it, and were done with it. */
  ghost function AllAdded(labels: seq<Label>, k: nat, c: Check): nat
    requires k <= |labels|
  {
    if k == 0 then 0 else AllAdded(labels, k - 1, c) + AddedBy(labels[k - 1], c)
  }

  ghost function AllTried(trace: seq<State>, labels: seq<Label>, k: nat, c: Check): nat
    requires k <= |labels| <= |trace|
  {
    if k == 0 then 0 else AllTried(trace, labels, k - 1, c) + TriedBy(trace[k - 1], labels[k - 1], c)
  }

  ghost function AllDone(trace: seq<State>, labels: seq<Label>, k: nat, c: Check): nat
    requires k <= |labels| <= |trace|
  {
    if k == 0 then 0 else AllDone(trace, labels, k - 1, c) + DoneBy(trace[k - 1], labels[k - 1], c)
  }

  /** At every point of every interleaving, a check has been added as often as it is
      queued, held by a thread and done; and it has been tried as often as it is done
      and among those the threads are through with. */
  lemma {:induction false} Conserved(trace: seq<State>, labels: seq<Label>, eval: Eval, nWorkers: nat, nBatchSize: nat,
                                     k: nat, c: Check)
    requires IsRun(trace, labels, eval, nBatchSize) && trace[0] == Initial(nWorkers) && k < |trace|
    ensures AllAdded(labels, k, c) == Pending(trace[k], c) + AllDone(trace, labels, k, c)
    ensures AllTried(trace, labels, k, c) == InHand(trace[k], c) + AllDone(trace, labels, k, c)
  {
    hide Next, Shape, Pending, InHand, AddedBy, TriedBy, DoneBy;
    if k == 0 {
      NothingYet(nWorkers, c);
    } else {
      Conserved(trace, labels, eval, nWorkers, nBatchSize, k - 1, c);
      RunInv(trace, labels, eval, nWorkers, nBatchSize, k - 1);
      assert Next(trace[k - 1], trace[k], labels[k - 1], eval, nBatchSize);
      StepConserves(eval, trace[k - 1], trace[k], labels[k - 1], nBatchSize, c);
    }
  }

  lemma NothingYet(nWorkers: nat, c: Check)
    ensures Pending(Initial(nWorkers), c) == 0 && InHand(Initial(nWorkers), c) == 0
  {
    SumZero(HeldOf(c), Initial(nWorkers).threads);
    SumZero(TriedOf(c), Initial(nWorkers).threads);
  }

  /** When Wait answers, every check has been tried exactly as often as it was added. */
  lemma WaitTriedAll(trace: seq<State>, labels: seq<Label>, eval: Eval, nWorkers: nat,
                     nBatchSize: nat, k: nat, c: Check)
    requires IsRun(trace, labels, eval, nBatchSize) && trace[0] == Initial(nWorkers) && k < |labels|
    requires |trace[k + 1].verdicts| > |trace[k].verdicts|
    ensures AllTried(trace, labels, k + 1, c) == AllAdded(labels, k + 1, c)
  {
    hide Inv, Next, Pending, InHand;
    RunInv(trace, labels, eval, nWorkers, nBatchSize, k);
    RunInv(trace, labels, eval, nWorkers, nBatchSize, k + 1);
    Conserved(trace, labels, eval, nWorkers, nBatchSize, k + 1, c);
    assert Next(trace[k], trace[k + 1], labels[k], eval, nBatchSize);
    AnswerEmpty(eval, trace[k], trace[k + 1], labels[k], nBatchSize, c);
  }

  /** Wait answers only on an empty queue with nothing left to do. */
  lemma AnswerEmpty(eval: Eval, s: State, s': State, l: Label, nBatchSize: nat, c: Check)
    requires Inv(eval, s) && Inv(eval, s') && Next(s, s', l, eval, nBatchSize) && |s'.verdicts| > |s.verdicts|
    ensures Pending(s', c) == 0 && InHand(s', c) == 0
  {
    hide FailuresKept, VerdictsRight, Sum;
    assert s'.queue == [] && s'.nTodo == 0;
    NoFlight(eval, s');
    SumZero(HeldOf(c), s'.threads);
    SumZero(TriedOf(c), s'.threads);
  }
}
