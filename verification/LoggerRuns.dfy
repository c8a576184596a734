/** How long a run can be, and exactly when the start-up deadlock can happen. */
module LoggerRuns {
  import opened Basics
  import opened LoggerModel
  import opened LoggerInvariant
  import opened LoggerTheorems

  // ------------------------------------------------------------ sums over threads

  function Sum(threads: map<nat, Thread>, weight: Thread -> nat, n: nat): nat {
    if n == 0 then 0
    else Sum(threads, weight, n - 1) + if n - 1 in threads then weight(threads[n - 1]) else 0
  }

  function Scripted(script: map<nat, seq<Message>>, n: nat): nat {
    if n == 0 then 0
    else Scripted(script, n - 1) + if n - 1 in script then |script[n - 1]| else 0
  }

  ghost predicate Below(threads: map<nat, Thread>, n: nat) {
    forall t | t in threads :: t < n
  }

  lemma {:induction false} SumMove(threads: map<nat, Thread>, weight: Thread -> nat, n: nat, t: nat, th: Thread)
    requires t in threads
    ensures Sum(threads[t := th], weight, n) ==
            Sum(threads, weight, n) + if t < n then weight(th) - weight(threads[t]) else 0
  {
    if n > 0 {
      SumMove(threads, weight, n - 1, t, th);
    }
  }

  lemma {:induction false} SumAtLeast(threads: map<nat, Thread>, weight: Thread -> nat, n: nat, t: nat)
    requires t in threads && t < n
    ensures weight(threads[t]) <= Sum(threads, weight, n)
  {
    if t < n - 1 {
      SumAtLeast(threads, weight, n - 1, t);
    }
  }

  lemma {:induction false} SumOfOne(threads: map<nat, Thread>, weight: Thread -> nat, n: nat, t: nat)
    requires t in threads
    requires forall u | u in threads && u != t :: weight(threads[u]) == 0
    ensures Sum(threads, weight, n) == if t < n then weight(threads[t]) else 0
  {
    if n > 0 {
      SumOfOne(threads, weight, n - 1, t);
    }
  }

  // ------------------------------------------------------------ the measure

  function Owed(th: Thread): nat {
    |Remaining(th)|
  }

  function Stage(pc: Pc): nat {
    match pc
    case Ready => 0
    case HasToken => 1
    case Locked => 2
    case WriteText(_) => 3
    case WriteTime(_) => 4
    case WriteLevel(_) => 5
    case Written(_) => 6
    case Released => 7
  }

  /** The steps a thread still has to take. */
  function StepsLeft(th: Thread): nat {
    if 8 * |th.todo| < Stage(th.pc) then 0 else 8 * |th.todo| - Stage(th.pc)
  }

  /** The steps the worker still has to take when `total` messages come through the ring. */
  function WorkLeft(s: State, total: nat): int {
    (|s.logs| + 6) * (total - s.taken) +
    match s.worker
    case Starting => 1
    case WaitFull => 0
    case LockFetch => -1
    case Take => -2
    case Format(_) => |s.logs| + 3
    case Handle(_, _, k) => |s.logs| + 2 - k
    case Post => 1
  }

  function Measure(s: State, n: nat): int {
    Sum(s.threads, StepsLeft, n) + WorkLeft(s, Scripted(s.script, n))
  }

  /** What has been deposited and what is still owed add up to the scripts. */
  ghost predicate Accounted(s: State, n: nat) {
    Below(s.threads, n) && |s.deposited| + Sum(s.threads, Owed, n) == Scripted(s.script, n)
  }

  lemma {:induction false} InitAccounted(s: State, n: nat)
    requires Init(s)
    ensures Sum(s.threads, Owed, n) == Scripted(s.script, n)
    ensures Sum(s.threads, StepsLeft, n) == 8 * Scripted(s.script, n)
  {
    if n > 0 {
      InitAccounted(s, n - 1);
    }
  }

  lemma ProduceAccounted(s: State, t: nat, n: nat)
    requires Shape(s) && Threads(s) && Accounted(s, n) && Produce(s, t).Some?
    ensures Accounted(Produce(s, t).value, n)
    ensures Sum(Produce(s, t).value.threads, StepsLeft, n) == Sum(s.threads, StepsLeft, n) - 1
  {
    var s' := Produce(s, t).value;
    ProduceFrame(s, t);
    ProduceHistory(s, t);
    SumMove(s.threads, Owed, n, t, s'.threads[t]);
    SumMove(s.threads, StepsLeft, n, t, s'.threads[t]);
    OneThread(s, t);
  }

  /** The moving thread's own count: one step less, and one message less exactly when it claims. */
  lemma OneThread(s: State, t: nat)
    requires Produce(s, t).Some?
    ensures t in Produce(s, t).value.threads
    ensures StepsLeft(Produce(s, t).value.threads[t]) == StepsLeft(s.threads[t]) - 1
    ensures Owed(Produce(s, t).value.threads[t]) == Owed(s.threads[t]) - if s.threads[t].pc == Locked then 1 else 0
  {
  }

  lemma WorkCosts(s: State, total: nat)
    requires Shape(s) && Fetches(s) && Work(s).Some?
    ensures WorkLeft(Work(s).value, total) == WorkLeft(s, total) - 1
  {
    var s' := Work(s).value;
    if s.worker.Take? {
      var h, r := |s.logs| + 6, total - s.taken;
      assert h * (r - 1) == h * r - h;
    }
  }

  lemma WorkLeftNotNegative(s: State, total: nat)
    requires s.taken <= total && (s.worker.LockFetch? || s.worker.Take? ==> s.taken < total)
    requires s.worker.Handle? ==> s.worker.next <= |s.logs|
    ensures WorkLeft(s, total) >= 0
  {
  }

  /** Every step of any thread or of the worker uses up exactly one unit. */
  lemma StepCosts(s: State, s': State, n: nat)
    requires Inv(s) && Accounted(s, n) && Next(s, s')
    ensures Accounted(s', n) && Measure(s', n) == Measure(s, n) - 1
  {
    if Work(s) == Some(s') {
      WorkFrame(s);
      WorkCosts(s, Scripted(s.script, n));
    } else {
      var t :| Produce(s, t) == Some(s');
      ProduceAccounted(s, t, n);
      ProduceFrame(s, t);
      SameWork(s, s', t, Scripted(s.script, n));
    }
  }

  lemma SameWork(s: State, s': State, t: nat, total: nat)
    requires DepositFrame(s, s', t)
    ensures WorkLeft(s', total) == WorkLeft(s, total)
  {
  }

  lemma {:induction false} RunCosts(run: seq<State>, n: nat)
    requires Run(run) && Below(run[0].threads, n)
    ensures Inv(run[|run| - 1]) && Accounted(run[|run| - 1], n) && run[|run| - 1].script == run[0].script
    ensures |run| - 1 + Measure(run[|run| - 1], n) == Measure(run[0], n)
    decreases |run|
  {
    if |run| == 1 {
      InitInv(run[0]);
      InitAccounted(run[0], n);
    } else {
      var k := |run| - 2;
      var before := run[..k + 1];
      assert Next(run[k], run[k + 1]);
      forall i {:trigger before[i + 1]} | 0 <= i < |before| - 1 ensures Next(before[i], before[i + 1]) {
        assert before[i] == run[i] && before[i + 1] == run[i + 1];
      }
      RunCosts(before, n);
      RunInv(run);
      StepCosts(run[k], run[k + 1], n);
      ScriptFixed(run[k], run[k + 1]);
    }
  }

  lemma ScriptFixed(s: State, s': State)
    requires Next(s, s')
    ensures s'.script == s.script
  {
    if Work(s) != Some(s') {
      var t :| Produce(s, t) == Some(s');
    }
  }

  /** No run, however the threads are interleaved, takes more than eight steps a message, a fixed
      number of worker steps a message, and one to start. So every run that cannot be prolonged
      ends stuck, which StuckExactly describes. */
  lemma RunsAreBounded(run: seq<State>, n: nat)
    requires Run(run) && Below(run[0].threads, n)
    ensures |run| <= (|run[0].logs| + 14) * Scripted(run[0].script, n) + 2
  {
    var m, h := Scripted(run[0].script, n), |run[0].logs|;
    RunCosts(run, n);
    var last := run[|run| - 1];
    assert last.taken <= Complete(last) <= m;
    WorkLeftNotNegative(last, m);
    InitAccounted(run[0], n);
    assert (h + 6) * m + 8 * m == (h + 14) * m;
  }

  // ------------------------------------------------------------ the start-up deadlock

  /** The start-up deadlock takes more messages than there are slots. */
  lemma DeadlockNeeds(s: State, n: nat)
    requires Reachable(s) && Below(s.threads, n) && StartupDeadlock(s)
    ensures Scripted(s.script, n) > SLOTS && WORKER in s.script && s.script[WORKER] != []
  {
    var run: seq<State> :| Run(run) && run[|run| - 1] == s;
    RunInv(run);
    SameScript(run);
    assert run[0].threads.Keys == s.threads.Keys;
    RunCosts(run, n);
    InFlightCount(s);
    assert |s.deposited| == SLOTS && |InFlight(s)| == 0;
    assert WORKER !in InFlight(s);
    SumAtLeast(s.threads, Owed, n, WORKER);
    assert OfThread(s.deposited, WORKER) + Remaining(s.threads[WORKER]) == s.script[WORKER];
  }

  lemma {:induction false} SameScript(run: seq<State>)
    requires Run(run)
    ensures run[|run| - 1].script == run[0].script
    decreases |run|
  {
    if |run| > 1 {
      var k := |run| - 2;
      var before := run[..k + 1];
      assert Next(run[k], run[k + 1]);
      forall i {:trigger before[i + 1]} | 0 <= i < |before| - 1 ensures Next(before[i], before[i + 1]) {
        assert before[i] == run[i] && before[i + 1] == run[i + 1];
      }
      SameScript(before);
      ScriptFixed(run[k], run[k + 1]);
    }
  }

  /** Nobody is inside a deposit and the worker has not got its own message out. */
  ghost predicate Idle(s: State) {
    && Reachable(s) && s.worker.Starting? && s.depositOwner == None
    && (forall t | t in s.threads :: s.threads[t].pc == Ready)
    && WORKER in s.threads && s.threads[WORKER].todo != []
  }

  ghost predicate Deposited(s: State, s': State, t: nat)
    requires t in s.threads && s.threads[t].todo != []
  {
    && s'.threads == s.threads[t := Thread(Ready, s.threads[t].todo[1..])]
    && s'.worker == s.worker && s'.script == s.script && s'.depositOwner == None
    && s'.semEmpty == s.semEmpty - 1 && s'.semFull == s.semFull + 1
  }

  lemma Follow(s: State, t: nat)
    requires Reachable(s) && Produce(s, t).Some?
    ensures Reachable(Produce(s, t).value)
  {
    assert Next(s, Produce(s, t).value);
    ReachableStep(s, Produce(s, t).value);
  }

  /** Thread t runs one whole deposit without interruption. */
  lemma WholeDeposit(s: State, t: nat) returns (s': State)
    requires Idle(s) && t in s.threads && s.threads[t].todo != [] && s.semEmpty > 0
    ensures Reachable(s') && Deposited(s, s', t)
  {
    ReachableInv(s);
    s' := FirstHalf(s, t);
    s' := SecondHalf(s, s', t);
  }

  function After(s: State, pc: Pc): Pc {
    match pc
    case Ready => HasToken
    case HasToken => Locked
    case Locked => WriteText(s.rear)
    case WriteText(i) => WriteTime(i)
    case WriteTime(i) => WriteLevel(i)
    case WriteLevel(i) => Written(i)
    case _ => Released
  }

  /** From s to s' thread t has moved to pc and has not posted; the rest is as it was. */
  ghost predicate MovedTo(s: State, s': State, t: nat, pc: Pc)
    requires t in s.threads
  {
    && |s'.slots| == SLOTS && s'.threads == s.threads[t := s.threads[t].(pc := pc)]
    && s'.worker == s.worker && s'.script == s.script && s'.semFull == s.semFull
  }

  lemma Advance(s: State, t: nat) returns (s': State)
    requires Reachable(s) && Produce(s, t).Some? && s.threads[t].pc != Released
    ensures Produce(s, t) == Some(s') && Reachable(s') && MovedTo(s, s', t, After(s, s.threads[t].pc))
    ensures s'.semEmpty == if s.threads[t].pc == Ready then s.semEmpty - 1 else s.semEmpty
  {
    s' := Produce(s, t).value;
    Follow(s, t);
  }

  lemma AdvanceWrite(s0: State, s: State, t: nat, pc: Pc) returns (s': State)
    requires t in s0.threads && s0.threads[t].todo != []
    requires Reachable(s) && |s.slots| == SLOTS && MovedTo(s0, s, t, pc) && IsWrite(pc) && pc.slot < SLOTS
    ensures Reachable(s') && MovedTo(s0, s', t, After(s, pc)) && s'.semEmpty == s.semEmpty
  {
    s' := Advance(s, t);
    Joined(s0, s, s', t, pc, After(s, pc));
  }

  lemma AdvanceSeal(s0: State, s: State, t: nat, i: nat) returns (s': State)
    requires t in s0.threads && s0.threads[t].todo != []
    requires Reachable(s) && |s.slots| == SLOTS && MovedTo(s0, s, t, Written(i))
    ensures Reachable(s') && MovedTo(s0, s', t, Released) && s'.semEmpty == s.semEmpty && s'.depositOwner == None
  {
    s' := Advance(s, t);
    Joined(s0, s, s', t, Written(i), Released);
  }

  lemma Joined(s: State, a: State, b: State, t: nat, pc: Pc, pc': Pc)
    requires t in s.threads && MovedTo(s, a, t, pc) && MovedTo(a, b, t, pc')
    ensures MovedTo(s, b, t, pc')
  {
  }

  lemma FirstHalf(s: State, t: nat) returns (s': State)
    requires Idle(s) && t in s.threads && s.threads[t].todo != [] && s.semEmpty > 0 && Shape(s)
    ensures Reachable(s') && MovedTo(s, s', t, WriteText(s.rear)) && s'.semEmpty == s.semEmpty - 1
  {
    var a := Advance(s, t);
    var b := Advance(a, t);
    Joined(s, a, b, t, HasToken, Locked);
    assert b.rear == s.rear;
    s' := Advance(b, t);
    Joined(s, b, s', t, Locked, WriteText(s.rear));
  }

  lemma SecondHalf(s0: State, s: State, t: nat) returns (s': State)
    requires t in s0.threads && s0.threads[t].todo != [] && s0.rear < SLOTS
    requires Reachable(s) && MovedTo(s0, s, t, WriteText(s0.rear)) && s.semEmpty == s0.semEmpty - 1
    ensures Reachable(s') && Deposited(s0, s', t)
  {
    s' := FirstWrites(s0, s, t);
    s' := LastWrite(s0, s', t);
    s' := Post(s0, s', t);
  }

  lemma FirstWrites(s0: State, s: State, t: nat) returns (s': State)
    requires t in s0.threads && s0.threads[t].todo != [] && s0.rear < SLOTS
    requires Reachable(s) && MovedTo(s0, s, t, WriteText(s0.rear))
    ensures Reachable(s') && MovedTo(s0, s', t, WriteLevel(s0.rear)) && s'.semEmpty == s.semEmpty
  {
    s' := AdvanceWrite(s0, s, t, WriteText(s0.rear));
    s' := AdvanceWrite(s0, s', t, WriteTime(s0.rear));
  }

  lemma LastWrite(s0: State, s: State, t: nat) returns (s': State)
    requires t in s0.threads && s0.threads[t].todo != [] && s0.rear < SLOTS
    requires Reachable(s) && MovedTo(s0, s, t, WriteLevel(s0.rear))
    ensures Reachable(s') && MovedTo(s0, s', t, Released) && s'.semEmpty == s.semEmpty && s'.depositOwner == None
  {
    s' := AdvanceWrite(s0, s, t, WriteLevel(s0.rear));
    s' := AdvanceSeal(s0, s', t, s0.rear);
  }

  lemma Post(s0: State, s: State, t: nat) returns (s': State)
    requires t in s0.threads && s0.threads[t].todo != []
    requires Reachable(s) && MovedTo(s0, s, t, Released) && s.depositOwner == None && s.semEmpty == s0.semEmpty - 1
    ensures Reachable(s') && Deposited(s0, s', t)
  {
    s' := Produce(s, t).value;
    Follow(s, t);
    assert s'.threads == s0.threads[t := Thread(Ready, s0.threads[t].todo[1..])];
  }

  /** A thread that can deposit while the worker keeps a message of its own. */
  lemma Pick(s: State, n: nat) returns (t: nat)
    requires Idle(s) && Below(s.threads, n) && Sum(s.threads, Owed, n) >= 2
    ensures t in s.threads && s.threads[t].todo != []
    ensures t == WORKER ==> |s.threads[t].todo| >= 2
  {
    if t' :| t' in s.threads && t' != WORKER && s.threads[t'].todo != [] {
      t := t';
    } else {
      t := WORKER;
      SumOfOne(s.threads, Owed, n, WORKER);
    }
  }

  lemma IdleCounts(s: State)
    requires Idle(s)
    ensures Shape(s) && s.semEmpty + s.semFull == SLOTS && |s.deposited| == s.semFull
  {
    ReachableInv(s);
    CountZero(s.threads, 1);
    CountZero(s.threads, 3);
  }

  lemma {:induction false} FillUp(s: State, n: nat) returns (s': State)
    requires Idle(s) && Accounted(s, n) && Scripted(s.script, n) > SLOTS
    ensures Reachable(s') && s'.script == s.script && StartupDeadlock(s')
    decreases s.semEmpty
  {
    IdleCounts(s);
    if s.semEmpty == 0 {
      s' := s;
    } else {
      var t := Pick(s, n);
      var next := WholeDeposit(s, t);
      IdleCounts(next);
      SumMove(s.threads, Owed, n, t, next.threads[t]);
      s' := FillUp(next, n);
    }
  }

  /** The start-up deadlock can be reached exactly when the worker logs on starting and the threads
      have, together with it, more than 32 messages to log. */
  lemma DeadlockExactly(s: State, n: nat)
    requires Init(s) && Below(s.threads, n)
    ensures (exists s' :: Reachable(s') && s'.script == s.script && StartupDeadlock(s')) <==>
            Scripted(s.script, n) > 32 && s.script[WORKER] != []
  {
    if Scripted(s.script, n) > 32 && s.script[WORKER] != [] {
      assert Run([s]) && [s][|[s]| - 1] == s;
      InitAccounted(s, n);
      var s' := FillUp(s, n);
    }
    forall s' | Reachable(s') && s'.script == s.script && StartupDeadlock(s')
      ensures Scripted(s.script, n) > 32 && s.script[WORKER] != []
    {
      ReachableInv(s');
      forall t | t in s'.threads ensures t < n {
        assert t in s'.script;
      }
      DeadlockNeeds(s', n);
    }
  }

  /** A run that cannot be prolonged has delivered every message to every log that wants it,
      unless the worker logs on starting and there are more than 32 messages. */
  lemma MaximalRunsDeliver(run: seq<State>, n: nat)
    requires Run(run) && Below(run[0].threads, n) && Stuck(run[|run| - 1])
    requires Scripted(run[0].script, n) <= 32 || run[0].script[WORKER] == []
    ensures var last := run[|run| - 1];
            && Quiet(last) && last.fetched == Messages(last.deposited)
            && (forall t | t in last.script :: OfThread(last.deposited, t) == last.script[t])
            && |last.outputs| == |last.logs|
            && (forall j | 0 <= j < |last.logs| :: last.outputs[j] == Passed(Messages(last.deposited), last.logs[j]))
  {
    var last := run[|run| - 1];
    assert Reachable(last);
    StuckExactly(last);
    if StartupDeadlock(last) {
      SameScript(run);
      DeadlockExactly(run[0], n);
    }
    QuietIsComplete(last);
  }
}
