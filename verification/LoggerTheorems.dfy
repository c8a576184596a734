/** What holds in every reachable state and over every run of the logger. */
module LoggerTheorems {
  import opened Basics
  import opened LoggerModel
  import opened LoggerInvariant

  lemma ReachableInv(s: State)
    requires Reachable(s)
    ensures Inv(s)
  {
    var run :| Run(run) && run[|run| - 1] == s;
    RunInv(run);
  }

  lemma InitReachable(s: State)
    requires Init(s)
    ensures Reachable(s)
  {
    assert Run([s]) && [s][|[s]| - 1] == s;
  }

  lemma ReachableStep(s: State, s': State)
    requires Reachable(s) && Next(s, s')
    ensures Reachable(s')
  {
    var run :| Run(run) && run[|run| - 1] == s;
    var longer := run + [s'];
    forall i {:trigger longer[i + 1]} | 0 <= i < |longer| - 1 ensures Next(longer[i], longer[i + 1]) {
      if i < |run| - 1 {
        assert longer[i + 1] == run[i + 1];
      }
    }
    assert Run(longer);
  }

  lemma Produced(s: State, t: nat, s': State)
    requires Reachable(s) && Produce(s, t) == Some(s')
    ensures Reachable(s')
  {
    ReachableStep(s, s');
  }

  lemma Worked(s: State, s': State)
    requires Reachable(s) && Work(s) == Some(s')
    ensures Reachable(s')
  {
    ReachableStep(s, s');
  }

  lemma PostIsStep(s: State, t: nat)
    requires Reachable(s) && t in s.threads && s.threads[t].pc == Released && s.threads[t].todo != []
    ensures Reachable(s.(threads := s.threads[t := Thread(Ready, s.threads[t].todo[1..])], semFull := s.semFull + 1))
    ensures Produce(s, t) ==
            Some(s.(threads := s.threads[t := Thread(Ready, s.threads[t].todo[1..])], semFull := s.semFull + 1))
  {
    Dimensions(s);
    Produced(s, t, s.(threads := s.threads[t := Thread(Ready, s.threads[t].todo[1..])], semFull := s.semFull + 1));
  }

  /** What the shared memory looks like in every reachable state. */
  lemma Dimensions(s: State)
    requires Reachable(s)
    ensures |s.slots| == SLOTS && s.front < SLOTS && s.rear < SLOTS && |s.outputs| == |s.logs| && WORKER in s.threads
    ensures s.worker.Take? || Reading(s) <==> s.fetchHeld
    ensures Reading(s) ==> s.worker.slot < SLOTS
  {
    ReachableInv(s);
  }

  // ------------------------------------------------------------ tokens

  lemma PhasesUnion(s: State)
    ensures InFlight(s) == Phased(s.threads, 1) + Phased(s.threads, 2) + Phased(s.threads, 3)
  {
  }

  lemma InFlightCount(s: State)
    requires Shape(s) && Mutexes(s)
    ensures |InFlight(s)| == Count(s.threads, 1) + (if Writing(s) then 1 else 0) + Count(s.threads, 3)
  {
    var one, two, three := Phased(s.threads, 1), Phased(s.threads, 2), Phased(s.threads, 3);
    if Writing(s) {
      assert two == {s.depositOwner.value};
    } else {
      assert two == {};
    }
    PhasesUnion(s);
  }

  /** The two semaphores, the threads between a wait and its post, and the worker between its wait
      and its post always account for exactly the 32 slots there are. */
  lemma TokensConserved(s: State)
    requires Reachable(s)
    ensures s.semEmpty + s.semFull + |InFlight(s)| + (if Fetching(s) then 1 else 0) == 32
  {
    ReachableInv(s);
    InFlightCount(s);
  }

  /** Thread t is the only one writing, no unfetched message lives in the slot, and the worker is not
      reading it. */
  ghost predicate Alone(s: State, t: nat, slot: nat) {
    && (forall u | u in s.threads && u != t :: Phase(s.threads[u].pc) != 2)
    && (forall i | s.taken <= i < |s.deposited| - 1 :: i % SLOTS != slot)
    && (Reading(s) ==> s.worker.slot != slot)
  }

  lemma AloneInSlot(s: State, t: nat)
    requires Inv(s) && t in s.threads && Phase(s.threads[t].pc) == 2
    ensures s.threads[t].pc.slot < SLOTS && Alone(s, t, s.threads[t].pc.slot)
  {
    OneWriter(s, t);
    SlotIsFree(s, t);
    assert StoresOf(s, t);
  }

  /** So it is with every thread that is writing. */
  lemma WriterIsAlone(s: State, t: nat)
    requires Reachable(s) && t in s.threads && Phase(s.threads[t].pc) == 2
    ensures s.threads[t].pc.slot < SLOTS && Alone(s, t, s.threads[t].pc.slot)
  {
    ReachableInv(s);
    AloneInSlot(s, t);
  }

  lemma OneWriter(s: State, t: nat)
    requires Mutexes(s) && t in s.threads && Phase(s.threads[t].pc) == 2
    ensures forall u | u in s.threads && u != t :: Phase(s.threads[u].pc) != 2
  {
  }

  lemma SlotIsFree(s: State, t: nat)
    requires Shape(s) && Mutexes(s) && Tokens(s) && Stores(s) && Fetches(s)
    requires t in s.threads && Phase(s.threads[t].pc) == 2
    ensures forall i | s.taken <= i < |s.deposited| - 1 :: i % SLOTS != s.threads[t].pc.slot
    ensures Reading(s) ==> s.worker.slot != s.threads[t].pc.slot
  {
    RoomForOne(s, t);
    assert StoresOf(s, t);
    forall i | Base(s) <= i < |s.deposited| - 1 ensures i % SLOTS != s.threads[t].pc.slot {
      SlotsDiffer(i, |s.deposited| - 1);
    }
  }

  // ------------------------------------------------------------ first in, first out

  function Messages(entries: seq<Entry>): seq<Message> {
    seq(|entries|, i requires 0 <= i < |entries| => entries[i].message)
  }

  /** An unbounded queue: what went in, and how much of it has come out. */
  datatype Fifo = Fifo(entered: seq<Entry>, left: seq<Message>)

  function Enter(q: Fifo, e: Entry): Fifo {
    q.(entered := q.entered + [e])
  }

  function Leave(q: Fifo): Fifo
    requires |q.left| < |q.entered|
  {
    q.(left := q.left + [q.entered[|q.left|].message])
  }

  function Queue(s: State): Fifo {
    Fifo(s.deposited, s.fetched)
  }

  lemma ProduceHistory(s: State, t: nat)
    requires Shape(s) && Produce(s, t).Some?
    ensures var s' := Produce(s, t).value;
            && s'.fetched == s.fetched
            && s'.deposited == if s.threads[t].pc == Locked then s.deposited + [Entry(t, s.threads[t].todo[0])]
                               else s.deposited
  {
  }

  lemma WorkHistory(s: State)
    requires Shape(s) && Work(s).Some?
    ensures var s' := Work(s).value;
            && s'.deposited == s.deposited
            && s'.fetched == if s.worker.Format? && s.worker.slot < SLOTS then s.fetched + [s.slots[s.worker.slot]]
                             else s.fetched
  {
  }

  /** What the worker formats is the oldest message it has not formatted, whole. */
  lemma FormatsTheOldest(s: State)
    requires Inv(s) && s.worker.Format?
    ensures s.worker.slot < SLOTS && |s.fetched| < |s.deposited|
    ensures s.slots[s.worker.slot] == s.deposited[|s.fetched|].message
  {
  }

  lemma OldestFormatted(s: State)
    requires Reachable(s) && s.worker.Format?
    ensures s.worker.slot < SLOTS && |s.fetched| < |s.deposited|
    ensures |s.slots| == SLOTS && s.slots[s.worker.slot] == s.deposited[|s.fetched|].message
  {
    ReachableInv(s);
    FormatsTheOldest(s);
  }

  /** The ring refines the unbounded queue: a thread enters its message when it claims a slot and at no
      other step, and the worker makes the oldest one still inside leave when it formats and at no
      other step. */
  lemma RingIsFifo(s: State, s': State)
    requires Reachable(s) && Next(s, s')
    ensures forall t | Produce(s, t) == Some(s') ::
              Queue(s') == if s.threads[t].pc == Locked then Enter(Queue(s), Entry(t, s.threads[t].todo[0])) else Queue(s)
    ensures Work(s) == Some(s') ==>
              if s.worker.Format? then |s.fetched| < |s.deposited| && Queue(s') == Leave(Queue(s)) else Queue(s') == Queue(s)
  {
    ReachableInv(s);
    if Work(s) == Some(s') {
      WorkHistory(s);
      if s.worker.Format? {
        FormatsTheOldest(s);
      }
    }
    forall t | Produce(s, t) == Some(s')
      ensures Queue(s') == if s.threads[t].pc == Locked then Enter(Queue(s), Entry(t, s.threads[t].todo[0])) else Queue(s)
    {
      ProduceHistory(s, t);
    }
  }

  /** The messages fetched are a prefix of the messages deposited, whole and in the order of the
      deposits, and the fetches are never more than 32 messages behind. */
  lemma FetchedIsPrefix(s: State)
    requires Reachable(s)
    ensures s.fetched <= Messages(s.deposited)
    ensures |s.deposited| - |s.fetched| <= 32
  {
    ReachableInv(s);
  }

  /** When a message is entered, at most 31 others are still to be fetched before it. */
  lemma FewBefore(s: State, t: nat)
    requires Reachable(s) && t in s.threads && s.threads[t].pc == Locked
    ensures |s.deposited| - |s.fetched| <= 31
  {
    ReachableInv(s);
    RoomForOne(s, t);
  }

  /** Every thread's messages are deposited in its own order, none twice and none skipped. */
  lemma DepositsFollowScripts(s: State, t: nat)
    requires Reachable(s) && t in s.threads
    ensures t in s.script && OfThread(s.deposited, t) <= s.script[t]
  {
    ReachableInv(s);
    assert OfThread(s.deposited, t) + Remaining(s.threads[t]) == s.script[t];
  }

  // ------------------------------------------------------------ deadlock

  ghost predicate Stuck(s: State) {
    Work(s) == None && forall t :: Produce(s, t) == None
  }

  /** The worker waits for a slot for its own start-up message, and nobody will ever free one. */
  predicate StartupDeadlock(s: State) {
    s.worker.Starting? && WORKER in s.threads && s.threads[WORKER].todo != [] && s.semFull == SLOTS
  }

  /** Every thread is done and the worker has nothing to fetch. */
  predicate Quiet(s: State) {
    s.worker.WaitFull? && s.semFull == 0 && forall t | t in s.threads :: s.threads[t].todo == []
  }

  lemma SomeThreadMoves(s: State, t: nat)
    requires Inv(s) && t in s.threads && s.threads[t].pc != Ready
    requires s.threads[t].pc != HasToken || s.depositOwner == None
    ensures Produce(s, t) != None
  {
  }

  /** In a stuck state every thread is at its wait for a slot and the worker is not fetching. */
  lemma StuckIsIdle(s: State)
    requires Inv(s) && Stuck(s)
    ensures forall t | t in s.threads :: s.threads[t].pc == Ready
    ensures s.semEmpty + s.semFull == SLOTS && !Fetching(s)
  {
    if s.depositOwner.Some? {
      SomeThreadMoves(s, s.depositOwner.value);
      assert false;
    }
    forall t | t in s.threads ensures s.threads[t].pc == Ready {
      if s.threads[t].pc != Ready {
        SomeThreadMoves(s, t);
      }
    }
    CountZero(s.threads, 1);
    CountZero(s.threads, 3);
  }

  /** A reachable state has no step left in exactly two cases: everything has been delivered, or
      the ring filled up before the worker could get a slot for its own start-up message. */
  lemma StuckExactly(s: State)
    requires Reachable(s)
    ensures Stuck(s) <==> StartupDeadlock(s) || Quiet(s)
  {
    ReachableInv(s);
    if Stuck(s) {
      StuckIsIdle(s);
      assert Produce(s, WORKER) == None;
      if s.worker.WaitFull? {
        forall t | t in s.threads ensures s.threads[t].todo == [] {
          assert Produce(s, t) == None;
        }
      }
    }
    if StartupDeadlock(s) {
      InFlightCount(s);
      assert |InFlight(s)| == 0;
      forall t ensures Produce(s, t) == None {
        assert t !in InFlight(s);
      }
    }
  }

  /** Once the worker is fetching, a thread with something left to log never leaves the system
      without a step. */
  lemma NoDeadlockOnceFetching(s: State, t: nat)
    requires Reachable(s) && !s.worker.Starting?
    requires t in s.threads && s.threads[t].todo != []
    ensures !Stuck(s)
  {
    StuckExactly(s);
  }

  /** In the good final state every message of every script has been fetched, in an order that
      merges the scripts, and each log holds exactly the messages its level lets through. */
  lemma QuietIsComplete(s: State)
    requires Reachable(s) && Quiet(s)
    ensures s.fetched == Messages(s.deposited)
    ensures forall t | t in s.script :: OfThread(s.deposited, t) == s.script[t]
    ensures |s.outputs| == |s.logs|
    ensures forall j | 0 <= j < |s.logs| :: s.outputs[j] == Passed(Messages(s.deposited), s.logs[j])
  {
    ReachableInv(s);
    forall t | t in s.threads ensures s.threads[t].pc == Ready {
    }
    CountZero(s.threads, 3);
    forall t | t in s.script ensures OfThread(s.deposited, t) == s.script[t] {
      assert OfThread(s.deposited, t) + Remaining(s.threads[t]) == s.script[t];
    }
    forall j | 0 <= j < |s.logs| ensures s.outputs[j] == Passed(s.fetched, s.logs[j]) {
      assert s.fetched[..Handled(s, j)] == s.fetched;
    }
  }

  /** A log's messages are those that pass, in the order in which they were logged: what passes of two parts
      is what passes of the first and then what passes of the second. */
  lemma {:induction false} PassedInOrder(a: seq<Message>, b: seq<Message>, level: nat)
    ensures Passed(a + b, level) == Passed(a, level) + Passed(b, level)
  {
    if b == [] {
      assert a + b == a;
    } else {
      PassedInOrder(a, b[..|b| - 1], level);
      assert (a + b)[..|a + b| - 1] == a + b[..|b| - 1];
    }
  }

  /** A log of a level holds a message as often as it was logged when the message's level is not above it,
      and never otherwise. */
  lemma {:induction false} PassedExactly(ms: seq<Message>, level: nat, m: Message)
    ensures multiset(Passed(ms, level))[m] == if m.level <= level then multiset(ms)[m] else 0
  {
    if ms != [] {
      var before, last := ms[..|ms| - 1], ms[|ms| - 1];
      PassedExactly(before, level, m);
      assert ms == before + [last];
    }
  }
}
