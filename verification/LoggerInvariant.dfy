/** What every step of the logger keeps. */
module LoggerInvariant {
  import opened Basics
  import opened LoggerModel

  ghost predicate Shape(s: State) {
    && |s.slots| == SLOTS
    && s.rear == |s.deposited| % SLOTS
    && s.front == s.taken % SLOTS
    && |s.outputs| == |s.logs|
    && WORKER in s.threads
    && s.threads.Keys == s.script.Keys
  }

  /** Both mutexes: the deposit is held by exactly the thread inside it, the fetch by the worker. */
  ghost predicate Mutexes(s: State) {
    && (s.depositOwner.Some? ==>
          s.depositOwner.value in s.threads && InDeposit(s.threads[s.depositOwner.value].pc))
    && (forall t | t in s.threads && InDeposit(s.threads[t].pc) :: s.depositOwner == Some(t))
    && (s.fetchHeld <==> s.worker.Take? || Reading(s))
  }

  /** Tokens are conserved, and full tokens plus posts still owed are the complete deposits that
      the worker has not claimed. */
  ghost predicate Tokens(s: State) {
    && s.semEmpty + s.semFull + Count(s.threads, 1) + (if Writing(s) then 1 else 0) + Count(s.threads, 3)
       + (if Fetching(s) then 1 else 0) == SLOTS
    && Complete(s) - s.taken ==
       s.semFull + Count(s.threads, 3) + (if s.worker.LockFetch? || s.worker.Take? then 1 else 0)
  }

  /** Threads: a thread inside the deposit has a message; the worker's own deposit comes first. */
  ghost predicate Threads(s: State)
    requires WORKER in s.threads
  {
    && (forall t | t in s.threads && s.threads[t].pc != Ready :: s.threads[t].todo != [])
    && (s.worker.Starting? ==> s.taken == 0)
    && (!s.worker.Starting? ==> s.threads[WORKER] == Thread(Ready, []))
  }

  /** Entries lo up to hi are in the ring. */
  ghost predicate Holds(slots: seq<Message>, entries: seq<Entry>, lo: int, hi: int)
    requires |slots| == SLOTS && 0 <= lo && hi <= |entries|
  {
    forall i | lo <= i < hi :: slots[i % SLOTS] == entries[i].message
  }

  /** Every message still needed is in its slot, complete. */
  ghost predicate Contents(s: State)
    requires |s.slots| == SLOTS
  {
    0 <= Base(s) && Holds(s.slots, s.deposited, Base(s), Complete(s))
  }

  /** The slot being written is the one claimed last, and the fields written so far are right. */
  ghost predicate Slot(s: State, t: nat, i: nat)
    requires |s.slots| == SLOTS && t in s.threads
  {
    && s.deposited != [] && s.threads[t].todo != []
    && i == (|s.deposited| - 1) % SLOTS
    && s.deposited[|s.deposited| - 1] == Entry(t, s.threads[t].todo[0])
  }

  ghost predicate StoresOf(s: State, t: nat)
    requires |s.slots| == SLOTS && t in s.threads && Phase(s.threads[t].pc) == 2
  {
    var pc, i := s.threads[t].pc, s.threads[t].pc.slot;
    && Slot(s, t, i)
    && (!pc.WriteText? ==> s.slots[i].text == s.threads[t].todo[0].text)
    && (pc.WriteLevel? || pc.Written? ==> s.slots[i].time == s.threads[t].todo[0].time)
    && (pc.Written? ==> s.slots[i].level == s.threads[t].todo[0].level)
  }

  ghost predicate Stores(s: State)
    requires |s.slots| == SLOTS
  {
    forall t | t in s.threads && Phase(s.threads[t].pc) == 2 :: StoresOf(s, t)
  }

  /** The worker reads the slot it claimed last, and has formatted every earlier message. */
  ghost predicate Fetches(s: State) {
    && s.taken <= |s.deposited|
    && (Reading(s) ==> s.taken > 0)
    && |s.fetched| == s.taken - (if s.worker.Format? then 1 else 0)
    && (forall i | 0 <= i < |s.fetched| :: s.fetched[i] == s.deposited[i].message)
    && (Reading(s) ==> s.worker.slot == (s.taken - 1) % SLOTS)
    && (s.worker.Handle? ==> s.worker.buf == s.deposited[s.taken - 1].message && s.worker.next <= |s.logs|)
  }

  /** Each log holds what its level lets through of the messages handled so far. */
  ghost predicate Outputs(s: State)
    requires |s.outputs| == |s.logs|
  {
    forall j | 0 <= j < |s.logs| ::
      0 <= Handled(s, j) <= |s.fetched| && s.outputs[j] == Passed(s.fetched[..Handled(s, j)], s.logs[j])
  }

  /** Each thread's deposits, followed by what it has left, are its script. */
  ghost predicate Order(s: State)
    requires s.threads.Keys == s.script.Keys
  {
    forall t | t in s.threads :: OfThread(s.deposited, t) + Remaining(s.threads[t]) == s.script[t]
  }

  ghost predicate Inv(s: State) {
    Shape(s) && Mutexes(s) && Tokens(s) && Threads(s) && Contents(s) && Stores(s) && Fetches(s) && Outputs(s) && Order(s)
  }

  // ------------------------------------------------------------ counting

  lemma CountMove(threads: map<nat, Thread>, t: nat, th: Thread, phase: nat)
    requires t in threads
    ensures Count(threads[t := th], phase) ==
            Count(threads, phase) - (if Phase(threads[t].pc) == phase then 1 else 0)
            + (if Phase(th.pc) == phase then 1 else 0)
  {
    var others := Phased(threads, phase) - {t};
    assert Phased(threads, phase) == if Phase(threads[t].pc) == phase then others + {t} else others;
    assert Phased(threads[t := th], phase) == if Phase(th.pc) == phase then others + {t} else others;
  }

  lemma CountPositive(threads: map<nat, Thread>, t: nat)
    requires t in threads
    ensures Count(threads, Phase(threads[t].pc)) >= 1
  {
    assert t in Phased(threads, Phase(threads[t].pc));
  }

  lemma CountZero(threads: map<nat, Thread>, phase: nat)
    requires forall t | t in threads :: Phase(threads[t].pc) != phase
    ensures Count(threads, phase) == 0
  {
  }

  lemma InitInv(s: State)
    requires Init(s)
    ensures Inv(s)
  {
  }

  lemma SlotsDiffer(i: int, j: int)
    requires 0 <= i < j < i + SLOTS
    ensures i % SLOTS != j % SLOTS
  {
  }

  // ------------------------------------------------------------ the deposit

  lemma ProduceKeepsKeys(s: State, t: nat)
    requires Shape(s) && Produce(s, t).Some?
    ensures Produce(s, t).value.threads.Keys == s.threads.Keys && Produce(s, t).value.script == s.script
  {
    assert t in s.threads;
  }

  lemma ProduceKeepsIndices(s: State, t: nat)
    requires Shape(s) && Produce(s, t).Some?
    ensures var s' := Produce(s, t).value;
            && |s'.slots| == SLOTS && s'.rear == |s'.deposited| % SLOTS && s'.front == s'.taken % SLOTS
            && |s'.outputs| == |s'.logs|
  {
  }

  lemma ProduceKeepsShape(s: State, t: nat)
    requires Shape(s) && Produce(s, t).Some?
    ensures Shape(Produce(s, t).value)
  {
    ProduceKeepsKeys(s, t);
    ProduceKeepsIndices(s, t);
    assert WORKER in s.threads.Keys;
  }

  /** A deposit step leaves the worker's side alone, moves one thread and only appends to the history. */
  ghost predicate DepositFrame(s: State, s': State, t: nat) {
    && t in s.threads && t in s'.threads && s'.threads == s.threads[t := s'.threads[t]]
    && s'.worker == s.worker && s'.logs == s.logs && s'.outputs == s.outputs && s'.script == s.script
    && s'.taken == s.taken && s'.fetched == s.fetched
    && s.deposited <= s'.deposited
  }

  lemma ProduceFrame(s: State, t: nat)
    requires Shape(s) && Produce(s, t).Some?
    ensures DepositFrame(s, Produce(s, t).value, t)
  {
  }

  /** Who holds the deposit mutex after a step of t. */
  lemma OwnerStep(s: State, t: nat)
    requires Shape(s) && Produce(s, t).Some?
    ensures var s', pc := Produce(s, t).value, s.threads[t].pc;
            && t in s'.threads && s'.fetchHeld == s.fetchHeld
            && InDeposit(s'.threads[t].pc) == ((InDeposit(pc) && !pc.Written?) || pc == HasToken)
            && (pc == HasToken ==> s.depositOwner == None)
            && s'.depositOwner == if pc == HasToken then Some(t) else if pc.Written? then None else s.depositOwner
  {
  }

  lemma MutexesFrame(s: State, s': State, t: nat)
    requires Shape(s) && Mutexes(s) && DepositFrame(s, s', t) && s'.fetchHeld == s.fetchHeld
    requires var pc := s.threads[t].pc;
             && InDeposit(s'.threads[t].pc) == ((InDeposit(pc) && !pc.Written?) || pc == HasToken)
             && (pc == HasToken ==> s.depositOwner == None)
             && s'.depositOwner == if pc == HasToken then Some(t) else if pc.Written? then None else s.depositOwner
    ensures Mutexes(s')
  {
  }

  lemma ProduceKeepsMutexes(s: State, t: nat)
    requires Shape(s) && Mutexes(s) && Produce(s, t).Some?
    ensures Mutexes(Produce(s, t).value)
  {
    ProduceFrame(s, t);
    OwnerStep(s, t);
    MutexesFrame(s, Produce(s, t).value, t);
  }

  /** What a step of t does to the tokens, by where t stands. */
  ghost predicate TokenStep(s: State, s': State, t: nat)
    requires t in s.threads && t in s'.threads
  {
    var pc, pc' := s.threads[t].pc, s'.threads[t].pc;
    && Phase(pc') ==
       (match pc case HasToken => 1 case Locked => 2 case Written(_) => 3 case Ready => 1 case Released => 0 case _ => 2)
    && s'.semEmpty == s.semEmpty - (if pc == Ready then 1 else 0)
    && s'.semFull == s.semFull + (if pc == Released then 1 else 0)
    && |s'.deposited| == |s.deposited| + (if pc == Locked then 1 else 0)
    && Writing(s') == (if pc.Written? then false else if pc == Locked then true else Writing(s))
    && (pc == Locked ==> !Writing(s)) && (pc.Written? ==> Writing(s))
  }

  lemma ProduceTokens(s: State, t: nat)
    requires Shape(s) && Mutexes(s) && Produce(s, t).Some?
    ensures t in Produce(s, t).value.threads && TokenStep(s, Produce(s, t).value, t)
  {
  }

  lemma TokensFrame(s: State, s': State, t: nat)
    requires Tokens(s) && DepositFrame(s, s', t) && TokenStep(s, s', t)
    ensures Tokens(s')
  {
    CountMove(s.threads, t, s'.threads[t], 1);
    CountMove(s.threads, t, s'.threads[t], 3);
  }

  lemma ProduceKeepsTokens(s: State, t: nat)
    requires Shape(s) && Mutexes(s) && Tokens(s) && Produce(s, t).Some?
    ensures Tokens(Produce(s, t).value)
  {
    ProduceFrame(s, t);
    ProduceTokens(s, t);
    TokensFrame(s, Produce(s, t).value, t);
  }

  lemma ProduceKeepsThreads(s: State, t: nat)
    requires Shape(s) && Threads(s) && Produce(s, t).Some?
    ensures Threads(Produce(s, t).value)
  {
  }

  lemma FetchesFrame(s: State, s': State, t: nat)
    requires DepositFrame(s, s', t) && Fetches(s)
    ensures Fetches(s')
  {
  }

  lemma OutputsFrame(s: State, s': State, t: nat)
    requires DepositFrame(s, s', t) && |s.outputs| == |s.logs| && Outputs(s)
    ensures Outputs(s')
  {
    forall j | 0 <= j < |s'.logs|
      ensures 0 <= Handled(s', j) <= |s'.fetched| && s'.outputs[j] == Passed(s'.fetched[..Handled(s', j)], s'.logs[j])
    {
      assert Handled(s', j) == Handled(s, j) && 0 <= Handled(s, j) <= |s.fetched|;
    }
  }

  lemma OfThreadSnoc(entries: seq<Entry>, e: Entry, t: nat)
    ensures OfThread(entries + [e], t) == OfThread(entries, t) + if e.thread == t then [e.message] else []
  {
  }

  /** Claiming a slot moves the message from what t has left to what it has deposited. */
  lemma ClaimKeepsOrder(s: State, t: nat, u: nat)
    requires t in s.threads && s.threads[t].pc == Locked && s.threads[t].todo != [] && u in s.threads
    ensures var m := s.threads[t].todo[0];
            var th := if u == t then s.threads[t].(pc := WriteText(s.rear)) else s.threads[u];
            OfThread(s.deposited + [Entry(t, m)], u) + Remaining(th) == OfThread(s.deposited, u) + Remaining(s.threads[u])
  {
    var todo := s.threads[t].todo;
    OfThreadSnoc(s.deposited, Entry(t, todo[0]), u);
    assert todo == [todo[0]] + todo[1..];
    if u == t {
      assert OfThread(s.deposited, u) + [todo[0]] + todo[1..] == OfThread(s.deposited, u) + ([todo[0]] + todo[1..]);
    }
  }

  /** Any other deposit step changes neither. */
  lemma OrderFrame(s: State, s': State, t: nat)
    requires DepositFrame(s, s', t) && s.threads.Keys == s.script.Keys && Order(s)
    requires s'.deposited == s.deposited && Remaining(s'.threads[t]) == Remaining(s.threads[t])
    ensures s'.threads.Keys == s'.script.Keys && Order(s')
  {
  }

  /** What the claim of t changes, as far as the order is concerned. */
  ghost predicate Claims(s: State, s': State, t: nat) {
    && t in s.threads && s.threads[t].pc == Locked && s.threads[t].todo != []
    && s'.threads == s.threads[t := s.threads[t].(pc := WriteText(s.rear))]
    && s'.deposited == s.deposited + [Entry(t, s.threads[t].todo[0])] && s'.script == s.script
  }

  lemma ClaimedOrder(s: State, s': State, t: nat)
    requires s.threads.Keys == s.script.Keys && Order(s) && Claims(s, s', t)
    ensures s'.threads.Keys == s'.script.Keys && Order(s')
  {
    forall u | u in s'.threads ensures OfThread(s'.deposited, u) + Remaining(s'.threads[u]) == s'.script[u] {
      assert OfThread(s.deposited, u) + Remaining(s.threads[u]) == s.script[u];
      ClaimKeepsOrder(s, t, u);
    }
  }

  lemma ProduceClaims(s: State, t: nat)
    requires Produce(s, t).Some?
    ensures t in s.threads
    ensures s.threads[t].pc == Locked ==> Claims(s, Produce(s, t).value, t)
    ensures s.threads[t].pc != Locked ==>
              var s' := Produce(s, t).value;
              s'.deposited == s.deposited && t in s'.threads && Remaining(s'.threads[t]) == Remaining(s.threads[t])
  {
  }

  lemma ProduceKeepsOrder(s: State, t: nat)
    requires Shape(s) && Order(s) && Produce(s, t).Some?
    ensures Shape(Produce(s, t).value) && Order(Produce(s, t).value)
  {
    ProduceKeepsShape(s, t);
    ProduceFrame(s, t);
    ProduceClaims(s, t);
    if s.threads[t].pc == Locked {
      ClaimedOrder(s, Produce(s, t).value, t);
    } else {
      OrderFrame(s, Produce(s, t).value, t);
    }
  }

  /** While t holds a token or writes, fewer than SLOTS messages are needed in the ring. */
  lemma RoomForOne(s: State, t: nat)
    requires Shape(s) && Mutexes(s) && Tokens(s) && t in s.threads
    requires s.threads[t].pc == Locked || Phase(s.threads[t].pc) == 2
    ensures Complete(s) - Base(s) < SLOTS
    ensures Writing(s) <==> s.threads[t].pc != Locked
  {
    if s.threads[t].pc == Locked {
      CountPositive(s.threads, t);
    }
  }

  /** The three writes of a deposit. */
  predicate IsWrite(pc: Pc) {
    pc.WriteText? || pc.WriteTime? || pc.WriteLevel?
  }

  lemma WriteStep(s: State, t: nat)
    requires Shape(s) && Produce(s, t).Some? && IsWrite(s.threads[t].pc)
    ensures var s', i := Produce(s, t).value, s.threads[t].pc.slot;
            && i < SLOTS && s'.slots == s.slots[i := s'.slots[i]] && s'.deposited == s.deposited
            && Phase(s'.threads[t].pc) == 2 && s'.depositOwner == s.depositOwner
  {
  }

  lemma OtherStep(s: State, t: nat)
    requires Shape(s) && Mutexes(s) && Produce(s, t).Some?
    requires !IsWrite(s.threads[t].pc) && s.threads[t].pc != Locked && !s.threads[t].pc.Written?
    ensures var s' := Produce(s, t).value;
            s'.slots == s.slots && s'.deposited == s.deposited && Writing(s') == Writing(s)
  {
  }

  lemma StoresSelf(s: State, t: nat)
    requires Shape(s) && Stores(s) && Produce(s, t).Some?
    requires s.threads[t].pc == Locked || IsWrite(s.threads[t].pc)
    ensures Shape(Produce(s, t).value) && t in Produce(s, t).value.threads
    ensures Phase(Produce(s, t).value.threads[t].pc) == 2 && StoresOf(Produce(s, t).value, t)
  {
    ProduceKeepsShape(s, t);
    if s.threads[t].pc != Locked {
      assert StoresOf(s, t);
    }
  }

  lemma ProduceKeepsStores(s: State, t: nat)
    requires Shape(s) && Mutexes(s) && Stores(s) && Produce(s, t).Some?
    ensures Shape(Produce(s, t).value) && Stores(Produce(s, t).value)
  {
    ProduceKeepsShape(s, t);
    ProduceFrame(s, t);
    var s' := Produce(s, t).value;
    var pc := s.threads[t].pc;
    if pc == Locked || IsWrite(pc) {
      StoresSelf(s, t);
      assert forall u | u in s.threads && u != t :: Phase(s.threads[u].pc) != 2;
    } else if pc.Written? {
      assert forall u | u in s.threads && u != t :: Phase(s.threads[u].pc) != 2;
    } else {
      OtherStep(s, t);
      forall u | u in s'.threads && Phase(s'.threads[u].pc) == 2 ensures StoresOf(s', u) {
        assert u != t && StoresOf(s, u);
      }
    }
  }

  /** Writing the claimed slot touches no message still needed. */
  lemma WriteKeepsContents(s: State, t: nat, m: Message)
    requires Shape(s) && Mutexes(s) && Tokens(s) && Contents(s) && Stores(s)
    requires t in s.threads && Phase(s.threads[t].pc) == 2
    ensures s.threads[t].pc.slot < SLOTS
    ensures Holds(s.slots[s.threads[t].pc.slot := m], s.deposited, Base(s), Complete(s))
  {
    RoomForOne(s, t);
    assert StoresOf(s, t);
    forall i | Base(s) <= i < Complete(s)
      ensures s.slots[s.threads[t].pc.slot := m][i % SLOTS] == s.deposited[i].message
    {
      SlotsDiffer(i, |s.deposited| - 1);
    }
  }

  /** Leaving the mutex completes the message in the slot. */
  lemma SealKeepsContents(s: State, t: nat)
    requires Shape(s) && Mutexes(s) && Tokens(s) && Contents(s) && Stores(s)
    requires t in s.threads && s.threads[t].pc.Written?
    ensures Complete(s) == |s.deposited| - 1 && Holds(s.slots, s.deposited, Base(s), |s.deposited|)
  {
  }

  lemma ProduceKeepsContents(s: State, t: nat)
    requires Shape(s) && Mutexes(s) && Tokens(s) && Contents(s) && Stores(s) && Produce(s, t).Some?
    ensures Shape(Produce(s, t).value) && Contents(Produce(s, t).value)
  {
    ProduceKeepsShape(s, t);
    ProduceFrame(s, t);
    var s' := Produce(s, t).value;
    assert Base(s') == Base(s);
    var pc := s.threads[t].pc;
    if IsWrite(pc) {
      WriteStep(s, t);
      WriteKeepsContents(s, t, s'.slots[pc.slot]);
      RoomForOne(s, t);
      assert Writing(s) && Writing(s');
    } else if pc.Written? {
      SealKeepsContents(s, t);
    } else if pc == Locked {
      RoomForOne(s, t);
    } else {
      OtherStep(s, t);
    }
  }

  lemma ProduceKeeps(s: State, t: nat)
    requires Inv(s) && Produce(s, t).Some?
    ensures Inv(Produce(s, t).value)
  {
    ProduceKeepsShape(s, t);
    ProduceKeepsMutexes(s, t);
    ProduceKeepsTokens(s, t);
    ProduceKeepsThreads(s, t);
    ProduceFrame(s, t);
    FetchesFrame(s, Produce(s, t).value, t);
    OutputsFrame(s, Produce(s, t).value, t);
    ProduceKeepsOrder(s, t);
    ProduceKeepsStores(s, t);
    ProduceKeepsContents(s, t);
  }

  // ------------------------------------------------------------ the fetch

  lemma WorkKeepsShape(s: State)
    requires Shape(s) && Work(s).Some?
    ensures Shape(Work(s).value)
  {
  }

  lemma WorkKeepsMutexes(s: State)
    requires Shape(s) && Mutexes(s) && Work(s).Some?
    ensures Mutexes(Work(s).value)
  {
  }

  /** A worker step leaves the depositing side alone. */
  ghost predicate FetchFrame(s: State, s': State) {
    && s'.slots == s.slots && s'.threads == s.threads && s'.depositOwner == s.depositOwner
    && s'.deposited == s.deposited && s'.script == s.script && s'.logs == s.logs
  }

  lemma WorkFrame(s: State)
    requires Work(s).Some?
    ensures FetchFrame(s, Work(s).value)
  {
  }

  lemma WorkKeepsThreads(s: State)
    requires Shape(s) && Threads(s) && Work(s).Some?
    ensures Threads(Work(s).value)
  {
    WorkFrame(s);
  }

  lemma WorkKeepsTokens(s: State)
    requires Shape(s) && Mutexes(s) && Tokens(s) && Threads(s) && Work(s).Some?
    ensures Tokens(Work(s).value)
  {
  }

  lemma StoresFrame(s: State, s': State)
    requires FetchFrame(s, s') && |s.slots| == SLOTS && s.threads.Keys == s.script.Keys
    requires Stores(s) && Order(s)
    ensures Stores(s') && Order(s')
  {
  }

  lemma WorkKeepsContents(s: State)
    requires Shape(s) && Contents(s) && Work(s).Some?
    ensures Shape(Work(s).value) && Contents(Work(s).value)
  {
    WorkKeepsShape(s);
    var s' := Work(s).value;
    assert Base(s) <= Base(s') && Complete(s) == Complete(s');
  }

  lemma WorkKeepsFetches(s: State)
    requires Shape(s) && Tokens(s) && Contents(s) && Fetches(s) && Work(s).Some?
    ensures Fetches(Work(s).value)
  {
    if s.worker.Format? {
      assert s.taken - 1 < Complete(s);
    }
  }

  /** Calling handler k appends the message exactly when the log's level lets it through. */
  lemma HandleKeepsOutputs(s: State)
    requires Shape(s) && Tokens(s) && Contents(s) && Fetches(s) && Outputs(s)
    requires s.worker.Handle? && s.worker.next < |s.logs| && s.worker.slot < SLOTS
    ensures var k, n := s.worker.next, |s.fetched|;
            && n > 0 && s.slots[s.worker.slot] == s.worker.buf == s.fetched[n - 1]
            && Passed(s.fetched, s.logs[k]) ==
               if s.worker.buf.level <= s.logs[k] then s.outputs[k] + [s.worker.buf] else s.outputs[k]
  {
  }

  lemma OutputsSame(s: State, s': State)
    requires |s.outputs| == |s.logs| && Outputs(s)
    requires s'.outputs == s.outputs && s'.logs == s.logs && s.fetched <= s'.fetched
    requires forall j | 0 <= j < |s.logs| :: Handled(s', j) == Handled(s, j)
    ensures Outputs(s')
  {
    forall j | 0 <= j < |s'.logs|
      ensures 0 <= Handled(s', j) <= |s'.fetched| && s'.outputs[j] == Passed(s'.fetched[..Handled(s', j)], s'.logs[j])
    {
      assert s'.fetched[..Handled(s, j)] == s.fetched[..Handled(s, j)];
    }
  }

  lemma WorkKeepsOutputs(s: State)
    requires Shape(s) && Tokens(s) && Contents(s) && Fetches(s) && Outputs(s) && Work(s).Some?
    ensures Shape(Work(s).value) && Outputs(Work(s).value)
  {
    WorkKeepsShape(s);
    var s' := Work(s).value;
    if s.worker.Handle? && s.worker.next < |s.logs| {
      HandleKeepsOutputs(s);
      var k, n := s.worker.next, |s.fetched|;
      assert s'.fetched[..n] == s.fetched;
      forall j | 0 <= j < |s'.logs|
        ensures 0 <= Handled(s', j) <= |s'.fetched| && s'.outputs[j] == Passed(s'.fetched[..Handled(s', j)], s'.logs[j])
      {
        assert s.outputs[j] == Passed(s.fetched[..Handled(s, j)], s.logs[j]);
        assert j != k ==> s'.outputs[j] == s.outputs[j] && Handled(s', j) == Handled(s, j);
      }
    } else {
      OutputsSame(s, s');
    }
  }

  lemma WorkKeeps(s: State)
    requires Inv(s) && Work(s).Some?
    ensures Inv(Work(s).value)
  {
    WorkKeepsShape(s);
    WorkKeepsMutexes(s);
    WorkKeepsThreads(s);
    WorkKeepsTokens(s);
    WorkFrame(s);
    StoresFrame(s, Work(s).value);
    WorkKeepsContents(s);
    WorkKeepsFetches(s);
    WorkKeepsOutputs(s);
  }

  // ------------------------------------------------------------ every run

  lemma {:induction false} RunInv(run: seq<State>)
    requires Run(run)
    ensures Inv(run[|run| - 1])
    decreases |run|
  {
    if |run| == 1 {
      InitInv(run[0]);
    } else {
      var before := run[..|run| - 1];
      var k := |run| - 2;
      assert Next(run[k], run[k + 1]);
      forall i {:trigger before[i + 1]} | 0 <= i < |before| - 1 ensures Next(before[i], before[i + 1]) {
        assert before[i] == run[i] && before[i + 1] == run[i + 1];
      }
      RunInv(before);
      var s := run[k];
      if Work(s) == Some(run[k + 1]) {
        WorkKeeps(s);
      } else {
        var t :| Produce(s, t) == Some(run[k + 1]);
        ProduceKeeps(s, t);
      }
    }
  }
}
