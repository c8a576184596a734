/** The asynchronous logger as a step system: any number of threads run fpx_log_error, one worker
    runs fpx_logger_worker, and every semaphore, mutex and shared-memory action is its own step. */
module LoggerModel {
  import opened Basics

  const SLOTS: nat := 32

  /** The thread id of the worker, which logs one message of its own before it starts fetching. */
  const WORKER: nat := 0

  /** The slot that follows, around the ring. */
  function NextSlot(slot: nat): nat {
    (slot + 1) % SLOTS
  }

  datatype Message = Message(level: nat, time: string, text: string)

  /** Where a thread stands in the deposit. The message being logged is todo[0]. The three fields
      of the slot are written one after the other, in the order text, time, level. */
  datatype Pc =
    | Ready
    | HasToken
    | Locked
    | WriteText(slot: nat)
    | WriteTime(slot: nat)
    | WriteLevel(slot: nat)
    | Written(slot: nat)
    | Released

  datatype Thread = Thread(pc: Pc, todo: seq<Message>)

  /** Where the worker stands. Handle(slot, buf, k): the message is formatted into buf and the
      first k handlers have been called; each call reads the level from the slot again. */
  datatype WorkerPc =
    | Starting
    | WaitFull
    | LockFetch
    | Take
    | Format(slot: nat)
    | Handle(slot: nat, buf: Message, next: nat)
    | Post

  datatype Entry = Entry(thread: nat, message: Message)

  /** The shared memory, the threads, and the history: what has been deposited in the order slots
      were claimed, how many slots the worker has claimed, and what it has formatted. */
  datatype State = State(
    slots: seq<Message>,
    front: nat,
    rear: nat,
    semEmpty: nat,
    semFull: nat,
    depositOwner: Option<nat>,
    fetchHeld: bool,
    threads: map<nat, Thread>,
    worker: WorkerPc,
    logs: seq<nat>,
    outputs: seq<seq<Message>>,
    script: map<nat, seq<Message>>,
    deposited: seq<Entry>,
    taken: nat,
    fetched: seq<Message>)

  /** The logger as fpx_logger_init leaves it, with every thread about to log its script. */
  ghost predicate Init(s: State) {
    && |s.slots| == SLOTS && s.front == 0 && s.rear == 0
    && s.semEmpty == SLOTS && s.semFull == 0
    && s.depositOwner == None && !s.fetchHeld
    && WORKER in s.threads && s.threads.Keys == s.script.Keys
    && (forall t | t in s.threads :: s.threads[t] == Thread(Ready, s.script[t]))
    && s.worker == Starting
    && |s.outputs| == |s.logs| && (forall j | 0 <= j < |s.logs| :: s.outputs[j] == [])
    && s.deposited == [] && s.taken == 0 && s.fetched == []
  }

  function Moved(s: State, t: nat, pc: Pc): State
    requires t in s.threads
  {
    s.(threads := s.threads[t := s.threads[t].(pc := pc)])
  }

  /** One step of thread t inside fpx_log_error, or None when it is blocked or has nothing left. */
  function Produce(s: State, t: nat): Option<State> {
    if t !in s.threads || |s.slots| != SLOTS || s.threads[t].todo == [] then None
    else
      var m := s.threads[t].todo[0];
      match s.threads[t].pc
      case Ready =>
        if s.semEmpty == 0 then None
        else Some(Moved(s, t, HasToken).(semEmpty := s.semEmpty - 1))
      case HasToken =>
        if s.depositOwner != None then None
        else Some(Moved(s, t, Locked).(depositOwner := Some(t)))
      case Locked =>
        Some(Moved(s, t, WriteText(s.rear)).(rear := NextSlot(s.rear),
                                             deposited := s.deposited + [Entry(t, m)]))
      case WriteText(i) =>
        if i >= SLOTS then None
        else Some(Moved(s, t, WriteTime(i)).(slots := s.slots[i := s.slots[i].(text := m.text)]))
      case WriteTime(i) =>
        if i >= SLOTS then None
        else Some(Moved(s, t, WriteLevel(i)).(slots := s.slots[i := s.slots[i].(time := m.time)]))
      case WriteLevel(i) =>
        if i >= SLOTS then None
        else Some(Moved(s, t, Written(i)).(slots := s.slots[i := s.slots[i].(level := m.level)]))
      case Written(_) =>
        Some(Moved(s, t, Released).(depositOwner := None))
      case Released =>
        Some(s.(threads := s.threads[t := Thread(Ready, s.threads[t].todo[1..])], semFull := s.semFull + 1))
  }

  /** One step of the worker, or None when it is blocked. It starts fetching once its own start-up
      message is out. */
  function Work(s: State): Option<State> {
    if |s.slots| != SLOTS then None
    else
      match s.worker
      case Starting =>
        if WORKER in s.threads && s.threads[WORKER] == Thread(Ready, []) then Some(s.(worker := WaitFull)) else None
      case WaitFull =>
        if s.semFull == 0 then None else Some(s.(worker := LockFetch, semFull := s.semFull - 1))
      case LockFetch =>
        if s.fetchHeld then None else Some(s.(worker := Take, fetchHeld := true))
      case Take =>
        Some(s.(worker := Format(s.front), front := NextSlot(s.front), taken := s.taken + 1))
      case Format(i) =>
        if i >= SLOTS then None
        else Some(s.(worker := Handle(i, s.slots[i], 0), fetched := s.fetched + [s.slots[i]]))
      case Handle(i, buf, k) =>
        if i >= SLOTS then None
        else if k < |s.logs| && k < |s.outputs| then
          var out := if s.slots[i].level <= s.logs[k] then s.outputs[k] + [buf] else s.outputs[k];
          Some(s.(worker := Handle(i, buf, k + 1), outputs := s.outputs[k := out]))
        else Some(s.(worker := Post, fetchHeld := false))
      case Post =>
        Some(s.(worker := WaitFull, semEmpty := s.semEmpty + 1))
  }

  ghost predicate Next(s: State, s': State) {
    || (exists t :: Produce(s, t) == Some(s'))
    || Work(s) == Some(s')
  }

  /** A run: consecutive states are one step apart, and the first is initial. */
  ghost predicate Run(run: seq<State>) {
    && run != [] && Init(run[0])
    && forall i {:trigger run[i + 1]} | 0 <= i < |run| - 1 :: Next(run[i], run[i + 1])
  }

  ghost predicate Reachable(s: State) {
    exists run :: Run(run) && run[|run| - 1] == s
  }

  // ------------------------------------------------------------ what the states mean

  /** 0: outside the deposit; 1: holds a token but no slot yet; 2: writing its slot under the
      mutex; 3: has left the mutex but has not posted. */
  function Phase(pc: Pc): nat {
    match pc
    case Ready => 0
    case HasToken => 1
    case Locked => 1
    case Released => 3
    case _ => 2
  }

  ghost function Phased(threads: map<nat, Thread>, phase: nat): set<nat> {
    set t | t in threads && Phase(threads[t].pc) == phase
  }

  ghost function Count(threads: map<nat, Thread>, phase: nat): nat {
    |Phased(threads, phase)|
  }

  /** The threads between a wait on sem_empty and the matching post on sem_full. */
  ghost function InFlight(s: State): set<nat> {
    set t | t in s.threads && Phase(s.threads[t].pc) != 0
  }

  predicate InDeposit(pc: Pc) {
    pc == Locked || Phase(pc) == 2
  }

  /** Some thread is writing the slot claimed last. */
  predicate Writing(s: State) {
    && s.depositOwner.Some? && s.depositOwner.value in s.threads
    && Phase(s.threads[s.depositOwner.value].pc) == 2
  }

  /** How many deposits are complete: all that were claimed, but the one being written. */
  function Complete(s: State): int {
    |s.deposited| - if Writing(s) then 1 else 0
  }

  /** The worker is between its wait on sem_full and the matching post on sem_empty. */
  predicate Fetching(s: State) {
    !s.worker.Starting? && !s.worker.WaitFull?
  }

  /** The worker is reading a slot. */
  predicate Reading(s: State) {
    s.worker.Format? || s.worker.Handle?
  }

  /** The oldest message still needed in the ring. */
  function Base(s: State): int {
    s.taken - if Reading(s) then 1 else 0
  }

  function OfThread(entries: seq<Entry>, t: nat): seq<Message> {
    if entries == [] then []
    else
      var rest := OfThread(entries[..|entries| - 1], t);
      var e := entries[|entries| - 1];
      if e.thread == t then rest + [e.message] else rest
  }

  /** What thread th has not yet deposited. */
  function Remaining(th: Thread): seq<Message> {
    if Phase(th.pc) < 2 || th.todo == [] then th.todo else th.todo[1..]
  }

  /** The messages that a log of this level lets through. */
  function Passed(ms: seq<Message>, level: nat): seq<Message> {
    if ms == [] then []
    else
      var rest := Passed(ms[..|ms| - 1], level);
      var m := ms[|ms| - 1];
      if m.level <= level then rest + [m] else rest
  }

  /** How many of the fetched messages handler j has seen. */
  function Handled(s: State, j: nat): int {
    |s.fetched| - if s.worker.Handle? && j >= s.worker.next then 1 else 0
  }
}
