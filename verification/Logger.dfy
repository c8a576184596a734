/** The logger's shared memory, updated in place. Each small method is one atomic action of
    fpx_log_error or fpx_logger_worker, is one step of the system, and keeps its invariant; Deposit and
    Turn put them together as the code does. */
module Logger {
  import opened Basics
  import opened LoggerModel
  import opened LoggerTheorems

  /** A log of this level after a message: it takes the message if its level lets it through. */
  function WithMessage(log: seq<Message>, level: nat, of: nat, m: Message): seq<Message> {
    if of <= level then log + [m] else log
  }

  /** The first k logs have been given the message, the others not yet. */
  ghost predicate Delivered(was: seq<seq<Message>>, now: seq<seq<Message>>, logs: seq<nat>, m: Message, k: nat) {
    && |was| == |now| == |logs|
    && forall j | 0 <= j < |logs| :: now[j] == if j < k then WithMessage(was[j], logs[j], m.level, m) else was[j]
  }

  lemma DeliveredNext(was: seq<seq<Message>>, now: seq<seq<Message>>, logs: seq<nat>, m: Message, k: nat)
    requires Delivered(was, now, logs, m, k) && k < |logs|
    ensures Delivered(was, now[k := WithMessage(now[k], logs[k], m.level, m)], logs, m, k + 1)
  {
  }

  class Logger {
    const messages: array<Message>
    var front: nat
    var rear: nat
    var semEmpty: nat
    var semFull: nat
    var depositOwner: Option<nat>
    var fetchHeld: bool
    var threads: map<nat, Thread>
    var worker: WorkerPc
    var logs: seq<nat>
    var outputs: seq<seq<Message>>
    ghost var script: map<nat, seq<Message>>
    ghost var deposited: seq<Entry>
    ghost var taken: nat
    ghost var fetched: seq<Message>

    ghost function View(): State
      reads this, messages
    {
      State(messages[..], front, rear, semEmpty, semFull, depositOwner, fetchHeld, threads, worker, logs, outputs,
            script, deposited, taken, fetched)
    }

    /** The memory is as some run of the system leaves it. */
    ghost predicate Live()
      reads this, messages
    {
      Reachable(View())
    }

    ghost predicate Valid()
      reads this, messages
    {
      && messages.Length == SLOTS && front < SLOTS && rear < SLOTS && |outputs| == |logs| && WORKER in threads
      && Live()
    }

    /** Thread t is at pc, with something to log. */
    ghost predicate At(t: nat, pc: Pc)
      reads `threads
    {
      t in threads && threads[t].pc == pc && threads[t].todo != []
    }

    /** fpx_logger_init */
    constructor (scripts: map<nat, seq<Message>>, levels: seq<nat>, blank: Message)
      requires WORKER in scripts
      ensures Init(View()) && Valid() && script == scripts && logs == levels && fresh(messages)
    {
      messages := new Message[SLOTS](_ => blank);
      front, rear := 0, 0;
      semEmpty, semFull := SLOTS, 0;
      depositOwner, fetchHeld := None, false;
      threads := map t | t in scripts :: Thread(Ready, scripts[t]);
      worker := Starting;
      logs, outputs := levels, seq(|levels|, _ => []);
      script, deposited, taken, fetched := scripts, [], 0, [];
      new;
      InitReachable(View());
    }

    // ---------------------------------------------------------- fpx_log_error

    /** fpx_semaphore_wait(sem_empty) */
    method WaitEmpty(t: nat)
      requires Valid() && At(t, Ready) && semEmpty > 0
      modifies `semEmpty, `threads
      ensures Valid() && Produce(old(View()), t) == Some(View())
      ensures semEmpty == old(semEmpty) - 1 && threads == old(threads)[t := old(threads)[t].(pc := HasToken)]
    {
      ghost var s := View();
      Dimensions(s);
      semEmpty := semEmpty - 1;
      threads := threads[t := threads[t].(pc := HasToken)];
      Produced(s, t, View());
    }

    /** fpx_mutex_lock(mutex_deposit) */
    method LockDeposit(t: nat)
      requires Valid() && At(t, HasToken) && depositOwner == None
      modifies `depositOwner, `threads
      ensures Valid() && Produce(old(View()), t) == Some(View())
      ensures depositOwner == Some(t) && threads == old(threads)[t := old(threads)[t].(pc := Locked)]
    {
      ghost var s := View();
      Dimensions(s);
      depositOwner := Some(t);
      threads := threads[t := threads[t].(pc := Locked)];
      Produced(s, t, View());
    }

    /** The slot at rear is claimed, and rear moves on. */
    method Claim(t: nat) returns (slot: nat)
      requires Valid() && At(t, Locked)
      modifies `rear, `threads, `deposited
      ensures Valid() && Produce(old(View()), t) == Some(View())
      ensures slot == old(rear) < SLOTS && rear == NextSlot(slot)
      ensures threads == old(threads)[t := old(threads)[t].(pc := WriteText(slot))]
      ensures deposited == old(deposited) + [Entry(t, old(threads)[t].todo[0])]
    {
      ghost var s := View();
      Dimensions(s);
      slot := rear;
      threads := threads[t := threads[t].(pc := WriteText(slot))];
      rear := NextSlot(rear);
      deposited := deposited + [Entry(t, threads[t].todo[0])];
      Produced(s, t, View());
    }

    /** The message's text is written into the claimed slot and nothing else is touched. */
    method StoreText(t: nat, slot: nat)
      requires Valid() && At(t, WriteText(slot))
      modifies `threads, messages
      ensures slot < SLOTS && Alone(old(View()), t, slot)
      ensures Valid() && Produce(old(View()), t) == Some(View())
      ensures messages[..] == old(messages[..])[slot := old(messages[slot]).(text := old(threads)[t].todo[0].text)]
      ensures threads == old(threads)[t := old(threads)[t].(pc := WriteTime(slot))]
    {
      WriterIsAlone(View(), t);
      ghost var s := View();
      Dimensions(s);
      messages[slot] := messages[slot].(text := threads[t].todo[0].text);
      threads := threads[t := threads[t].(pc := WriteTime(slot))];
      Produced(s, t, View());
    }

    /** Then its time. */
    method StoreTime(t: nat, slot: nat)
      requires Valid() && At(t, WriteTime(slot))
      modifies `threads, messages
      ensures slot < SLOTS && Alone(old(View()), t, slot)
      ensures Valid() && Produce(old(View()), t) == Some(View())
      ensures messages[..] == old(messages[..])[slot := old(messages[slot]).(time := old(threads)[t].todo[0].time)]
      ensures threads == old(threads)[t := old(threads)[t].(pc := WriteLevel(slot))]
    {
      WriterIsAlone(View(), t);
      ghost var s := View();
      Dimensions(s);
      messages[slot] := messages[slot].(time := threads[t].todo[0].time);
      threads := threads[t := threads[t].(pc := WriteLevel(slot))];
      Produced(s, t, View());
    }

    /** Then its level. */
    method StoreLevel(t: nat, slot: nat)
      requires Valid() && At(t, WriteLevel(slot))
      modifies `threads, messages
      ensures slot < SLOTS && Alone(old(View()), t, slot)
      ensures Valid() && Produce(old(View()), t) == Some(View())
      ensures messages[..] == old(messages[..])[slot := old(messages[slot]).(level := old(threads)[t].todo[0].level)]
      ensures threads == old(threads)[t := old(threads)[t].(pc := Written(slot))]
    {
      WriterIsAlone(View(), t);
      ghost var s := View();
      Dimensions(s);
      messages[slot] := messages[slot].(level := threads[t].todo[0].level);
      threads := threads[t := threads[t].(pc := Written(slot))];
      Produced(s, t, View());
    }

    /** fpx_mutex_unlock(mutex_deposit). The whole message is in its slot. */
    method UnlockDeposit(t: nat, slot: nat)
      requires Valid() && At(t, Written(slot))
      modifies `depositOwner, `threads
      ensures Valid() && Produce(old(View()), t) == Some(View())
      ensures depositOwner == None && threads == old(threads)[t := old(threads)[t].(pc := Released)]
    {
      ghost var s := View();
      Dimensions(s);
      depositOwner := None;
      threads := threads[t := threads[t].(pc := Released)];
      Produced(s, t, View());
    }

    /** fpx_semaphore_post(sem_full) */
    method PostFull(t: nat)
      requires Valid() && At(t, Released)
      modifies `semFull, `threads
      ensures Valid() && Produce(old(View()), t) == Some(View())
      ensures semFull == old(semFull) + 1 && threads == old(threads)[t := Thread(Ready, old(threads)[t].todo[1..])]
    {
      ghost var s := View();
      PostIsStep(s, t);
      ghost var s' := s.(threads := s.threads[t := Thread(Ready, s.threads[t].todo[1..])], semFull := s.semFull + 1);
      semFull := semFull + 1;
      threads := threads[t := Thread(Ready, threads[t].todo[1..])];
      assert View() == s';
    }

    /** From the wait to the mutex. */
    method ComeIn(t: nat)
      requires Valid() && At(t, Ready) && semEmpty > 0 && depositOwner == None
      modifies `semEmpty, `depositOwner, `threads
      ensures Valid() && depositOwner == Some(t) && semEmpty == old(semEmpty) - 1
      ensures threads == old(threads)[t := old(threads)[t].(pc := Locked)]
    {
      WaitEmpty(t);
      LockDeposit(t);
    }

    /** A thread comes in: it has waited, holds the mutex and has claimed the slot at rear. */
    method Enter(t: nat) returns (slot: nat)
      requires Valid() && At(t, Ready) && semEmpty > 0 && depositOwner == None
      modifies `semEmpty, `depositOwner, `rear, `threads, `deposited
      ensures Valid() && depositOwner == Some(t) && semEmpty == old(semEmpty) - 1
      ensures slot == old(rear) && rear == NextSlot(slot)
      ensures threads == old(threads)[t := old(threads)[t].(pc := WriteText(slot))]
      ensures deposited == old(deposited) + [Entry(t, old(threads)[t].todo[0])]
    {
      ComeIn(t);
      slot := Claim(t);
    }

    /** The first two stores. */
    method StoreTexts(t: nat, slot: nat)
      requires Valid() && At(t, WriteText(slot))
      modifies `threads, messages
      ensures Valid() && slot < SLOTS
      ensures var m := old(threads)[t].todo[0];
              messages[..] == old(messages[..])[slot := old(messages[slot]).(text := m.text, time := m.time)]
      ensures threads == old(threads)[t := old(threads)[t].(pc := WriteLevel(slot))]
    {
      StoreText(t, slot);
      StoreTime(t, slot);
    }

    /** The three stores: the slot holds the whole message, and nothing else has been touched. */
    method Store(t: nat, slot: nat)
      requires Valid() && At(t, WriteText(slot))
      modifies `threads, messages
      ensures Valid() && slot < SLOTS
      ensures messages[..] == old(messages[..])[slot := old(threads)[t].todo[0]]
      ensures threads == old(threads)[t := old(threads)[t].(pc := Written(slot))]
    {
      StoreTexts(t, slot);
      StoreLevel(t, slot);
    }

    /** It goes out: the mutex is free again before the token is posted. */
    method Leave(t: nat, slot: nat)
      requires Valid() && At(t, Written(slot))
      modifies `semFull, `depositOwner, `threads
      ensures Valid() && depositOwner == None && semFull == old(semFull) + 1
      ensures threads == old(threads)[t := Thread(Ready, old(threads)[t].todo[1..])]
    {
      UnlockDeposit(t, slot);
      PostFull(t);
    }

    method StoreAndLeave(t: nat, slot: nat)
      requires Valid() && At(t, WriteText(slot))
      modifies `semFull, `depositOwner, `threads, messages
      ensures Valid() && slot < SLOTS && depositOwner == None && semFull == old(semFull) + 1
      ensures messages[..] == old(messages[..])[slot := old(threads)[t].todo[0]]
      ensures threads == old(threads)[t := Thread(Ready, old(threads)[t].todo[1..])]
    {
      Store(t, slot);
      Leave(t, slot);
    }

    /** fpx_log_error, when nothing comes between its actions: the message is whole in the slot that was
        at rear, one token has moved from sem_empty to sem_full, and the message is the last in the
        queue. */
    method Deposit(t: nat)
      requires Valid() && At(t, Ready) && semEmpty > 0 && depositOwner == None
      modifies `semEmpty, `semFull, `depositOwner, `rear, `threads, `deposited, messages
      ensures Valid() && depositOwner == None
      ensures semEmpty == old(semEmpty) - 1 && semFull == old(semFull) + 1
      ensures rear == NextSlot(old(rear))
      ensures messages[..] == old(messages[..])[old(rear) := old(threads)[t].todo[0]]
      ensures threads == old(threads)[t := Thread(Ready, old(threads)[t].todo[1..])]
      ensures deposited == old(deposited) + [Entry(t, old(threads)[t].todo[0])]
    {
      var slot := Enter(t);
      StoreAndLeave(t, slot);
    }

    // ---------------------------------------------------------- fpx_logger_worker

    /** The worker's own message, if it had one, is out; it goes over to fetching. */
    method Start()
      requires Valid() && worker == Starting && threads[WORKER] == Thread(Ready, [])
      modifies `worker
      ensures Valid() && Work(old(View())) == Some(View())
    {
      ghost var s := View();
      Dimensions(s);
      worker := WaitFull;
      Worked(s, View());
    }

    /** fpx_semaphore_wait(sem_full) */
    method WaitForFull()
      requires Valid() && worker == WaitFull && semFull > 0
      modifies `semFull, `worker
      ensures Valid() && Work(old(View())) == Some(View())
      ensures worker == LockFetch && semFull == old(semFull) - 1
    {
      ghost var s := View();
      Dimensions(s);
      semFull := semFull - 1;
      worker := LockFetch;
      Worked(s, View());
    }

    /** fpx_mutex_lock(mutex_fetch) */
    method LockForFetch()
      requires Valid() && worker == LockFetch
      modifies `fetchHeld, `worker
      ensures Valid() && Work(old(View())) == Some(View())
      ensures worker == Take && fetchHeld
    {
      ghost var s := View();
      Dimensions(s);
      fetchHeld := true;
      worker := Take;
      Worked(s, View());
    }

    /** The slot at front is claimed and front moves on. */
    method TakeSlot() returns (slot: nat)
      requires Valid() && worker == Take
      modifies `front, `worker, `taken
      ensures Valid() && Work(old(View())) == Some(View())
      ensures slot == old(front) < SLOTS && front == NextSlot(slot) && worker == Format(slot)
      ensures taken == old(taken) + 1
    {
      ghost var s := View();
      Dimensions(s);
      slot := front;
      worker := Format(slot);
      front := NextSlot(front);
      taken := taken + 1;
      Worked(s, View());
    }

    /** The message in the slot is formatted: the oldest that has not been, whole. */
    method FormatSlot(slot: nat) returns (buf: Message)
      requires Valid() && worker == Format(slot)
      modifies `worker, `fetched
      ensures Valid() && Work(old(View())) == Some(View())
      ensures worker == Handle(slot, buf, 0) && slot < SLOTS && buf == messages[slot]
      ensures |old(fetched)| < |deposited| && buf == deposited[|old(fetched)|].message
      ensures fetched == old(fetched) + [buf]
    {
      OldestFormatted(View());
      ghost var s := View();
      Dimensions(s);
      buf := messages[slot];
      worker := Handle(slot, buf, 0);
      fetched := fetched + [buf];
      Worked(s, View());
    }

    /** Handler k is called; it goes by the level in the slot. */
    method CallHandler(slot: nat, buf: Message, k: nat)
      requires Valid() && worker == Handle(slot, buf, k) && slot < SLOTS && k < |logs|
      modifies `worker, `outputs
      ensures Valid() && Work(old(View())) == Some(View())
      ensures worker == Handle(slot, buf, k + 1)
      ensures outputs == old(outputs)[k := WithMessage(old(outputs[k]), logs[k], messages[slot].level, buf)]
    {
      ghost var s := View();
      Dimensions(s);
      if messages[slot].level <= logs[k] {
        outputs := outputs[k := outputs[k] + [buf]];
      } else {
        assert outputs[k := outputs[k]] == outputs;
      }
      worker := Handle(slot, buf, k + 1);
      Worked(s, View());
    }

    /** fpx_mutex_unlock(mutex_fetch) */
    method UnlockFetch(slot: nat, buf: Message)
      requires Valid() && worker == Handle(slot, buf, |logs|) && slot < SLOTS
      modifies `fetchHeld, `worker
      ensures Valid() && Work(old(View())) == Some(View())
      ensures worker == Post && !fetchHeld
    {
      ghost var s := View();
      Dimensions(s);
      fetchHeld := false;
      worker := Post;
      Worked(s, View());
    }

    /** fpx_semaphore_post(sem_empty) */
    method PostEmpty()
      requires Valid() && worker == Post
      modifies `semEmpty, `worker
      ensures Valid() && Work(old(View())) == Some(View())
      ensures worker == WaitFull && semEmpty == old(semEmpty) + 1
    {
      ghost var s := View();
      Dimensions(s);
      semEmpty := semEmpty + 1;
      worker := WaitFull;
      Worked(s, View());
    }

    /** From the wait to the claimed slot. */
    method Acquire() returns (slot: nat)
      requires Valid() && worker == WaitFull && semFull > 0
      modifies `front, `semFull, `fetchHeld, `worker, `taken
      ensures Valid() && semFull == old(semFull) - 1 && fetchHeld
      ensures slot == old(front) && front == NextSlot(slot) && worker == Format(slot)
    {
      WaitForFull();
      LockForFetch();
      slot := TakeSlot();
    }

    /** The message in the slot is formatted and goes to the logs. */
    method Deliver(slot: nat) returns (m: Message)
      requires Valid() && worker == Format(slot)
      modifies `worker, `fetched, `outputs
      ensures Valid() && slot < SLOTS && worker == Handle(slot, m, |logs|) && m == messages[slot]
      ensures |old(fetched)| < |deposited| && m == deposited[|old(fetched)|].message
      ensures fetched == old(fetched) + [m]
      ensures Delivered(old(outputs), outputs, logs, m, |logs|)
    {
      m := FormatSlot(slot);
      CallHandlers(slot, m);
    }

    /** The worker goes out. */
    method Finish(slot: nat, m: Message)
      requires Valid() && worker == Handle(slot, m, |logs|) && slot < SLOTS
      modifies `semEmpty, `fetchHeld, `worker
      ensures Valid() && worker == WaitFull && !fetchHeld && semEmpty == old(semEmpty) + 1
    {
      UnlockFetch(slot, m);
      PostEmpty();
    }

    /** The loop over the logs. */
    method CallHandlers(slot: nat, m: Message)
      requires Valid() && worker == Handle(slot, m, 0) && slot < SLOTS && m == messages[slot]
      modifies `worker, `outputs
      ensures Valid() && worker == Handle(slot, m, |logs|)
      ensures Delivered(old(outputs), outputs, logs, m, |logs|)
    {
      var k := 0;
      while k < |logs|
        invariant Valid() && k <= |logs| && worker == Handle(slot, m, k)
        invariant Delivered(old(outputs), outputs, logs, m, k)
      {
        DeliveredNext(old(outputs), outputs, logs, m, k);
        CallHandler(slot, m, k);
        k := k + 1;
      }
    }

    /** One turn of the worker's loop, when nothing comes between its actions: the message at front is
        the oldest in the queue and leaves it, every log whose level lets it through gets it once and at
        its end, and one token has moved from sem_full to sem_empty. */
    method Turn() returns (m: Message)
      requires Valid() && worker == WaitFull && semFull > 0
      modifies `front, `semEmpty, `semFull, `fetchHeld, `worker, `outputs, `taken, `fetched
      ensures Valid() && worker == WaitFull && !fetchHeld
      ensures semFull == old(semFull) - 1 && semEmpty == old(semEmpty) + 1
      ensures front == NextSlot(old(front)) && m == messages[old(front)]
      ensures |old(fetched)| < |deposited| && m == deposited[|old(fetched)|].message
      ensures fetched == old(fetched) + [m]
      ensures Delivered(old(outputs), outputs, logs, m, |logs|)
    {
      var slot := Acquire();
      m := Deliver(slot);
      Finish(slot, m);
    }
  }
}
