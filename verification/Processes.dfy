/** The state kept by the process tables and the scheduler together, its transitions, and what every
    transition keeps. */
module Processes {
  import opened Common
  import opened RingQueue
  import opened Ageing

  datatype ThreadState = New | Active | Waiting | Dead

  datatype Thread = Thread(lid: int, proc: int, state: ThreadState, entry: nat, stack: nat)

  datatype Process = Process(threadCounter: int, threads: map<int, int>, lfdCounter: int, fds: map<int, int>)

  /** `queue` and `current` are the scheduler's `schedule` and `ctask`. */
  datatype System = System(
    procs: map<int, Process>, procCounter: int,
    threads: map<int, Thread>, threadCounter: int,
    cproc: int, kproc: int, cthread: int,
    queue: seq<Task>, current: Task)

  const THREAD_STACK_SIZE: nat := 2048
  const QUEUE_CAPACITY: nat := 256
  const NO_TASK := Task(ID_INVALID, ID_INVALID, ID_INVALID)
  const EMPTY_PROCESS := Process(0, map[], 0, map[])

  // ---------- Transitions ----------

  function StateOf(s: System, t: int): ThreadState {
    if t in s.threads then s.threads[t].state else Dead
  }

  function ProcessOf(s: System, t: int): int {
    if t in s.threads then s.threads[t].proc else ID_INVALID
  }

  function StackOf(s: System, t: int): nat {
    if t in s.threads then s.threads[t].stack else 0
  }

  function EntryOf(s: System, t: int): nat {
    if t in s.threads then s.threads[t].entry else 0
  }

  function LidOf(s: System, t: int): int {
    if t in s.threads then s.threads[t].lid else ID_INVALID
  }

  function WithState(s: System, t: int, state: ThreadState): System {
    if t in s.threads then s.(threads := s.threads[t := s.threads[t].(state := state)]) else s
  }

  function WithStack(s: System, t: int, stack: nat): System {
    if t in s.threads then s.(threads := s.threads[t := s.threads[t].(stack := stack)]) else s
  }

  function WithLid(s: System, t: int, lid: int): System {
    if t in s.threads then s.(threads := s.threads[t := s.threads[t].(lid := lid)]) else s
  }

  function WithCurrent(s: System, t: int): System {
    s.(cthread := t, cproc := ProcessOf(s, t))
  }

  /** `create`: identifiers count from 1. */
  function Created(s: System): System {
    s.(procCounter := s.procCounter + 1, procs := TableAdd(s.procs, s.procCounter + 1, EMPTY_PROCESS))
  }

  /** The state after `init`: the kernel process and nothing else. */
  function Initial(): System {
    Created(System(map[], 0, map[], 0, ID_INVALID, ID_INVALID, ID_INVALID, [], NO_TASK)).(kproc := 1, cproc := 1)
  }

  /** `create_thread`, with its stack block at address `block`. */
  function ThreadCreated(s: System, p: int, entry: nat, block: nat): System {
    s.(threadCounter := s.threadCounter + 1,
       threads := TableAdd(s.threads, s.threadCounter,
                           Thread(ID_INVALID, p, New, entry, block + THREAD_STACK_SIZE)))
  }

  function Scheduled(s: System, t: int, priority: int): System
    requires |s.queue| <= QUEUE_CAPACITY
  {
    s.(queue := Pushed(s.queue, Task(t, ToShort(priority), ToShort(priority)), QUEUE_CAPACITY))
  }

  /** `spawn_thread` on an existing process; the caller gets the process-local identifier. */
  function Spawned(s: System, p: int, entry: nat, block: nat): System
    requires |s.queue| <= QUEUE_CAPACITY
  {
    if p !in s.procs then s
    else
      var t, lid := s.threadCounter, s.procs[p].threadCounter;
      var s1 := WithLid(ThreadCreated(s, p, entry, block), t, lid);
      var owner := s.procs[p].(threadCounter := lid + 1, threads := TableAdd(s.procs[p].threads, lid, t));
      Scheduled(s1.(procs := s.procs[p := owner]), t, 0)
  }

  function ThreadDeleted(s: System, p: int, t: int): System {
    if p !in s.procs then s
    else
      var owner := s.procs[p].(threads := s.procs[p].threads - {LidOf(s, t)});
      s.(procs := s.procs[p := owner], threads := s.threads - {t})
  }

  /** The running task gives up the processor: a dead thread is deleted, any other goes to the back. */
  function Retired(s: System): System
    requires |s.queue| <= QUEUE_CAPACITY
  {
    var t := s.current.thread;
    if t == ID_INVALID then s
    else if StateOf(s, t) == Dead then ThreadDeleted(s, ProcessOf(s, t), t)
    else
      var task := s.current.(cpriority := s.current.priority);
      s.(current := task, queue := Pushed(s.queue, task, QUEUE_CAPACITY))
  }

  /** The queue is not empty when the ageing loop starts: popping an empty queue is not allowed. */
  predicate CanIncrement(s: System) {
    s.queue != [] || (s.current.thread != ID_INVALID && StateOf(s, s.current.thread) != Dead)
  }

  function Incremented(s: System): System
    requires |s.queue| <= QUEUE_CAPACITY && CanIncrement(s)
  {
    var r := Retired(s);
    var p := Age(r.queue);
    WithCurrent(r.(queue := p.rest, current := p.task), p.task.thread)
  }

  /** How `scheduler_preempt` enters the chosen thread: at its entry on a fresh stack, or where it was. */
  datatype Dispatch = Boot(thread: int, entry: nat, stack: nat) | Resume(thread: int, stack: nat)

  /** The state when a tick has saved the running thread's stack pointer. */
  function Saved(s: System, oldStack: nat): (r: System)
    ensures r.queue == s.queue && CanIncrement(r) == CanIncrement(s)
  {
    if s.current.thread != ID_INVALID then WithStack(s, s.current.thread, oldStack) else s
  }

  /** The chosen thread is entered; a new one becomes active. */
  function Chosen(s: System): (System, Dispatch) {
    var t := s.current.thread;
    if StateOf(s, t) == New then (WithState(s, t, Active), Boot(t, EntryOf(s, t), StackOf(s, t)))
    else (s, Resume(t, StackOf(s, t)))
  }

  function Preempted(s: System, oldStack: nat): (System, Dispatch)
    requires |s.queue| <= QUEUE_CAPACITY && CanIncrement(s)
  {
    Chosen(Incremented(Saved(s, oldStack)))
  }

  /** `kill`, which the kernel applies to the running thread only. */
  function Killed(s: System): System {
    WithState(s, s.cthread, Dead)
  }

  // ---------- The invariant ----------

  /** The threads the scheduler knows of, with multiplicity. */
  function Roster(s: System): multiset<int> {
    multiset(Threads(s.queue))
    + if s.current.thread == ID_INVALID then multiset{} else multiset{s.current.thread}
  }

  /** Every live thread is scheduled exactly once. */
  ghost predicate Rostered(s: System) {
    Roster(s) == multiset(s.threads.Keys)
  }

  /** A thread and its process refer to each other by the thread's local identifier. */
  ghost predicate Linked(s: System) {
    && (forall t :: t in s.threads ==>
          && s.threads[t].proc in s.procs
          && s.threads[t].lid in s.procs[s.threads[t].proc].threads
          && s.procs[s.threads[t].proc].threads[s.threads[t].lid] == t)
    && (forall p, l :: p in s.procs && l in s.procs[p].threads ==>
          && s.procs[p].threads[l] in s.threads
          && s.threads[s.procs[p].threads[l]].proc == p
          && s.threads[s.procs[p].threads[l]].lid == l)
  }

  /** Identifiers still to be handed out are unused. */
  ghost predicate Fresh(s: System) {
    && s.procCounter >= 0 && s.threadCounter >= 0
    && (forall t :: t in s.threads ==> 0 <= t < s.threadCounter)
    && (forall p :: p in s.procs ==> 0 < p <= s.procCounter)
    && (forall p, l :: p in s.procs && l in s.procs[p].threads ==> 0 <= l < s.procs[p].threadCounter)
    && (forall p :: p in s.procs ==> s.procs[p].threadCounter >= 0)
  }

  /** The running thread is the scheduler's current task, and only it can be dead. */
  ghost predicate Running(s: System) {
    && s.cthread == s.current.thread
    && (s.cthread != ID_INVALID ==> s.cproc == ProcessOf(s, s.cthread) && StateOf(s, s.cthread) != New)
    && (forall t :: t in s.threads && t != s.cthread ==> s.threads[t].state != Dead)
  }

  ghost predicate Inv(s: System) {
    && Rostered(s) && Linked(s) && Fresh(s) && Running(s)
    && |s.threads| <= TABLE_CAPACITY
  }

  /** Under the invariant the run queue and the running thread together are as many as the threads. */
  lemma {:induction false} RosterSize(s: System)
    requires Rostered(s)
    ensures |s.threads| == |s.queue| + if s.current.thread == ID_INVALID then 0 else 1
    ensures s.current.thread != ID_INVALID ==> s.current.thread in s.threads
    ensures forall t :: t in s.threads ==> t == s.current.thread || t in Threads(s.queue)
    ensures forall t :: t in Threads(s.queue) ==> t in s.threads && multiset(Threads(s.queue))[t] == 1
    ensures s.current.thread != ID_INVALID ==> s.current.thread !in Threads(s.queue)
  {
    var bag := multiset(Threads(s.queue));
    assert |Roster(s)| == |s.threads.Keys|;
    forall t
      ensures t in Threads(s.queue) <==> bag[t] > 0
      ensures Roster(s)[t] == if t in s.threads then 1 else 0
    {
      assert multiset(s.threads.Keys)[t] == if t in s.threads then 1 else 0;
    }
    if s.current.thread != ID_INVALID {
      assert s.current.thread in Roster(s);
    }
  }

  /** `init` establishes the invariant. */
  lemma {:induction false} InitialInv()
    ensures Inv(Initial())
  {
    assert multiset(Initial().threads.Keys) == multiset{};
  }

  lemma {:induction false} CreatedLinked(s: System)
    requires Linked(s) && Fresh(s)
    ensures Linked(Created(s))
  {
    assert s.procCounter + 1 !in s.procs;
  }

  lemma {:induction false} CreatedFresh(s: System)
    requires Fresh(s)
    ensures Fresh(Created(s))
  {
  }

  lemma {:induction false} CreatedInv(s: System)
    requires Inv(s)
    ensures Inv(Created(s))
    ensures (s.procCounter + 1 in Created(s).procs) <==> |s.procs| < TABLE_CAPACITY
  {
    CreatedLinked(s);
    CreatedFresh(s);
    assert Rostered(Created(s)) && Running(Created(s));
  }

  /** A new process takes the next identifier and has handed out no local numbers. */
  lemma {:induction false} CreatedIsEmpty(s: System)
    requires |s.procs| < TABLE_CAPACITY
    ensures Created(s).procs == s.procs[s.procCounter + 1 := Process(0, map[], 0, map[])]
    ensures Created(s) == s.(procCounter := s.procCounter + 1, procs := Created(s).procs)
  {
  }

  /** What spawning changes, when the tables and the queue have room. */
  ghost predicate Grew(s: System, s': System, p: int, entry: nat, block: nat)
    requires p in s.procs
  {
    var t, own := s.threadCounter, s.procs[p];
    && s'.threads == s.threads[t := Thread(own.threadCounter, p, New, entry, block + THREAD_STACK_SIZE)]
    && s'.procs == s.procs[p := own.(threadCounter := own.threadCounter + 1,
                                     threads := own.threads[own.threadCounter := t])]
    && s'.queue == s.queue + [Task(t, 0, 0)]
    && s' == s.(procs := s'.procs, threads := s'.threads, queue := s'.queue, threadCounter := t + 1)
  }

  lemma {:induction false} SpawnedShape(s: System, p: int, entry: nat, block: nat)
    requires p in s.procs && |s.threads| < TABLE_CAPACITY && s.threadCounter !in s.threads
    requires |s.procs[p].threads| < TABLE_CAPACITY && |s.queue| < QUEUE_CAPACITY
    ensures Grew(s, Spawned(s, p, entry, block), p, entry, block)
  {
  }

  lemma {:induction false} LinkAdded(s: System, s': System, p: int, t: int, thread: Thread)
    requires Linked(s) && Fresh(s)
    requires p in s.procs && t !in s.threads && thread.proc == p && thread.lid == s.procs[p].threadCounter
    requires s'.threads == s.threads[t := thread]
    requires s'.procs == s.procs[p := s.procs[p].(threadCounter := thread.lid + 1,
                                                  threads := s.procs[p].threads[thread.lid := t])]
    ensures Linked(s')
  {
  }

  lemma {:induction false} LinkDropped(s: System, s': System, t: int)
    requires Linked(s) && t in s.threads
    requires s'.threads == s.threads - {t}
    requires var p := s.threads[t].proc;
             s'.procs == s.procs[p := s.procs[p].(threads := s.procs[p].threads - {s.threads[t].lid})]
    ensures Linked(s')
  {
  }

  /** An injective table into `ids` has at most as many entries. */
  lemma {:induction false} TableFits(m: map<int, int>, ids: set<int>)
    requires forall l :: l in m ==> m[l] in ids
    requires forall l, k :: l in m && k in m && m[l] == m[k] ==> l == k
    ensures |m| <= |ids|
    decreases |m|
  {
    if |m| != 0 {
      var l := SomeKey(m);
      AddRemoveSize(m, l);
      TableFits(m - {l}, ids - {m[l]});
    }
  }

  lemma {:induction false} OwnTableFits(s: System, p: int)
    requires Linked(s) && p in s.procs
    ensures |s.procs[p].threads| <= |s.threads|
  {
    TableFits(s.procs[p].threads, s.threads.Keys);
  }

  lemma {:induction false} ThreadsPush(q: seq<Task>, t: Task)
    ensures multiset(Threads(q + [t])) == multiset(Threads(q)) + multiset{t.thread}
  {
    ThreadsSplit(q, [t]);
    assert Threads([t]) == [t.thread];
  }

  lemma {:induction false} RosterAdded(s: System, s': System, t: int, task: Task)
    requires Rostered(s) && t !in s.threads && t in s'.threads && task.thread == t
    requires s'.threads.Keys == s.threads.Keys + {t}
    requires s'.queue == s.queue + [task] && s'.current == s.current
    ensures Rostered(s')
  {
    ThreadsPush(s.queue, task);
    BagSplit(s'.threads.Keys, t);
    assert s'.threads.Keys - {t} == s.threads.Keys;
  }

  lemma {:induction false} BagSplit(ids: set<int>, t: int)
    requires t in ids
    ensures multiset(ids) == multiset(ids - {t}) + multiset{t}
  {
    assert ids == (ids - {t}) + {t};
  }

  lemma {:induction false} SpawnedInRoom(s: System, p: int, entry: nat, block: nat)
    requires Inv(s) && p in s.procs && |s.threads| < TABLE_CAPACITY
    ensures |s.queue| < QUEUE_CAPACITY && s.threadCounter !in s.threads && s.threadCounter != s.current.thread
    ensures s.current.thread != ID_INVALID ==> s.current.thread in s.threads
    ensures Grew(s, Spawned(s, p, entry, block), p, entry, block)
  {
    RosterSize(s);
    OwnTableFits(s, p);
    SpawnedShape(s, p, entry, block);
  }

  lemma {:induction false} GrewKeepsInv(s: System, s': System, p: int, entry: nat, block: nat)
    requires Inv(s) && p in s.procs && |s.threads| < TABLE_CAPACITY && Grew(s, s', p, entry, block)
    requires s.threadCounter !in s.threads && s.threadCounter != s.current.thread
    requires s.current.thread != ID_INVALID ==> s.current.thread in s.threads
    ensures Inv(s')
  {
    var t := s.threadCounter;
    assert Linked(s') by {
      LinkAdded(s, s', p, t, s'.threads[t]);
    }
    assert Rostered(s') by {
      RosterAdded(s, s', t, Task(t, 0, 0));
    }
    assert Fresh(s') by {
      FreshAdded(s, s', p, t);
    }
    assert Running(s') by {
      RunningAdded(s, s', t);
    }
  }

  lemma {:induction false} SpawnedKeepsInv(s: System, p: int, entry: nat, block: nat)
    requires Inv(s) && p in s.procs && |s.threads| < TABLE_CAPACITY
    requires |s.queue| < QUEUE_CAPACITY
    ensures Inv(Spawned(s, p, entry, block))
  {
    SpawnedInRoom(s, p, entry, block);
    GrewKeepsInv(s, Spawned(s, p, entry, block), p, entry, block);
  }

  lemma {:induction false} FreshAdded(s: System, s': System, p: int, t: int)
    requires Fresh(s) && p in s.procs && t == s.threadCounter && s'.threadCounter == t + 1
    requires s'.threads.Keys == s.threads.Keys + {t} && s'.procCounter == s.procCounter
    requires var own := s.procs[p];
             s'.procs == s.procs[p := own.(threadCounter := own.threadCounter + 1,
                                           threads := own.threads[own.threadCounter := t])]
    ensures Fresh(s')
  {
  }

  lemma {:induction false} RunningAdded(s: System, s': System, t: int)
    requires Running(s) && t !in s.threads && t != s.cthread
    requires s.cthread != ID_INVALID ==> s.cthread in s.threads
    requires t in s'.threads && s'.threads[t].state == New && s'.threads == s.threads[t := s'.threads[t]]
    requires s'.current == s.current && s'.cthread == s.cthread && s'.cproc == s.cproc
    ensures Running(s')
  {
  }

  /** The local number that a spawn returns leads to the new thread, which will start at its entry on the top
      of its stack block. */
  lemma {:induction false} SpawnedIsFound(s: System, p: int, entry: nat, block: nat)
    requires Inv(s) && p in s.procs && |s.threads| < TABLE_CAPACITY
    ensures |s.queue| < QUEUE_CAPACITY
    ensures var s', lid, t := Spawned(s, p, entry, block), s.procs[p].threadCounter, s.threadCounter;
            && p in s'.procs && lid in s'.procs[p].threads && s'.procs[p].threads[lid] == t && t !in s.threads
            && t in s'.threads && s'.threads[t] == Thread(lid, p, New, entry, block + 2048)
  {
    SpawnedInRoom(s, p, entry, block);
  }

  /** Within the range of a `short` a task is queued with the whole priority asked for, and as long to wait. */
  lemma {:induction false} ScheduledWaits(s: System, t: int, priority: int)
    requires |s.queue| < QUEUE_CAPACITY && 0 <= priority < 0x8000
    ensures Scheduled(s, t, priority).queue == s.queue + [Task(t, priority, priority)]
  {
    assert (priority + 0x8000) % 0x1_0000 == priority + 0x8000;
  }

  lemma {:induction false} SpawnedOverflows(s: System, p: int, entry: nat, block: nat)
    requires Inv(s) && p in s.procs && |s.threads| == TABLE_CAPACITY && |s.queue| <= QUEUE_CAPACITY
    ensures !Rostered(Spawned(s, p, entry, block))
    ensures var s' := Spawned(s, p, entry, block);
            s.threadCounter in Threads(s'.queue) && s.threadCounter !in s'.threads
  {
    var s', t := Spawned(s, p, entry, block), s.threadCounter;
    var last := |s'.queue| - 1;
    assert s'.queue[last] == Task(t, 0, 0);
    assert Threads(s'.queue)[last] == t;
    assert t in Roster(s') && t !in s'.threads.Keys;
  }

  /** Spawning keeps the invariant exactly when the process does not exist or the thread table has
      room: with a full table the run queue would hold a thread that is not in the table. */
  lemma {:induction false} SpawnedInv(s: System, p: int, entry: nat, block: nat)
    requires Inv(s)
    ensures |s.queue| <= QUEUE_CAPACITY
    ensures Inv(Spawned(s, p, entry, block)) <==> p !in s.procs || |s.threads| < TABLE_CAPACITY
  {
    RosterSize(s);
    if p in s.procs {
      if |s.threads| < TABLE_CAPACITY {
        assert |s.queue| < QUEUE_CAPACITY;
        SpawnedKeepsInv(s, p, entry, block);
      } else {
        SpawnedOverflows(s, p, entry, block);
      }
    }
  }

  lemma {:induction false} RetiredDead(s: System)
    requires Inv(s) && |s.queue| <= QUEUE_CAPACITY
    requires s.current.thread != ID_INVALID && StateOf(s, s.current.thread) == Dead
    ensures var r := Retired(s);
            && Linked(r) && Fresh(r)
            && r.threads == s.threads - {s.current.thread}
            && r.queue == s.queue && r.current == s.current && r.procs.Keys == s.procs.Keys
  {
    RosterSize(s);
    var r, t := Retired(s), s.current.thread;
    LinkDropped(s, r, t);
    assert Fresh(r) by {
      FreshDropped(s, r, t);
    }
  }

  lemma {:induction false} FreshDropped(s: System, r: System, t: int)
    requires Fresh(s) && r.threads.Keys <= s.threads.Keys && r.procs.Keys == s.procs.Keys
    requires r.threadCounter == s.threadCounter && r.procCounter == s.procCounter
    requires forall p :: p in s.procs ==> r.procs[p].threadCounter == s.procs[p].threadCounter
                                          && r.procs[p].threads.Keys <= s.procs[p].threads.Keys
    ensures Fresh(r)
  {
  }

  lemma {:induction false} RosterDropped(s: System)
    requires Rostered(s) && s.current.thread != ID_INVALID
    ensures multiset(Threads(s.queue)) == multiset(s.threads.Keys - {s.current.thread})
  {
    RosterSize(s);
    BagSplit(s.threads.Keys, s.current.thread);
    assert multiset(Threads(s.queue)) == Roster(s) - multiset{s.current.thread};
  }

  /** After the running task gave up the processor, every thread is in the queue and none is dead. */
  lemma {:induction false} RetiredInv(s: System)
    requires Inv(s)
    ensures |s.queue| <= QUEUE_CAPACITY
    ensures var r := Retired(s);
            && Linked(r) && Fresh(r) && r.procs.Keys == s.procs.Keys
            && multiset(Threads(r.queue)) == multiset(r.threads.Keys)
            && |r.queue| == |r.threads| <= TABLE_CAPACITY
            && (CanIncrement(s) <==> r.queue != [])
            && (forall t :: t in r.threads ==> t in s.threads && r.threads[t] == s.threads[t])
            && (forall t :: t in r.threads ==> r.threads[t].state != Dead)
  {
    RosterSize(s);
    var r, t := Retired(s), s.current.thread;
    if t != ID_INVALID {
      if StateOf(s, t) == Dead {
        RetiredDead(s);
        RosterDropped(s);
        assert r.threads.Keys == s.threads.Keys - {t};
      } else {
        ThreadsPush(s.queue, r.current);
      }
    }
    assert |multiset(Threads(r.queue))| == |multiset(r.threads.Keys)|;
  }

  /** The choice leaves the chosen thread and the queue together as the roster. */
  lemma {:induction false} ChoiceKeepsRoster(r: System, s': System)
    requires r.queue != [] && multiset(Threads(r.queue)) == multiset(r.threads.Keys)
    requires ID_INVALID !in r.threads
    requires s'.threads == r.threads && s'.queue == Age(r.queue).rest && s'.current == Age(r.queue).task
    ensures Rostered(s') && s'.current.thread in s'.threads
  {
    AgeConserves(r.queue);
    var t := Age(r.queue).task.thread;
    assert t in multiset(Threads(r.queue));
    assert t in r.threads.Keys;
  }

  lemma {:induction false} IncrementedHasCurrent(s: System)
    requires Inv(s) && CanIncrement(s)
    ensures |s.queue| <= QUEUE_CAPACITY
    ensures Rostered(Incremented(s)) && Incremented(s).current.thread in Incremented(s).threads
  {
    RetiredInv(s);
    ChoiceKeepsRoster(Retired(s), Incremented(s));
  }

  lemma {:induction false} IncrementedShape(s: System)
    requires |s.queue| <= QUEUE_CAPACITY && CanIncrement(s)
    ensures var r, s' := Retired(s), Incremented(s);
            && s'.procs == r.procs && s'.threads == r.threads
            && s'.procCounter == r.procCounter && s'.threadCounter == r.threadCounter
            && s'.cthread == s'.current.thread && s'.cproc == ProcessOf(s', s'.cthread)
  {
  }

  lemma {:induction false} SameTables(s: System, s': System)
    requires s'.procs == s.procs && s'.threads == s.threads
    requires s'.procCounter == s.procCounter && s'.threadCounter == s.threadCounter
    ensures Linked(s) ==> Linked(s')
    ensures Fresh(s) ==> Fresh(s')
  {
  }

  /** The dispatcher keeps the invariant, runs a live thread of its process, and loses no thread but
      the dead one it buries. */
  lemma {:induction false} IncrementedInv(s: System)
    requires Inv(s) && CanIncrement(s)
    ensures |s.queue| <= QUEUE_CAPACITY
    ensures var s', t := Incremented(s), Incremented(s).current.thread;
            && Rostered(s') && Linked(s') && Fresh(s') && |s'.threads| <= TABLE_CAPACITY
            && t in s'.threads && s'.cthread == t && s'.cproc == s'.threads[t].proc
            && s'.procs.Keys == s.procs.Keys
            && (forall u :: u in s'.threads ==> u in s.threads && s'.threads[u] == s.threads[u])
            && (forall u :: u in s.threads && s.threads[u].state != Dead ==> u in s'.threads)
            && (forall u :: u in s'.threads ==> s'.threads[u].state != Dead)
  {
    RetiredInv(s);
    IncrementedHasCurrent(s);
    RetiredKeepsLive(s);
    IncrementedShape(s);
    SameTables(Retired(s), Incremented(s));
  }

  lemma {:induction false} RetiredKeepsLive(s: System)
    requires Inv(s) && |s.queue| <= QUEUE_CAPACITY
    ensures forall u :: u in s.threads && s.threads[u].state != Dead ==> u in Retired(s).threads
  {
  }

  /** Changing a thread's state or stack touches neither its links nor the roster. */
  lemma {:induction false} TouchedInv(s: System, s': System, t: int)
    requires t in s.threads && t in s'.threads
    requires s' == s.(threads := s.threads[t := s'.threads[t]])
    requires s'.threads[t].proc == s.threads[t].proc && s'.threads[t].lid == s.threads[t].lid
    ensures Linked(s) ==> Linked(s')
    ensures Fresh(s) ==> Fresh(s')
    ensures Rostered(s) ==> Rostered(s')
    ensures |s'.threads| == |s.threads|
  {
    assert s'.threads.Keys == s.threads.Keys;
  }

  lemma {:induction false} WithStackInv(s: System, t: int, stack: nat)
    requires Inv(s)
    ensures Inv(WithStack(s, t, stack)) && CanIncrement(WithStack(s, t, stack)) == CanIncrement(s)
  {
    if t in s.threads {
      TouchedInv(s, WithStack(s, t, stack), t);
    }
  }

  /** Entering the chosen thread completes the invariant: it is not new any more. */
  lemma {:induction false} EnteredInv(s: System)
    requires Rostered(s) && Linked(s) && Fresh(s) && |s.threads| <= TABLE_CAPACITY
    requires s.current.thread in s.threads && s.cthread == s.current.thread && s.cproc == ProcessOf(s, s.cthread)
    requires forall u :: u in s.threads ==> s.threads[u].state != Dead
    ensures var s' := Chosen(s).0;
            Inv(s') && s'.current.thread in s'.threads && StateOf(s', s'.current.thread) !in {New, Dead}
  {
    if StateOf(s, s.cthread) == New {
      TouchedInv(s, WithState(s, s.cthread, Active), s.cthread);
    }
  }

  lemma {:induction false} PreemptedInv(s: System, oldStack: nat)
    requires Inv(s) && CanIncrement(s)
    ensures |s.queue| <= QUEUE_CAPACITY
    ensures var s' := Preempted(s, oldStack).0;
            && Inv(s') && s'.current.thread in s'.threads
            && StateOf(s', s'.current.thread) !in {New, Dead}
  {
    WithStackInv(s, s.current.thread, oldStack);
    IncrementedInv(Saved(s, oldStack));
    EnteredInv(Incremented(Saved(s, oldStack)));
  }

  lemma {:induction false} KilledInv(s: System)
    requires Inv(s)
    ensures Inv(Killed(s))
  {
    if s.cthread in s.threads {
      TouchedInv(s, Killed(s), s.cthread);
    }
  }

  // ---------- What a tick and an open file leave alone ----------

  /** While some thread is not dead a tick finds one to run. */
  lemma {:induction false} LiveCanTick(s: System, t: int)
    requires Inv(s) && t in s.threads && s.threads[t].state != Dead
    ensures CanIncrement(s) && |s.queue| <= QUEUE_CAPACITY
  {
    RosterSize(s);
    if t != s.current.thread {
      assert t in Threads(s.queue);
    }
  }

  /** The descriptors of all processes are the same. */
  ghost predicate SameFds(procs: map<int, Process>, procs': map<int, Process>) {
    && procs'.Keys == procs.Keys
    && forall p :: p in procs ==> procs'[p].fds == procs[p].fds && procs'[p].lfdCounter == procs[p].lfdCounter
  }

  lemma {:induction false} RetiredKeepsFds(s: System)
    requires |s.queue| <= QUEUE_CAPACITY
    ensures SameFds(s.procs, Retired(s).procs)
  {
  }

  lemma {:induction false} TickKeepsFds(s: System, stack: nat)
    requires |s.queue| <= QUEUE_CAPACITY && CanIncrement(s)
    ensures SameFds(s.procs, Preempted(s, stack).0.procs)
  {
    var s0 := Saved(s, stack);
    RetiredKeepsFds(s0);
    IncrementedShape(s0);
  }

  /** The thread is live, and in the process. */
  predicate LiveIn(s: System, t: int, p: int) {
    t in s.threads && s.threads[t].state != Dead && s.threads[t].proc == p
  }

  lemma {:induction false} SavedKeepsLive(s: System, stack: nat, t: int, p: int)
    requires LiveIn(s, t, p)
    ensures LiveIn(Saved(s, stack), t, p)
  {
  }

  lemma {:induction false} ChosenKeepsLive(s: System, t: int, p: int)
    requires LiveIn(s, t, p)
    ensures LiveIn(Chosen(s).0, t, p)
  {
  }

  lemma {:induction false} IncrementedKeepsLive(s: System, t: int, p: int)
    requires Inv(s) && CanIncrement(s) && |s.queue| <= QUEUE_CAPACITY && LiveIn(s, t, p)
    ensures LiveIn(Incremented(s), t, p)
  {
    IncrementedInv(s);
  }

  /** A tick keeps a live thread live, and in its process. */
  lemma {:induction false} TickKeepsLive(s: System, stack: nat, t: int, p: int)
    requires Inv(s) && CanIncrement(s) && |s.queue| <= QUEUE_CAPACITY && LiveIn(s, t, p)
    ensures LiveIn(Preempted(s, stack).0, t, p)
  {
    var s0 := Saved(s, stack);
    WithStackInv(s, s.current.thread, stack);
    SavedKeepsLive(s, stack, t, p);
    IncrementedKeepsLive(s0, t, p);
    ChosenKeepsLive(Incremented(s0), t, p);
  }

  /** Descriptors have no part in the invariant. */
  lemma {:induction false} FdsKeepInv(s: System, s': System)
    requires Inv(s) && s' == s.(procs := s'.procs) && s'.procs.Keys == s.procs.Keys
    requires forall p :: p in s.procs ==> s'.procs[p].threads == s.procs[p].threads
                                          && s'.procs[p].threadCounter == s.procs[p].threadCounter
    ensures Inv(s')
  {
    assert Linked(s') && Fresh(s');
  }

  /** After boot: a second process, and a thread of each. */
  function TwoSpawned(entry: nat, block: nat, entry': nat, block': nat): System {
    var s1 := Created(Initial());
    var s2 := Spawned(s1, 1, entry, block);
    if |s2.queue| <= QUEUE_CAPACITY then Spawned(s2, 2, entry', block') else s2
  }

  lemma {:induction false} TwoSpawnedInv(entry: nat, block: nat, entry': nat, block': nat)
    ensures |Spawned(Created(Initial()), 1, entry, block).queue| <= QUEUE_CAPACITY
    ensures var s := TwoSpawned(entry, block, entry', block');
            Inv(s) && CanIncrement(s) && s.procs.Keys == {1, 2} && forall p :: p in s.procs ==> s.procs[p].fds == map[] && s.procs[p].lfdCounter == 0
  {
    var s0, s1 := Initial(), Created(Initial());
    InitialInv();
    CreatedInv(s0);
    SpawnedInRoom(s1, 1, entry, block);
    SpawnedInv(s1, 1, entry, block);
    var s2 := Spawned(s1, 1, entry, block);
    SpawnedInRoom(s2, 2, entry', block');
    SpawnedInv(s2, 2, entry', block');
  }
}
