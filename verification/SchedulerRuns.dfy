/** Whole runs of the process tables and the scheduler: what holds in every reachable state. */
module SchedulerRuns {
  import opened Common
  import opened Ageing
  import opened Processes

  /** One call into the kernel: `create`, `spawn_thread`, `kill` on the running thread, a timer tick. */
  datatype Op = Create | Spawn(proc: int, entry: nat, block: nat) | Kill | Preempt(stack: nat)

  /** The tables have room for what the call adds, and a tick finds a thread to run. */
  predicate Enabled(s: System, op: Op) {
    && |s.queue| <= QUEUE_CAPACITY
    && (op.Spawn? ==> op.proc !in s.procs || |s.threads| < TABLE_CAPACITY)
    && (op.Preempt? ==> CanIncrement(s))
  }

  function Step(s: System, op: Op): System
    requires Enabled(s, op)
  {
    match op
    case Create => Created(s)
    case Spawn(p, entry, block) => Spawned(s, p, entry, block)
    case Kill => Killed(s)
    case Preempt(stack) => Preempted(s, stack).0
  }

  predicate Legal(s: System, ops: seq<Op>)
    decreases |ops|
  {
    ops == [] || (Enabled(s, ops[0]) && Legal(Step(s, ops[0]), ops[1..]))
  }

  function Exec(s: System, ops: seq<Op>): System
    requires Legal(s, ops)
    decreases |ops|
  {
    if ops == [] then s else Exec(Step(s, ops[0]), ops[1..])
  }

  lemma {:induction false} StepInv(s: System, op: Op)
    requires Inv(s) && Enabled(s, op)
    ensures Inv(Step(s, op))
  {
    match op
    case Create => CreatedInv(s);
    case Spawn(p, entry, block) => SpawnedInv(s, p, entry, block);
    case Kill => KilledInv(s);
    case Preempt(stack) => PreemptedInv(s, stack);
  }

  /** Every run keeps the invariant: the thread table, the run queue with the running thread, and the
      processes' tables always agree, each live thread being scheduled exactly once. */
  lemma {:induction false} RunInv(s: System, ops: seq<Op>)
    requires Inv(s) && Legal(s, ops)
    ensures Inv(Exec(s, ops))
    decreases |ops|
  {
    if ops != [] {
      StepInv(s, ops[0]);
      RunInv(Step(s, ops[0]), ops[1..]);
    }
  }

  /** What every call leaves of a process: its descriptors, and the local thread numbers it has handed out, of
      which a spawn takes one more. Spawning in a process that does not exist does nothing. */
  lemma {:induction false} StepKeepsProcesses(s: System, op: Op, p: int)
    requires Inv(s) && Enabled(s, op) && p in s.procs
    ensures var s' := Step(s, op);
            && p in s'.procs && s'.procs[p].fds == s.procs[p].fds && s'.procs[p].lfdCounter == s.procs[p].lfdCounter
            && s'.procs[p].threadCounter == s.procs[p].threadCounter + if op.Spawn? && op.proc == p then 1 else 0
    ensures op.Spawn? && op.proc !in s.procs ==> Step(s, op) == s
  {
    match op
    case Create => assert s.procCounter + 1 !in s.procs;
    case Spawn(_, _, _) =>
    case Kill =>
    case Preempt(stack) => TickKeepsProcess(s, stack, p);
  }

  lemma {:induction false} TickKeepsProcess(s: System, stack: nat, p: int)
    requires |s.queue| <= QUEUE_CAPACITY && CanIncrement(s) && p in s.procs
    ensures var s' := Preempted(s, stack).0;
            && p in s'.procs && s'.procs[p].fds == s.procs[p].fds && s'.procs[p].lfdCounter == s.procs[p].lfdCounter
            && s'.procs[p].threadCounter == s.procs[p].threadCounter
  {
    TickKeepsFds(s, stack);
    var s0 := Saved(s, stack);
    IncrementedShape(s0);
    RetiredKeepsCounter(s0, p);
  }

  lemma {:induction false} RetiredKeepsCounter(s: System, p: int)
    requires |s.queue| <= QUEUE_CAPACITY && p in s.procs
    ensures p in Retired(s).procs && Retired(s).procs[p].threadCounter == s.procs[p].threadCounter
  {
  }

  // ---------- A run that fills the thread table ----------

  function Spawns(p: int, entry: nat, block: nat, n: nat): seq<Op> {
    if n == 0 then [] else [Spawn(p, entry, block)] + Spawns(p, entry, block, n - 1)
  }

  /** The run is legal and ends in the given state. */
  ghost predicate Leads(s: System, ops: seq<Op>, s': System) {
    Legal(s, ops) && Exec(s, ops) == s'
  }

  lemma {:induction false} LeadsOn(s: System, op: Op, mid: System, ops: seq<Op>, s': System)
    requires Enabled(s, op) && mid == Step(s, op) && Leads(mid, ops, s')
    ensures Leads(s, [op] + ops, s')
  {
    assert ([op] + ops)[1..] == ops;
  }

  lemma {:induction false} SpawnGrows(s: System, p: int, entry: nat, block: nat) returns (s': System)
    requires Inv(s) && p in s.procs && |s.threads| < TABLE_CAPACITY
    ensures Enabled(s, Spawn(p, entry, block)) && s' == Step(s, Spawn(p, entry, block))
    ensures Inv(s') && p in s'.procs && |s'.threads| == |s.threads| + 1
  {
    SpawnedInRoom(s, p, entry, block);
    SpawnedInv(s, p, entry, block);
    s' := Step(s, Spawn(p, entry, block));
  }

  lemma {:induction false} SpawnsFill(s: System, p: int, entry: nat, block: nat, n: nat) returns (ops: seq<Op>, full: System)
    requires Inv(s) && p in s.procs && |s.threads| + n <= TABLE_CAPACITY
    ensures ops == Spawns(p, entry, block, n) && Leads(s, ops, full)
    ensures p in full.procs && |full.threads| == |s.threads| + n
    decreases n
  {
    ops, full := [], s;
    if n > 0 {
      var mid := SpawnGrows(s, p, entry, block);
      ops, full := SpawnsFill(mid, p, entry, block, n - 1);
      LeadsOn(s, Spawn(p, entry, block), mid, ops, full);
      ops := [Spawn(p, entry, block)] + ops;
    }
  }

  /** The kernel process can fill the thread table right after boot; the next thread it spawns is queued to
      run and in no table. */
  lemma {:induction false} SpawnsOverflow(entry: nat, block: nat)
    ensures var ops := Spawns(1, entry, block, 256);
            && Legal(Initial(), ops) && |Exec(Initial(), ops).queue| <= QUEUE_CAPACITY
            && var s := Spawned(Exec(Initial(), ops), 1, entry, block);
               !Inv(s) && exists t :: t in Threads(s.queue) && t !in s.threads
  {
    InitialInv();
    var ops, full := SpawnsFill(Initial(), 1, entry, block, 256);
    RunInv(Initial(), ops);
    SpawnedInv(full, 1, entry, block);
    SpawnedOverflows(full, 1, entry, block);
  }

  // ---------- A run to an empty queue ----------

  /** A tick of a system in which one thread waits and none runs enters that thread. */
  lemma {:induction false} LoneTick(s: System, t: Task, stack: nat) returns (s': System)
    requires Inv(s) && s.queue == [t] && s.current.thread == ID_INVALID && t.cpriority <= 0
    ensures Enabled(s, Preempt(stack)) && s' == Step(s, Preempt(stack))
    ensures Inv(s') && s'.queue == [] && s'.cthread == s'.current.thread && s'.cthread in s'.threads
  {
    PreemptedInv(s, stack);
    assert Incremented(s).current == t && Incremented(s).queue == [];
    s' := Step(s, Preempt(stack));
  }

  lemma {:induction false} LoneSpawn(entry: nat, block: nat) returns (s': System)
    ensures Enabled(Initial(), Spawn(1, entry, block)) && s' == Step(Initial(), Spawn(1, entry, block))
    ensures Inv(s') && s'.queue == [Task(0, 0, 0)] && s'.current == NO_TASK
  {
    InitialInv();
    s' := SpawnGrows(Initial(), 1, entry, block);
    SpawnedInRoom(Initial(), 1, entry, block);
  }

  lemma {:induction false} TickAndKill(s: System, stack: nat, s': System)
    requires Enabled(s, Preempt(stack)) && s' == Step(s, Preempt(stack)) && |s'.queue| <= QUEUE_CAPACITY
    ensures Leads(s, [Preempt(stack), Kill], Killed(s'))
  {
    LeadsOn(s', Kill, Killed(s'), [], Killed(s'));
    LeadsOn(s, Preempt(stack), s', [Kill] + [], Killed(s'));
    assert [Preempt(stack)] + ([Kill] + []) == [Preempt(stack), Kill];
  }

  /** The kernel's only thread can end: after it was spawned, run and killed, the next tick has nothing to
      run and pops an empty queue. */
  lemma {:induction false} NothingLeftToRun(entry: nat, block: nat, stack: nat)
    ensures var ops := [Spawn(1, entry, block), Preempt(stack), Kill];
            && Legal(Initial(), ops) && Exec(Initial(), ops).queue == [] && !CanIncrement(Exec(Initial(), ops))
  {
    var s1 := LoneSpawn(entry, block);
    var s2 := LoneTick(s1, Task(0, 0, 0), stack);
    TickAndKill(s1, stack, s2);
    LeadsOn(Initial(), Spawn(1, entry, block), s1, [Preempt(stack), Kill], Killed(s2));
    assert [Spawn(1, entry, block)] + [Preempt(stack), Kill] == [Spawn(1, entry, block), Preempt(stack), Kill];
  }

  // ---------- The dead stay dead ----------

  /** Apart from a stack pointer and a state, a tick is an increment. */
  lemma {:induction false} TickIsIncrement(s: System, stack: nat)
    requires Enabled(s, Preempt(stack))
    ensures var s0, s' := Saved(s, stack), Step(s, Preempt(stack));
            && CanIncrement(s0) && s0.queue == s.queue && s0.current == s.current
            && s'.queue == Incremented(s0).queue && s'.current == Incremented(s0).current
            && s'.threads.Keys == Incremented(s0).threads.Keys && s'.threadCounter == s.threadCounter
            && s'.cthread == s'.current.thread
  {
  }

  /** A tick keeps threads that were there and not dead, and makes none. */
  lemma {:induction false} TickThreads(s: System, stack: nat)
    requires Inv(s) && Enabled(s, Preempt(stack))
    ensures var s' := Step(s, Preempt(stack));
            && s'.threadCounter == s.threadCounter
            && forall u :: u in s'.threads ==> u in s.threads && s.threads[u].state != Dead
  {
    var s0, s' := Saved(s, stack), Step(s, Preempt(stack));
    WithStackInv(s, s.current.thread, stack);
    TickIsIncrement(s, stack);
    IncrementedInv(s0);
    forall u | u in s'.threads.Keys
      ensures u in s.threads && s.threads[u].state != Dead
    {
      assert u in s0.threads && s0.threads[u].state != Dead;
    }
  }

  lemma {:induction false} GoneStep(s: System, op: Op, t: int)
    requires Inv(s) && Enabled(s, op) && t < s.threadCounter && t !in s.threads
    ensures t !in Step(s, op).threads && t < Step(s, op).threadCounter
  {
    if op.Preempt? {
      TickThreads(s, op.stack);
    }
  }

  lemma {:induction false} GoneStays(s: System, ops: seq<Op>, t: int)
    requires Inv(s) && Legal(s, ops) && t < s.threadCounter && t !in s.threads
    ensures t !in Exec(s, ops).threads
    decreases |ops|
  {
    if ops != [] {
      StepInv(s, ops[0]);
      GoneStep(s, ops[0], t);
      GoneStays(Step(s, ops[0]), ops[1..], t);
    }
  }

  ghost predicate Dying(s: System, t: int) {
    s.current.thread == t && t in s.threads && s.threads[t].state == Dead
  }

  lemma {:induction false} DyingStep(s: System, op: Op, t: int)
    requires Inv(s) && Enabled(s, op) && Dying(s, t)
    ensures if op.Preempt? then t !in Step(s, op).threads && t < Step(s, op).threadCounter else Dying(Step(s, op), t)
  {
    RosterSize(s);
    if op.Preempt? {
      TickThreads(s, op.stack);
    }
  }

  lemma {:induction false} DyingDies(s: System, ops: seq<Op>, t: int)
    requires Inv(s) && Legal(s, ops) && Dying(s, t) && Ticks(ops) > 0
    ensures t !in Exec(s, ops).threads
    decreases |ops|
  {
    var s' := Step(s, ops[0]);
    StepInv(s, ops[0]);
    DyingStep(s, ops[0], t);
    if ops[0].Preempt? {
      GoneStays(s', ops[1..], t);
    } else {
      DyingDies(s', ops[1..], t);
    }
  }

  /** A killed thread is out of every table after the next tick, and stays out: whatever follows, it is
      neither running nor queued again. */
  lemma {:induction false} KilledIsGone(s: System, ops: seq<Op>)
    requires Inv(s) && s.cthread != ID_INVALID && Legal(Killed(s), ops) && Ticks(ops) > 0
    ensures var s' := Exec(Killed(s), ops);
            && s.cthread !in s'.threads && s'.cthread != s.cthread && s.cthread !in Threads(s'.queue)
            && forall p, l :: p in s'.procs && l in s'.procs[p].threads ==> s'.procs[p].threads[l] != s.cthread
  {
    RosterSize(s);
    KilledInv(s);
    RunInv(Killed(s), ops);
    DyingDies(Killed(s), ops, s.cthread);
    RosterSize(Exec(Killed(s), ops));
  }

  function Ticks(ops: seq<Op>): nat {
    if ops == [] then 0 else (if ops[0].Preempt? then 1 else 0) + Ticks(ops[1..])
  }

  // ---------- Whom a tick chooses ----------

  /** The tasks a tick chooses among: those queued, and behind them the running one, unless it is dead, with
      its whole priority to wait again. */
  function Contenders(s: System): seq<Task> {
    var c := s.current;
    s.queue
    + if c.thread != ID_INVALID && c.thread in s.threads && s.threads[c.thread].state != Dead then
        [Task(c.thread, c.priority, c.priority)]
      else []
  }

  lemma {:induction false} RetiredIsContenders(s: System)
    requires Inv(s) && |s.queue| <= QUEUE_CAPACITY
    ensures Retired(s).queue == Contenders(s)
  {
    RosterSize(s);
  }

  lemma {:induction false} SavedContenders(s: System, stack: nat)
    ensures Contenders(Saved(s, stack)) == Contenders(s)
  {
  }

  lemma {:induction false} IncrementChoice(s: System, q: seq<Task>, k: nat)
    requires Inv(s) && CanIncrement(s) && |s.queue| <= QUEUE_CAPACITY && q == Contenders(s) && IsNext(q, k)
    ensures var m, s' := Wait(q[k]), Incremented(s);
            s'.current == LowerBy(q[k], m) && s'.queue == Lower(q[k + 1..], m) + Lower(q[..k], m + 1)
  {
    RetiredIsContenders(s);
    ClosedForm(q, k);
  }

  lemma {:induction false} SavedChoice(s: System, stack: nat, q: seq<Task>, k: nat)
    requires Inv(s) && CanIncrement(s) && |s.queue| <= QUEUE_CAPACITY && q == Contenders(s) && IsNext(q, k)
    ensures var m, s' := Wait(q[k]), Incremented(Saved(s, stack));
            s'.current == LowerBy(q[k], m) && s'.queue == Lower(q[k + 1..], m) + Lower(q[..k], m + 1)
  {
    WithStackInv(s, s.current.thread, stack);
    SavedContenders(s, stack);
    IncrementChoice(Saved(s, stack), q, k);
  }

  /** A tick runs the leftmost contender of least wait `m`; those behind it wait `m` ticks less, and those
      before it go to the back, waiting one tick less still. */
  lemma {:induction false} TickChoice(s: System, stack: nat, k: nat)
    requires Inv(s) && Enabled(s, Preempt(stack)) && IsNext(Contenders(s), k)
    ensures var q, m, s' := Contenders(s), Wait(Contenders(s)[k]), Step(s, Preempt(stack));
            && s'.current == LowerBy(q[k], m) && s'.cthread == q[k].thread
            && s'.queue == Lower(q[k + 1..], m) + Lower(q[..k], m + 1)
  {
    SavedChoice(s, stack, Contenders(s), k);
    TickIsIncrement(s, stack);
  }

  // ---------- Starvation freedom ----------

  /** The thread runs after some call of the run. */
  predicate Runs(s: System, ops: seq<Op>, t: int)
    requires Legal(s, ops)
    decreases |ops|
  {
    ops != [] && (Step(s, ops[0]).current.thread == t || Runs(Step(s, ops[0]), ops[1..], t))
  }

  lemma {:induction false} RetiredRank(s: System, t: int)
    requires Inv(s) && |s.queue| <= QUEUE_CAPACITY && t in Threads(s.queue)
    ensures t in Threads(Retired(s).queue) && Rank(Retired(s).queue, t) == Rank(s.queue, t)
  {
    RosterSize(s);
    var c := s.current;
    if c.thread != ID_INVALID && StateOf(s, c.thread) != Dead {
      PositionAppend(s.queue, t, [Retired(s).current]);
    }
  }

  lemma {:induction false} IncrementLowersRank(s: System, t: int)
    requires Inv(s) && CanIncrement(s) && |s.queue| <= QUEUE_CAPACITY && t in Threads(s.queue)
    ensures var s' := Incremented(s);
            s'.current.thread == t || (t in Threads(s'.queue) && Rank(s'.queue, t) < Rank(s.queue, t))
  {
    RetiredRank(s, t);
    RetiredInv(s);
    var r := Retired(s);
    assert multiset(Threads(r.queue))[t] == multiset(r.threads.Keys)[t] <= 1;
    AgeLowersRank(r.queue, t);
    AgePops(r.queue);
  }

  lemma {:induction false} TickLowersRank(s: System, stack: nat, t: int)
    requires Inv(s) && Enabled(s, Preempt(stack)) && t in Threads(s.queue)
    ensures var s' := Step(s, Preempt(stack));
            s'.current.thread == t || (t in Threads(s'.queue) && Rank(s'.queue, t) < Rank(s.queue, t))
  {
    WithStackInv(s, s.current.thread, stack);
    TickIsIncrement(s, stack);
    IncrementLowersRank(Saved(s, stack), t);
  }

  lemma {:induction false} AgePops(q: seq<Task>)
    requires q != []
    ensures Age(q).pops >= 1
  {
  }

  lemma {:induction false} SpawnedQueue(s: System, p: int, entry: nat, block: nat)
    requires p in s.procs && |s.queue| < QUEUE_CAPACITY
    ensures var s' := Spawned(s, p, entry, block);
            s'.current == s.current && s'.queue == s.queue + [Task(s.threadCounter, 0, 0)]
  {
  }

  /** Calls other than a tick at most queue a new thread. */
  lemma {:induction false} OtherQueue(s: System, op: Op)
    requires Inv(s) && Enabled(s, op) && !op.Preempt?
    ensures Step(s, op).current == s.current
    ensures Step(s, op).queue == s.queue || Step(s, op).queue == s.queue + [Task(s.threadCounter, 0, 0)]
  {
    if op.Spawn? && op.proc in s.procs {
      assert |s.queue| < QUEUE_CAPACITY by {
        RosterSize(s);
      }
      SpawnedQueue(s, op.proc, op.entry, op.block);
    }
  }

  lemma {:induction false} OtherStepsKeepRank(s: System, op: Op, t: int)
    requires Inv(s) && Enabled(s, op) && !op.Preempt? && t in Threads(s.queue)
    ensures t in Threads(Step(s, op).queue) && Rank(Step(s, op).queue, t) == Rank(s.queue, t)
  {
    OtherQueue(s, op);
    PositionAppend(s.queue, t, [Task(s.threadCounter, 0, 0)]);
  }

  /** Whatever else is spawned or dies, a queued thread runs within `256 * wait + position + 1` ticks. */
  lemma {:induction false} NoStarvation(s: System, ops: seq<Op>, t: int)
    requires Inv(s) && Legal(s, ops) && t in Threads(s.queue)
    requires Ticks(ops) > Rank(s.queue, t)
    ensures Runs(s, ops, t)
    decreases |ops|
  {
    var op, s' := ops[0], Step(s, ops[0]);
    StepInv(s, op);
    if op.Preempt? {
      TickLowersRank(s, op.stack, t);
    } else {
      OtherStepsKeepRank(s, op, t);
    }
    if s'.current.thread != t {
      NoStarvation(s', ops[1..], t);
    }
  }

  // ---------- Turn by turn ----------

  predicate PlainTask(t: Task) {
    t.priority == 0 && t.cpriority == 0
  }

  /** Nobody has a priority: the kernel spawns every thread with priority 0. */
  predicate Plain(s: System) {
    && (forall i :: 0 <= i < |s.queue| ==> PlainTask(s.queue[i]))
    && (s.current.thread != ID_INVALID ==> PlainTask(s.current))
  }

  lemma {:induction false} PlainRetired(s: System)
    requires Inv(s) && |s.queue| <= QUEUE_CAPACITY && Plain(s)
    ensures var q := Retired(s).queue;
            s.queue <= q && forall i :: 0 <= i < |q| ==> PlainTask(q[i])
  {
    RosterSize(s);
  }

  lemma {:induction false} PlainIncrement(s: System)
    requires Inv(s) && CanIncrement(s) && |s.queue| <= QUEUE_CAPACITY && Plain(s)
    ensures Plain(Incremented(s))
    ensures s.queue != [] ==> Incremented(s).current == s.queue[0] && s.queue[1..] <= Incremented(s).queue
  {
    PlainRetired(s);
    var q := Retired(s).queue;
    assert q != [] by {
      RetiredInv(s);
    }
    assert PlainTask(q[0]) && Age(q) == Pick(q[0], q[1..], 1);
  }

  lemma {:induction false} PlainTick(s: System, stack: nat)
    requires Inv(s) && Enabled(s, Preempt(stack)) && Plain(s)
    ensures var s' := Step(s, Preempt(stack));
            Plain(s') && (s.queue != [] ==> s'.current == s.queue[0] && s.queue[1..] <= s'.queue)
  {
    WithStackInv(s, s.current.thread, stack);
    PlainIncrement(Saved(s, stack));
    TickIsIncrement(s, stack);
  }

  lemma {:induction false} PlainOther(s: System, op: Op)
    requires Inv(s) && Enabled(s, op) && Plain(s) && !op.Preempt?
    ensures Plain(Step(s, op)) && Step(s, op).current == s.current && s.queue <= Step(s, op).queue
  {
    OtherQueue(s, op);
  }

  lemma {:induction false} PlainStep(s: System, op: Op)
    requires Inv(s) && Enabled(s, op) && Plain(s)
    ensures Plain(Step(s, op))
    ensures op.Preempt? && s.queue != [] ==>
              Step(s, op).current == s.queue[0] && s.queue[1..] <= Step(s, op).queue
    ensures !op.Preempt? ==> Step(s, op).current == s.current && s.queue <= Step(s, op).queue
  {
    if op.Preempt? {
      PlainTick(s, op.stack);
    } else {
      PlainOther(s, op);
    }
  }

  /** The ticks up to the first one that runs thread `t`. */
  function TicksUntil(s: System, ops: seq<Op>, t: int): nat
    requires Legal(s, ops) && Runs(s, ops, t)
    decreases |ops|
  {
    (if ops[0].Preempt? then 1 else 0)
    + if Step(s, ops[0]).current.thread == t then 0 else TicksUntil(Step(s, ops[0]), ops[1..], t)
  }

  /** The queue grows at its end, or loses its first task and grows. */
  lemma {:induction false} PositionMoves(q: seq<Task>, longer: seq<Task>, t: int)
    requires t in Threads(q)
    ensures q <= longer ==> t in Threads(longer) && Position(longer, t) == Position(q, t)
    ensures q[0].thread == t ==> Position(q, t) == 0
    ensures q[0].thread != t && q[1..] <= longer ==> t in Threads(longer) && Position(longer, t) + 1 == Position(q, t)
  {
    var i := Position(q, t);
    if q <= longer {
      PositionIs(longer, t, i);
    }
    if q[0].thread != t && q[1..] <= longer {
      assert longer[i - 1] == q[1..][i - 1] && forall j :: 0 <= j < i - 1 ==> longer[j] == q[1..][j];
      PositionIs(longer, t, i - 1);
    }
  }

  /** Without priorities a queued thread runs at exactly the tick that its place in the queue says. */
  lemma {:induction false} ExactTurn(s: System, ops: seq<Op>, t: int)
    requires Inv(s) && Plain(s) && Legal(s, ops) && t in Threads(s.queue) && Runs(s, ops, t)
    ensures TicksUntil(s, ops, t) == Position(s.queue, t) + 1
    decreases |ops|
  {
    var op, s' := ops[0], Step(s, ops[0]);
    StepInv(s, op);
    PlainStep(s, op);
    PositionMoves(s.queue, s'.queue, t);
    assert s'.current.thread == t ==> op.Preempt? by {
      RosterSize(s);
    }
    if s'.current.thread != t {
      ExactTurn(s', ops[1..], t);
    }
  }

  lemma {:induction false} RunPlain(s: System, ops: seq<Op>)
    requires Inv(s) && Plain(s) && Legal(s, ops)
    ensures Inv(Exec(s, ops)) && Plain(Exec(s, ops))
    decreases |ops|
  {
    if ops != [] {
      StepInv(s, ops[0]);
      PlainStep(s, ops[0]);
      RunPlain(Step(s, ops[0]), ops[1..]);
    }
  }

  /** In every state reached from boot the ageing never acts: whatever follows, a queued thread at
      position `i` runs at the tick number `i + 1`, if there are as many, and not before. */
  lemma {:induction false} RoundRobin(before: seq<Op>, after: seq<Op>, t: int)
    requires Legal(Initial(), before) && Legal(Exec(Initial(), before), after)
    requires t in Threads(Exec(Initial(), before).queue)
    ensures var s := Exec(Initial(), before);
            && (Ticks(after) > Position(s.queue, t) ==> Runs(s, after, t))
            && (Runs(s, after, t) ==> TicksUntil(s, after, t) == Position(s.queue, t) + 1)
  {
    InitialInv();
    RunPlain(Initial(), before);
    var s := Exec(Initial(), before);
    assert PlainTask(s.queue[Position(s.queue, t)]);
    if Ticks(after) > Position(s.queue, t) {
      NoStarvation(s, after, t);
    }
    if Runs(s, after, t) {
      ExactTurn(s, after, t);
    }
  }

  // ---------- Context switching ----------

  /** What a run makes visible to a thread. */
  datatype Event = Born(thread: int, entry: nat, stack: nat) | Left(thread: int, stack: nat) | Entered(how: Dispatch)

  /** The first event of a tick, when some thread is running. */
  function Leaving(s: System, stack: nat): seq<Event> {
    if s.current.thread != ID_INVALID then [Left(s.current.thread, stack)] else []
  }

  function Events(s: System, op: Op): seq<Event>
    requires Enabled(s, op)
  {
    match op
    case Spawn(p, entry, block) =>
      if p in s.procs then [Born(s.threadCounter, entry, block + THREAD_STACK_SIZE)] else []
    case Preempt(stack) => Leaving(s, stack) + [Entered(Preempted(s, stack).1)]
    case _ => []
  }

  function Log(s: System, ops: seq<Op>): seq<Event>
    requires Legal(s, ops)
    decreases |ops|
  {
    if ops == [] then [] else Events(s, ops[0]) + Log(Step(s, ops[0]), ops[1..])
  }

  /** The stack pointer with which `t` last left the processor. */
  function LastLeft(log: seq<Event>, t: int): Option<nat> {
    if log == [] then None
    else
      var e := log[|log| - 1];
      if e.Left? && e.thread == t then Some(e.stack) else LastLeft(log[..|log| - 1], t)
  }

  predicate Booted(log: seq<Event>, t: int) {
    exists e :: e in log && e.Entered? && e.how.Boot? && e.how.thread == t
  }

  /** `t` was spawned with this entry and this stack. */
  predicate BornWith(log: seq<Event>, t: int, entry: nat, stack: nat) {
    Born(t, entry, stack) in log
  }

  /** An entry into a thread is the first one, as spawned, or takes it up where it last left. */
  ghost predicate GoodEntry(before: seq<Event>, how: Dispatch) {
    match how
    case Boot(t, entry, stack) => !Booted(before, t) && BornWith(before, t, entry, stack)
    case Resume(t, stack) => Booted(before, t) && LastLeft(before, t) == Some(stack)
  }

  ghost predicate GoodLog(log: seq<Event>) {
    forall n :: 0 <= n < |log| && log[n].Entered? ==> GoodEntry(log[..n], log[n].how)
  }

  /** The thread that entered the processor and has not left it. */
  function OnCpu(log: seq<Event>): Option<int> {
    if log == [] then None
    else
      var e := log[|log| - 1];
      if e.Entered? then Some(e.how.thread) else if e.Left? then None else OnCpu(log[..|log| - 1])
  }

  /** Nobody enters before the last one has left, and only the one that entered leaves. */
  ghost predicate Alternates(log: seq<Event>) {
    forall n :: 0 <= n < |log| ==>
      && (log[n].Entered? ==> OnCpu(log[..n]) == None)
      && (log[n].Left? ==> OnCpu(log[..n]) == Some(log[n].thread))
  }

  function RunningThread(s: System): Option<int> {
    if s.current.thread == ID_INVALID then None else Some(s.current.thread)
  }

  lemma {:induction false} AlternatesMore(log: seq<Event>, e: Event)
    requires Alternates(log)
    requires e.Entered? ==> OnCpu(log) == None
    requires e.Left? ==> OnCpu(log) == Some(e.thread)
    ensures Alternates(log + [e])
    ensures OnCpu(log + [e]) == if e.Entered? then Some(e.how.thread) else if e.Left? then None else OnCpu(log)
  {
    var l := log + [e];
    assert l[..|log|] == log;
    forall n | 0 <= n < |l|
      ensures l[n].Entered? ==> OnCpu(l[..n]) == None
      ensures l[n].Left? ==> OnCpu(l[..n]) == Some(l[n].thread)
    {
      assert l[..n] == log[..n];
    }
  }

  lemma {:induction false} ChosenIsEntered(s: System)
    ensures Chosen(s).1.thread == s.current.thread == Chosen(s).0.current.thread && Chosen(s).0.cthread == s.cthread
  {
  }

  lemma {:induction false} TickEntersCurrent(s: System, stack: nat)
    requires Enabled(s, Preempt(stack))
    ensures var how, s' := Preempted(s, stack).1, Step(s, Preempt(stack));
            && Events(s, Preempt(stack)) == Leaving(s, stack) + [Entered(how)]
            && how.thread == s'.current.thread == s'.cthread
  {
    TickIsIncrement(s, stack);
    ChosenIsEntered(Incremented(Saved(s, stack)));
  }

  /** The thread that a tick enters is the one that runs after it. */
  lemma {:induction false} TickEnters(s: System, stack: nat)
    requires Inv(s) && Enabled(s, Preempt(stack))
    ensures var how, s' := Preempted(s, stack).1, Step(s, Preempt(stack));
            && Events(s, Preempt(stack)) == Leaving(s, stack) + [Entered(how)]
            && how.thread == s'.current.thread == s'.cthread != ID_INVALID
  {
    TickEntersCurrent(s, stack);
    PreemptedInv(s, stack);
  }

  /** One thread leaves, if one was on the processor, and another enters. */
  lemma {:induction false} SwitchAlternates(log: seq<Event>, left: seq<Event>, e: Event)
    requires Alternates(log) && e.Entered?
    requires left == [] ==> OnCpu(log) == None
    requires left != [] ==> |left| == 1 && left[0].Left? && OnCpu(log) == Some(left[0].thread)
    ensures Alternates(log + (left + [e])) && OnCpu(log + (left + [e])) == Some(e.how.thread)
  {
    if left == [] {
      assert left + [e] == [e];
      AlternatesMore(log, e);
    } else {
      AlternatesMore(log, left[0]);
      AlternatesMore(log + [left[0]], e);
      assert log + (left + [e]) == log + [left[0]] + [e];
    }
  }

  lemma {:induction false} TickAlternates(s: System, stack: nat, log: seq<Event>)
    requires Inv(s) && Enabled(s, Preempt(stack)) && Alternates(log) && OnCpu(log) == RunningThread(s)
    ensures var log', s' := log + Events(s, Preempt(stack)), Step(s, Preempt(stack));
            Alternates(log') && OnCpu(log') == RunningThread(s')
  {
    TickEnters(s, stack);
    SwitchAlternates(log, Leaving(s, stack), Entered(Preempted(s, stack).1));
  }

  lemma {:induction false} StepAlternates(s: System, op: Op, log: seq<Event>)
    requires Inv(s) && Enabled(s, op) && Alternates(log) && OnCpu(log) == RunningThread(s)
    ensures Alternates(log + Events(s, op)) && OnCpu(log + Events(s, op)) == RunningThread(Step(s, op))
  {
    if op.Preempt? {
      TickAlternates(s, op.stack, log);
    } else {
      OtherQueue(s, op);
      if op.Spawn? && op.proc in s.procs {
        AlternatesMore(log, Events(s, op)[0]);
      } else {
        assert log + [] == log;
      }
    }
  }

  lemma {:induction false} RunAlternates(s: System, ops: seq<Op>, log: seq<Event>)
    requires Inv(s) && Legal(s, ops) && Alternates(log) && OnCpu(log) == RunningThread(s)
    ensures Alternates(log + Log(s, ops)) && OnCpu(log + Log(s, ops)) == RunningThread(Exec(s, ops))
    decreases |ops|
  {
    if ops == [] {
      assert log + [] == log;
    } else {
      var events, s' := Events(s, ops[0]), Step(s, ops[0]);
      StepInv(s, ops[0]);
      StepAlternates(s, ops[0], log);
      RunAlternates(s', ops[1..], log + events);
      JoinsAssociate(log, events, Log(s', ops[1..]));
    }
  }

  /** The state before each call of a run. */
  function StateAt(s: System, ops: seq<Op>, i: nat): System
    requires Legal(s, ops) && i <= |ops|
    decreases i
  {
    if i == 0 then s else StateAt(Step(s, ops[0]), ops[1..], i - 1)
  }

  lemma {:induction false} StateAtNext(s: System, ops: seq<Op>, i: nat)
    requires Inv(s) && Legal(s, ops) && i < |ops|
    ensures var s' := StateAt(s, ops, i);
            Inv(s') && Enabled(s', ops[i]) && StateAt(s, ops, i + 1) == Step(s', ops[i])
    decreases i
  {
    if i > 0 {
      StepInv(s, ops[0]);
      StateAtNext(Step(s, ops[0]), ops[1..], i - 1);
    } else {
      assert StateAt(s, ops, 1) == StateAt(Step(s, ops[0]), ops[1..], 0);
    }
  }

  /** In every run each tick enters the thread that is current after it. */
  lemma {:induction false} EveryTickEnters(s: System, ops: seq<Op>, i: nat)
    requires Inv(s) && Legal(s, ops) && i < |ops| && ops[i].Preempt?
    ensures Enabled(StateAt(s, ops, i), ops[i])
    ensures var events, s' := Events(StateAt(s, ops, i), ops[i]), StateAt(s, ops, i + 1);
            && events != [] && events[|events| - 1].Entered?
            && events[|events| - 1].how.thread == s'.current.thread == s'.cthread
  {
    StateAtNext(s, ops, i);
    TickEnters(StateAt(s, ops, i), ops[i].stack);
  }

  /** What the log says of a thread; of one that is away from the processor also where it left. */
  ghost predicate Knows(log: seq<Event>, t: int, thread: Thread, away: bool) {
    if thread.state == New then !Booted(log, t) && BornWith(log, t, thread.entry, thread.stack)
    else Booted(log, t) && (away ==> LastLeft(log, t) == Some(thread.stack))
  }

  ghost predicate Recalls(s: System, log: seq<Event>, t: int) {
    && (t in s.threads ==> Knows(log, t, s.threads[t], t != s.current.thread))
    && (t >= s.threadCounter ==> !Booted(log, t))
  }

  ghost predicate Remembers(s: System, log: seq<Event>) {
    forall t :: Recalls(s, log, t)
  }

  /** The same in the middle of a tick, when nobody is on the processor. */
  ghost predicate RecallsAway(s: System, log: seq<Event>, t: int) {
    && (t in s.threads ==> Knows(log, t, s.threads[t], true))
    && (t >= s.threadCounter ==> !Booted(log, t))
  }

  ghost predicate AllAway(s: System, log: seq<Event>) {
    forall t :: RecallsAway(s, log, t)
  }

  lemma {:induction false} Append(log: seq<Event>, e: Event, t: int)
    ensures LastLeft(log + [e], t) == if e.Left? && e.thread == t then Some(e.stack) else LastLeft(log, t)
    ensures Booted(log + [e], t) <==> Booted(log, t) || (e.Entered? && e.how.Boot? && e.how.thread == t)
    ensures forall entry, stack :: BornWith(log, t, entry, stack) ==> BornWith(log + [e], t, entry, stack)
  {
    assert (log + [e])[..|log|] == log;
    if Booted(log, t) {
      var b :| b in log && b.Entered? && b.how.Boot? && b.how.thread == t;
      assert b in log + [e];
    }
    assert e in log + [e];
  }

  lemma {:induction false} GoodAppend(log: seq<Event>, e: Event)
    requires GoodLog(log) && (e.Entered? ==> GoodEntry(log, e.how))
    ensures GoodLog(log + [e])
  {
    var l := log + [e];
    forall n | 0 <= n < |l| && l[n].Entered?
      ensures GoodEntry(l[..n], l[n].how)
    {
      assert l[..n] == log[..n];
    }
  }

  /** A birth changes nothing for the others. */
  lemma {:induction false} KnowsStill(log: seq<Event>, e: Event, t: int)
    requires e.Born?
    ensures Booted(log + [e], t) <==> Booted(log, t)
    ensures forall thread, away :: Knows(log, t, thread, away) ==> Knows(log + [e], t, thread, away)
  {
    Append(log, e, t);
  }

  lemma {:induction false} SpawnRemembers(s: System, op: Op, log: seq<Event>)
    requires Inv(s) && Enabled(s, op) && op.Spawn? && op.proc in s.procs
    requires Remembers(s, log)
    ensures Remembers(Step(s, op), log + Events(s, op))
  {
    SpawnedInRoom(s, op.proc, op.entry, op.block);
    BornRemembers(s, Step(s, op), s.threadCounter, Step(s, op).threads[s.threadCounter], log);
  }

  lemma {:induction false} BornRemembers(s: System, s': System, id: int, thread: Thread, log: seq<Event>)
    requires Remembers(s, log) && thread.state == New && id == s.threadCounter && id != s.current.thread
    requires s'.threads == s.threads[id := thread] && s'.threadCounter == id + 1 && s'.current == s.current
    ensures Remembers(s', log + [Born(id, thread.entry, thread.stack)])
  {
    var e := Born(id, thread.entry, thread.stack);
    assert e in log + [e];
    forall t
      ensures Recalls(s', log + [e], t)
    {
      assert Recalls(s, log, t);
      KnowsStill(log, e, t);
    }
  }

  /** The first part of a tick: the running thread leaves and its stack pointer is saved. */
  lemma {:induction false} LeaveAway(s: System, stack: nat, log: seq<Event>)
    requires Inv(s) && Remembers(s, log) && s.current.thread != ID_INVALID
    ensures AllAway(WithStack(s, s.current.thread, stack), log + [Left(s.current.thread, stack)])
  {
    RosterSize(s);
    var c := s.current.thread;
    var e, s0 := Left(c, stack), WithStack(s, c, stack);
    forall t
      ensures RecallsAway(s0, log + [e], t)
    {
      assert Recalls(s, log, t);
      Append(log, e, t);
    }
  }

  lemma {:induction false} SaveAway(s: System, stack: nat, log: seq<Event>)
    requires Inv(s) && Remembers(s, log) && GoodLog(log)
    ensures var s0, log0 := Saved(s, stack), log + Leaving(s, stack);
            Inv(s0) && AllAway(s0, log0) && GoodLog(log0)
  {
    var c := s.current.thread;
    WithStackInv(s, c, stack);
    if c != ID_INVALID {
      LeaveAway(s, stack, log);
      GoodAppend(log, Left(c, stack));
    } else {
      assert log + [] == log;
      forall t
        ensures RecallsAway(s, log, t)
      {
        assert Recalls(s, log, t);
      }
    }
  }

  /** The dispatch changes no thread that stays. */
  lemma {:induction false} IncrementAway(s: System, log: seq<Event>)
    requires Inv(s) && CanIncrement(s) && |s.queue| <= QUEUE_CAPACITY && AllAway(s, log)
    ensures AllAway(Incremented(s), log)
  {
    IncrementedInv(s);
    forall t
      ensures RecallsAway(Incremented(s), log, t)
    {
      assert RecallsAway(s, log, t);
    }
  }

  /** The last part of a tick: the chosen thread is entered. */
  lemma {:induction false} EnterRemembers(s: System, log: seq<Event>)
    requires AllAway(s, log) && s.current.thread in s.threads && s.current.thread < s.threadCounter
    ensures var (s', how) := Chosen(s);
            GoodEntry(log, how) && Remembers(s', log + [Entered(how)])
  {
    var (s', how) := Chosen(s);
    var t, e := s.current.thread, Entered(how);
    assert RecallsAway(s, log, t);
    forall u
      ensures Recalls(s', log + [e], u)
    {
      assert RecallsAway(s, log, u);
      Append(log, e, u);
    }
  }

  /** The dispatch and the entry together. */
  lemma {:induction false} DispatchRemembers(s: System, log: seq<Event>)
    requires Inv(s) && CanIncrement(s) && |s.queue| <= QUEUE_CAPACITY && AllAway(s, log) && GoodLog(log)
    ensures var (s', how) := Chosen(Incremented(s));
            Remembers(s', log + [Entered(how)]) && GoodLog(log + [Entered(how)])
  {
    IncrementAway(s, log);
    IncrementedInv(s);
    EnterRemembers(Incremented(s), log);
    GoodAppend(log, Entered(Chosen(Incremented(s)).1));
  }

  lemma {:induction false} TickEvents(s: System, stack: nat, log: seq<Event>)
    requires Enabled(s, Preempt(stack))
    ensures CanIncrement(Saved(s, stack)) && |Saved(s, stack).queue| <= QUEUE_CAPACITY
    ensures var (s', how) := Chosen(Incremented(Saved(s, stack)));
            && Step(s, Preempt(stack)) == s'
            && log + Events(s, Preempt(stack)) == log + Leaving(s, stack) + [Entered(how)]
  {
  }

  lemma {:induction false} TickRemembers(s: System, stack: nat, log: seq<Event>)
    requires Inv(s) && Enabled(s, Preempt(stack)) && Remembers(s, log) && GoodLog(log)
    ensures Remembers(Step(s, Preempt(stack)), log + Events(s, Preempt(stack)))
    ensures GoodLog(log + Events(s, Preempt(stack)))
  {
    SaveAway(s, stack, log);
    TickEvents(s, stack, log);
    DispatchRemembers(Saved(s, stack), log + Leaving(s, stack));
  }

  lemma {:induction false} QuietRemembers(s: System, op: Op, log: seq<Event>)
    requires Inv(s) && Enabled(s, op) && Remembers(s, log)
    requires op.Create? || op.Kill? || (op.Spawn? && op.proc !in s.procs)
    ensures Remembers(Step(s, op), log)
  {
    RosterSize(s);
    var s' := Step(s, op);
    forall t
      ensures Recalls(s', log, t)
    {
      assert Recalls(s, log, t);
    }
  }

  lemma {:induction false} StepRemembers(s: System, op: Op, log: seq<Event>)
    requires Inv(s) && Enabled(s, op) && Remembers(s, log) && GoodLog(log)
    ensures Remembers(Step(s, op), log + Events(s, op)) && GoodLog(log + Events(s, op))
  {
    if op.Preempt? {
      TickRemembers(s, op.stack, log);
    } else if op.Spawn? && op.proc in s.procs {
      SpawnRemembers(s, op, log);
      GoodAppend(log, Born(s.threadCounter, op.entry, op.block + THREAD_STACK_SIZE));
    } else {
      assert log + [] == log;
      QuietRemembers(s, op, log);
    }
  }

  lemma {:induction false} ContextFrom(s: System, ops: seq<Op>, log: seq<Event>)
    requires Inv(s) && Legal(s, ops) && Remembers(s, log) && GoodLog(log)
    ensures GoodLog(log + Log(s, ops)) && Remembers(Exec(s, ops), log + Log(s, ops))
    decreases |ops|
  {
    if ops == [] {
      assert log + [] == log;
    } else {
      var events, s' := Events(s, ops[0]), Step(s, ops[0]);
      StepInv(s, ops[0]);
      StepRemembers(s, ops[0], log);
      ContextFrom(s', ops[1..], log + events);
      JoinsAssociate(log, events, Log(s', ops[1..]));
    }
  }

  // ---------- Bootstrapped exactly once ----------

  /** How often the log enters `t` at its entry. */
  function Boots(log: seq<Event>, t: int): nat {
    if log == [] then 0
    else
      var e := log[|log| - 1];
      Boots(log[..|log| - 1], t) + if e.Entered? && e.how.Boot? && e.how.thread == t then 1 else 0
  }

  lemma {:induction false} AtMostOnce(log: seq<Event>, t: int)
    requires GoodLog(log)
    ensures Boots(log, t) == if Booted(log, t) then 1 else 0
    decreases |log|
  {
    if log != [] {
      var last := |log| - 1;
      var front, e := log[..last], log[last];
      assert log == front + [e];
      assert GoodLog(front) by {
        assert forall n :: 0 <= n < last ==> front[..n] == log[..n];
      }
      AtMostOnce(front, t);
      Append(front, e, t);
      assert e.Entered? ==> GoodEntry(front, e.how);
    }
  }

  lemma {:induction false} BootedMore(log: seq<Event>, more: seq<Event>, t: int)
    requires Booted(log, t)
    ensures Booted(log + more, t)
  {
    var e :| e in log && e.Entered? && e.how.Boot? && e.how.thread == t;
    assert e in log + more;
  }

  /** The running thread has been bootstrapped. */
  lemma {:induction false} RunningIsBooted(s: System, log: seq<Event>)
    requires Inv(s) && Remembers(s, log) && s.current.thread != ID_INVALID
    ensures Booted(log, s.current.thread)
  {
    RosterSize(s);
    assert Recalls(s, log, s.current.thread);
  }

  lemma {:induction false} RunsIsBooted(s: System, ops: seq<Op>, log: seq<Event>, t: int)
    requires Inv(s) && Legal(s, ops) && Remembers(s, log) && GoodLog(log) && t != ID_INVALID
    requires Runs(s, ops, t)
    ensures Booted(log + Log(s, ops), t)
    decreases |ops|
  {
    var events, s' := Events(s, ops[0]), Step(s, ops[0]);
    StepInv(s, ops[0]);
    StepRemembers(s, ops[0], log);
    if s'.current.thread == t {
      RunningIsBooted(s', log + events);
      BootedMore(log + events, Log(s', ops[1..]), t);
    } else {
      RunsIsBooted(s', ops[1..], log + events, t);
    }
    JoinsAssociate(log, events, Log(s', ops[1..]));
  }

  /** Over any run from boot, an entry into a thread bootstraps it, with the entry and the stack it was
      spawned with, or resumes it with exactly the stack pointer it left with; threads enter and leave in
      turns, each leaving before the next one enters, and the one that entered last is the one running. No
      thread is bootstrapped twice, and a thread in the table has been bootstrapped once exactly when it is
      not new. */
  lemma {:induction false} ContextRoundTrip(ops: seq<Op>)
    requires Legal(Initial(), ops)
    ensures var s, log := Exec(Initial(), ops), Log(Initial(), ops);
            && GoodLog(log) && Remembers(s, log) && Alternates(log) && OnCpu(log) == RunningThread(s)
            && (forall t :: Boots(log, t) <= 1)
            && (forall t :: t in s.threads ==> Boots(log, t) == if s.threads[t].state == New then 0 else 1)
  {
    InitialInv();
    ContextFrom(Initial(), ops, []);
    RunAlternates(Initial(), ops, []);
    var s, log := Exec(Initial(), ops), Log(Initial(), ops);
    assert [] + log == log;
    forall t
      ensures Boots(log, t) <= 1
      ensures t in s.threads ==> Boots(log, t) == if s.threads[t].state == New then 0 else 1
    {
      AtMostOnce(log, t);
      assert Recalls(s, log, t);
    }
  }

  /** A thread that waits in some state reached from boot has been bootstrapped exactly once by the tick that
      its rank says, whatever happens until then. */
  lemma {:induction false} BootedExactlyOnce(before: seq<Op>, after: seq<Op>, t: int)
    requires Legal(Initial(), before) && Legal(Exec(Initial(), before), after)
    requires t in Threads(Exec(Initial(), before).queue)
    requires Ticks(after) > Rank(Exec(Initial(), before).queue, t)
    ensures var log := Log(Initial(), before) + Log(Exec(Initial(), before), after);
            GoodLog(log) && Boots(log, t) == 1
  {
    var s, log := Exec(Initial(), before), Log(Initial(), before);
    InitialInv();
    RunInv(Initial(), before);
    ContextRoundTrip(before);
    NoStarvation(s, after, t);
    WaitingExists(s, t);
    RunsIsBooted(s, after, log, t);
    ContextFrom(s, after, log);
    AtMostOnce(log + Log(s, after), t);
  }

  lemma {:induction false} WaitingExists(s: System, t: int)
    requires Inv(s) && t in Threads(s.queue)
    ensures t in s.threads && t != ID_INVALID
  {
    RosterSize(s);
  }
}
