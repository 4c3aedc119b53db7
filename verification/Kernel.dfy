/** The process tables and the scheduler as the kernel keeps them: fields updated in place, with the
    run queue in its ring buffer. */
module Kernel {
  import opened Common
  import opened RingQueue
  import opened Ageing
  import opened Processes
  import opened VirtualFs

  /** `spawn_thread` up to the call that schedules the new thread, one assignment after another. */
  function Prepared(s: System, p: int, entry: nat, block: nat): System
    requires p in s.procs
  {
    var lid, t := s.procs[p].threadCounter, s.threadCounter;
    var s1 := s.(procs := s.procs[p := s.procs[p].(threadCounter := lid + 1)]);
    var s2 := WithLid(ThreadCreated(s1, p, entry, block), t, lid);
    s2.(procs := s2.procs[p := s2.procs[p].(threads := TableAdd(s2.procs[p].threads, lid, t))])
  }

  lemma {:induction false} PreparedIs(s: System, p: int, entry: nat, block: nat)
    requires |s.queue| <= QUEUE_CAPACITY && p in s.procs
    ensures Prepared(s, p, entry, block).queue == s.queue
    ensures Scheduled(Prepared(s, p, entry, block), s.threadCounter, 0) == Spawned(s, p, entry, block)
  {
  }

  class Scheduler {
    var procs: map<int, Process>
    var procCounter: int
    var threads: map<int, Thread>
    var threadCounter: int
    var cproc: int
    var kproc: int
    var cthread: int
    const schedule: Queue<Task>
    var ctask: Task

    ghost predicate Valid()
      reads this, schedule
    {
      schedule.Valid() && schedule.items.Length == QUEUE_CAPACITY
    }

    ghost function View(): (s: System)
      requires Valid()
      reads this, schedule, schedule.items
      ensures |s.queue| <= QUEUE_CAPACITY
    {
      System(procs, procCounter, threads, threadCounter, cproc, kproc, cthread, schedule.Contents(), ctask)
    }

    /** The kernel after `init`. */
    constructor ()
      ensures Valid() && fresh(schedule) && fresh(schedule.items) && View() == Initial()
    {
      procs, procCounter := map[], 0;
      threads, threadCounter := map[], 0;
      cproc, kproc, cthread := ID_INVALID, ID_INVALID, ID_INVALID;
      schedule := new Queue(QUEUE_CAPACITY);
      ctask := NO_TASK;
      new;
      kproc := Create();
      cproc := kproc;
    }

    method Create() returns (id: int)
      requires Valid()
      modifies this`procs, this`procCounter
      ensures Valid() && View() == Created(old(View())) && id == old(procCounter) + 1
    {
      procCounter := procCounter + 1;
      id := procCounter;
      procs := TableAdd(procs, id, EMPTY_PROCESS);
    }

    // ---------- Threads ----------

    method GetState(t: int) returns (state: ThreadState)
      requires Valid()
      ensures state == StateOf(View(), t)
    {
      state := if t in threads then threads[t].state else Dead;
    }

    method GetProcess(t: int) returns (p: int)
      requires Valid()
      ensures p == ProcessOf(View(), t)
    {
      p := if t in threads then threads[t].proc else ID_INVALID;
    }

    method GetStack(t: int) returns (stack: nat)
      requires Valid()
      ensures stack == StackOf(View(), t)
    {
      stack := if t in threads then threads[t].stack else 0;
    }

    method GetEntry(t: int) returns (entry: nat)
      requires Valid()
      ensures entry == EntryOf(View(), t)
    {
      entry := if t in threads then threads[t].entry else 0;
    }

    method GetLid(t: int) returns (lid: int)
      requires Valid()
      ensures lid == LidOf(View(), t)
    {
      lid := if t in threads then threads[t].lid else ID_INVALID;
    }

    method SetState(t: int, state: ThreadState)
      requires Valid()
      modifies this`threads
      ensures Valid() && View() == WithState(old(View()), t, state)
    {
      if t in threads {
        threads := threads[t := threads[t].(state := state)];
      }
    }

    method SetStack(t: int, stack: nat)
      requires Valid()
      modifies this`threads
      ensures Valid() && View() == WithStack(old(View()), t, stack)
    {
      if t in threads {
        threads := threads[t := threads[t].(stack := stack)];
      }
    }

    method SetLid(t: int, lid: int)
      requires Valid()
      modifies this`threads
      ensures Valid() && View() == WithLid(old(View()), t, lid)
    {
      if t in threads {
        threads := threads[t := threads[t].(lid := lid)];
      }
    }

    /** `proc_thread_finish` and the exception handler kill the running thread. */
    method KillCurrent()
      requires Valid()
      modifies this`threads
      ensures Valid() && View() == Killed(old(View()))
    {
      SetState(cthread, Dead);
    }

    method SetCurrentThread(t: int)
      requires Valid()
      modifies this`cthread, this`cproc
      ensures Valid() && View() == WithCurrent(old(View()), t)
    {
      cthread := t;
      cproc := GetProcess(t);
    }

    /** `block` is the address of the stack block that the allocator returns. */
    method CreateThread(p: int, entry: nat, block: nat) returns (id: int)
      requires Valid()
      modifies this`threads, this`threadCounter
      ensures Valid() && View() == ThreadCreated(old(View()), p, entry, block) && id == old(threadCounter)
    {
      id := threadCounter;
      threadCounter := threadCounter + 1;
      threads := TableAdd(threads, id, Thread(ID_INVALID, p, New, entry, block + THREAD_STACK_SIZE));
    }

    method PrepareThread(p: int, entry: nat, block: nat) returns (nid: int, nthread: int)
      requires Valid() && p in procs
      modifies this`procs, this`threads, this`threadCounter
      ensures Valid() && View() == Prepared(old(View()), p, entry, block)
      ensures nid == old(procs)[p].threadCounter && nthread == old(threadCounter)
    {
      nid := procs[p].threadCounter;
      procs := procs[p := procs[p].(threadCounter := nid + 1)];
      nthread := CreateThread(p, entry, block);
      SetLid(nthread, nid);
      procs := procs[p := procs[p].(threads := TableAdd(procs[p].threads, nid, nthread))];
    }

    method SpawnThread(p: int, entry: nat, block: nat) returns (val: int)
      requires Valid()
      modifies this`procs, this`threads, this`threadCounter, schedule, schedule.items
      ensures Valid() && View() == Spawned(old(View()), p, entry, block)
      ensures val == if p in old(procs) then old(procs)[p].threadCounter else ID_INVALID
    {
      if p !in procs {
        return ID_INVALID;
      }
      PreparedIs(View(), p, entry, block);
      var nid, nthread := PrepareThread(p, entry, block);
      ScheduleTask(nthread, 0);
      return nid;
    }

    method DeleteThread(p: int, t: int) returns (err: int)
      requires Valid()
      modifies this`procs, this`threads
      ensures Valid() && View() == ThreadDeleted(old(View()), p, t)
      ensures err == if p in old(procs) then 0 else 1
    {
      if p !in procs {
        return 1;
      }
      var lid := GetLid(t);
      procs := procs[p := procs[p].(threads := procs[p].threads - {lid})];
      threads := threads - {t};
      return 0;
    }

    // ---------- Scheduling ----------

    method ScheduleTask(t: int, priority: int)
      requires Valid()
      modifies schedule, schedule.items
      ensures Valid() && View() == Scheduled(old(View()), t, priority)
    {
      schedule.Push(Task(t, ToShort(priority), ToShort(priority)));
    }

    /** The first part of `scheduler_increment`. */
    method Retire()
      requires Valid()
      modifies this`procs, this`threads, this`ctask, schedule, schedule.items
      ensures Valid() && View() == Retired(old(View()))
    {
      if ctask.thread != ID_INVALID {
        var state := GetState(ctask.thread);
        if state == Dead {
          var p := GetProcess(ctask.thread);
          var err := DeleteThread(p, ctask.thread);
        } else {
          ctask := ctask.(cpriority := ctask.priority);
          schedule.Push(ctask);
        }
      }
    }

    /** The loop of `scheduler_increment`: pop, and stop or count down and push back. */
    method Select()
      requires Valid() && schedule.Contents() != []
      modifies this`ctask, schedule, schedule.items
      ensures Valid()
      ensures View() == old(View()).(queue := Age(old(View()).queue).rest, current := Age(old(View()).queue).task)
    {
      ghost var q := schedule.Contents();
      while true
        invariant Valid() && schedule.Contents() != []
        invariant Age(schedule.Contents()).task == Age(q).task && Age(schedule.Contents()).rest == Age(q).rest
        decreases TotalWait(schedule.Contents())
      {
        ghost var before := schedule.Contents();
        ctask := schedule.Pop();
        if ctask.cpriority <= 0 {
          break;
        }
        ctask := ctask.(cpriority := ctask.cpriority - 1);
        schedule.Push(ctask);
        TotalWaitAppend(before[1..], Tick(before[0]));
        assert schedule.Contents() == Requeued(before);
      }
    }

    /** A thread must be left to run. */
    method Increment()
      requires Valid() && CanIncrement(View())
      modifies this`procs, this`threads, this`ctask, this`cthread, this`cproc, schedule, schedule.items
      ensures Valid() && View() == Incremented(old(View()))
    {
      Retire();
      Select();
      SetCurrentThread(ctask.thread);
    }

    method PreemptThread(oldStack: nat) returns (how: Dispatch)
      requires Valid() && CanIncrement(View())
      modifies this`procs, this`threads, this`ctask, this`cthread, this`cproc, schedule, schedule.items
      ensures Valid() && View() == Preempted(old(View()), oldStack).0 && how == Preempted(old(View()), oldStack).1
    {
      if ctask.thread != ID_INVALID {
        SetStack(ctask.thread, oldStack);
      }
      Increment();
      var newStack := GetStack(ctask.thread);
      var state := GetState(ctask.thread);
      if state == New {
        SetState(ctask.thread, Active);
        var entry := GetEntry(ctask.thread);
        var stack := GetStack(ctask.thread);
        return Boot(ctask.thread, entry, stack);
      }
      return Resume(ctask.thread, newStack);
    }

    // ---------- Descriptors of a process ----------

    /** `create_fd`: a local number for a new entry of the global table. */
    method ProcCreateFd(v: Vfs, p: int, inode: int) returns (val: int)
      modifies this`procs, v`files, v`fileCounter
      ensures if p in old(procs) then
                var own, fd := old(procs)[p], old(v.fileCounter);
                && val == own.lfdCounter
                && procs == old(procs)[p := own.(lfdCounter := val + 1, fds := TableAdd(own.fds, val, fd))]
                && v.files == TableAdd(old(v.files), fd, OpenFile(inode, 0)) && v.fileCounter == fd + 1
              else
                && val == ID_INVALID && procs == old(procs)
                && v.files == old(v.files) && v.fileCounter == old(v.fileCounter)
    {
      if p !in procs {
        return ID_INVALID;
      }
      val := procs[p].lfdCounter;
      procs := procs[p := procs[p].(lfdCounter := val + 1)];
      var nfd := v.CreateFd(inode);
      procs := procs[p := procs[p].(fds := TableAdd(procs[p].fds, val, nfd))];
    }

    method ProcDeleteFd(p: int, lfd: int) returns (err: int)
      modifies this`procs
      ensures if p in old(procs) then
                && procs == old(procs)[p := old(procs)[p].(fds := old(procs)[p].fds - {lfd})]
                && err == if lfd in old(procs)[p].fds then 0 else 1
              else
                procs == old(procs) && err == 1
    {
      err := 1;
      if p in procs {
        if lfd in procs[p].fds {
          err := 0;
        }
        procs := procs[p := procs[p].(fds := procs[p].fds - {lfd})];
      }
    }

    method ProcGetFd(p: int, lfd: int) returns (fd: int)
      ensures fd == if p in procs && lfd != ID_INVALID && lfd in procs[p].fds then procs[p].fds[lfd] else ID_INVALID
    {
      fd := ID_INVALID;
      if p in procs && lfd != ID_INVALID {
        if lfd in procs[p].fds {
          fd := procs[p].fds[lfd];
        }
      }
    }
  }
}
