/** Threads of several processes reading files while the scheduler switches between them. */
module Readers {
  import opened Common
  import opened Namespace
  import opened VirtualFs
  import opened Tar
  import opened Ramdisk
  import opened Processes
  import opened Kernel
  import opened Descriptors
  import opened FileCalls

  /** A thread that reads through a descriptor of its process. */
  datatype Reader = Reader(thread: int, lfd: int)

  /** The open file behind a reader's descriptor, and that file's bytes. */
  datatype Source = Source(fd: int, data: seq<Byte>)

  /** Reader `reader` reads into a buffer of `n` bytes. */
  datatype Turn = Turn(reader: nat, n: nat)

  /** The sizes of the buffers in the turns of reader `w`. */
  function SizesOf(turns: seq<Turn>, w: nat): seq<nat> {
    if turns == [] then []
    else (if turns[0].reader == w then [turns[0].n] else []) + SizesOf(turns[1..], w)
  }

  // ---------- What happens ----------

  /** A timer tick, or a read that takes place if its reader's thread is running. */
  datatype Act = Tick(stack: nat) | Read(reader: nat, n: nat)

  /** The reads that take place when the scheduler starts in state `s`. */
  function Performed(s: System, readers: seq<Reader>, acts: seq<Act>): seq<Turn>
    decreases |acts|
  {
    if acts == [] then []
    else
      match acts[0]
      case Tick(stack) =>
        if |s.queue| <= QUEUE_CAPACITY && CanIncrement(s) then Performed(Preempted(s, stack).0, readers, acts[1..]) else []
      case Read(r, n) =>
        (if Runs(s, readers, r) then [Turn(r, n)] else []) + Performed(s, readers, acts[1..])
  }

  predicate Runs(s: System, readers: seq<Reader>, r: nat) {
    r < |readers| && readers[r].thread == s.cthread
  }

  /** The same from the `i`-th act on. */
  function StillPerformed(s: System, readers: seq<Reader>, acts: seq<Act>, i: nat): seq<Turn>
    requires i <= |acts|
  {
    Performed(s, readers, acts[i..])
  }

  lemma {:induction false} PerformedStep(s: System, readers: seq<Reader>, acts: seq<Act>, i: nat)
    requires i < |acts| && |s.queue| <= QUEUE_CAPACITY && CanIncrement(s)
    ensures StillPerformed(s, readers, acts, i)
            == match acts[i]
               case Tick(stack) => StillPerformed(Preempted(s, stack).0, readers, acts, i + 1)
               case Read(r, n) =>
                 (if Runs(s, readers, r) then [Turn(r, n)] else []) + StillPerformed(s, readers, acts, i + 1)
  {
    assert acts[i..][0] == acts[i] && acts[i..][1..] == acts[i + 1..];
  }

  // ---------- What the readers get ----------

  /** What reader `w` still gets in its turns. */
  function Due(sources: seq<Source>, offsets: seq<nat>, turns: seq<Turn>, w: nat): seq<Byte>
    requires w < |sources| == |offsets|
  {
    ReadAll(sources[w].data, offsets[w], SizesOf(turns, w))
  }

  lemma {:induction false} SizesStep(turns: seq<Turn>, w: nat)
    requires turns != []
    ensures turns[0].reader == w ==> SizesOf(turns, w) == [turns[0].n] + SizesOf(turns[1..], w)
    ensures turns[0].reader != w ==> SizesOf(turns, w) == SizesOf(turns[1..], w)
  {
  }

  lemma {:induction false} ReadAllFirst(data: seq<Byte>, offset: nat, n: nat, sizes: seq<nat>)
    ensures var c := Chunk(data, offset, n);
            ReadAll(data, offset, [n] + sizes) == c + ReadAll(data, offset + |c|, sizes)
  {
    assert ([n] + sizes)[1..] == sizes;
  }

  lemma {:induction false} OwnTurn(out: seq<Byte>, data: seq<Byte>, offset: nat, n: nat, rest: seq<nat>, chunk: seq<Byte>)
    requires chunk == Chunk(data, offset, n)
    ensures out + chunk + ReadAll(data, offset + |chunk|, rest) == out + ReadAll(data, offset, [n] + rest)
  {
    ReadAllFirst(data, offset, n, rest);
    JoinsAssociate(out, chunk, ReadAll(data, offset + |chunk|, rest));
  }

  /** What the readers have together with what they still get is their goal. */
  ghost predicate OnCourse(sources: seq<Source>, outs: seq<seq<Byte>>, offsets: seq<nat>, turns: seq<Turn>, goal: seq<seq<Byte>>) {
    && |outs| == |offsets| == |sources| == |goal|
    && forall w :: 0 <= w < |sources| ==> outs[w] + Due(sources, offsets, turns, w) == goal[w]
  }

  lemma {:induction false} TurnKeepsOwn(sources: seq<Source>, out: seq<Byte>, offsets: seq<nat>, turns: seq<Turn>, r: nat, chunk: seq<Byte>)
    requires |offsets| == |sources|
    requires turns != [] && turns[0].reader == r < |sources| && chunk == Chunk(sources[r].data, offsets[r], turns[0].n)
    ensures out + chunk + Due(sources, offsets[r := offsets[r] + |chunk|], turns[1..], r) == out + Due(sources, offsets, turns, r)
  {
    SizesStep(turns, r);
    OwnTurn(out, sources[r].data, offsets[r], turns[0].n, SizesOf(turns[1..], r), chunk);
  }

  lemma {:induction false} TurnKeepsCourse(sources: seq<Source>, outs: seq<seq<Byte>>, offsets: seq<nat>, turns: seq<Turn>,
                                           goal: seq<seq<Byte>>, r: nat, chunk: seq<Byte>)
    requires OnCourse(sources, outs, offsets, turns, goal)
    requires turns != [] && turns[0].reader == r < |sources| && chunk == Chunk(sources[r].data, offsets[r], turns[0].n)
    ensures OnCourse(sources, outs[r := outs[r] + chunk], offsets[r := offsets[r] + |chunk|], turns[1..], goal)
  {
    TurnKeepsOwn(sources, outs[r], offsets, turns, r, chunk);
    forall w | 0 <= w < |sources| && w != r
      ensures Due(sources, offsets[r := offsets[r] + |chunk|], turns[1..], w) == Due(sources, offsets, turns, w)
    {
      SizesStep(turns, w);
    }
  }

  // ---------- The kernel's side ----------

  /** The reader's thread is live and its descriptor is open on its file, read up to `offset`. */
  ghost predicate ReaderOpen(threads: map<int, Thread>, f: Files, contents: Contents, r: Reader, source: Source, offset: nat) {
    && r.thread in threads && threads[r.thread].state != Dead
    && OpenOn(f, contents, threads[r.thread].proc, r.lfd, source.fd, source.data, offset)
  }

  /** Every reader has an open file of its own. */
  ghost predicate AllOpen(threads: map<int, Thread>, f: Files, contents: Contents,
                          readers: seq<Reader>, sources: seq<Source>, offsets: seq<nat>)
  {
    && |offsets| == |readers| == |sources|
    && (forall w, u :: 0 <= w < u < |sources| ==> sources[w].fd != sources[u].fd)
    && forall w :: 0 <= w < |readers| ==> ReaderOpen(threads, f, contents, readers[w], sources[w], offsets[w])
  }

  /** A read by reader `w` moves its own offset only. */
  lemma {:induction false} ReadKeepsOpen(threads: map<int, Thread>, f: Files, f': Files, contents: Contents,
                                         readers: seq<Reader>, sources: seq<Source>, offsets: seq<nat>, w: nat, next: nat)
    requires AllOpen(threads, f, contents, readers, sources, offsets) && w < |readers| && next <= |sources[w].data|
    requires f' == f.(table := WithOffset(f.table, sources[w].fd, next))
    ensures AllOpen(threads, f', contents, readers, sources, offsets[w := next])
  {
    forall u | 0 <= u < |readers|
      ensures ReaderOpen(threads, f', contents, readers[u], sources[u], offsets[w := next][u])
    {
      assert ReaderOpen(threads, f, contents, readers[u], sources[u], offsets[u]);
      assert ReaderOpen(threads, f, contents, readers[w], sources[w], offsets[w]);
      assert u != w ==> sources[u].fd != sources[w].fd;
    }
  }

  /** The running thread is a reader's, and reads once. */
  method ReadTurn(k: Scheduler, v: Vfs, d: Driver, mem: seq<Byte>, lfd: int, n: nat, ghost contents: Contents,
                  ghost readers: seq<Reader>, ghost sources: seq<Source>, ghost offsets: seq<nat>, ghost w: nat)
    returns (chunk: seq<Byte>)
    requires k.Valid() && Inv(k.View()) && n > 0 && Serves(d.headers, mem, contents)
    requires AllOpen(k.threads, FilesOf(k, v), contents, readers, sources, offsets)
    requires w < |readers| && readers[w] == Reader(k.cthread, lfd)
    modifies v`files
    ensures chunk == Chunk(sources[w].data, offsets[w], n)
    ensures AllOpen(k.threads, FilesOf(k, v), contents, readers, sources, offsets[w := offsets[w] + |chunk|])
  {
    assert ReaderOpen(k.threads, FilesOf(k, v), contents, readers[w], sources[w], offsets[w]);
    RunsItsProcess(k.View());
    ghost var f := FilesOf(k, v);
    chunk := ReadOnce(k, v, d, mem, lfd, n, contents, sources[w].fd, sources[w].data, offsets[w]);
    ReadKeepsOpen(k.threads, f, FilesOf(k, v), contents, readers, sources, offsets, w, offsets[w] + |chunk|);
  }

  lemma {:induction false} RunsItsProcess(s: System)
    requires Inv(s) && s.cthread in s.threads
    ensures s.cproc == s.threads[s.cthread].proc
  {
    assert s.cthread != ID_INVALID;
  }

  /** What a tick leaves of a live thread. */
  lemma {:induction false} TickKeepsThread(s: System, stack: nat, t: int)
    requires Inv(s) && CanIncrement(s) && |s.queue| <= QUEUE_CAPACITY && t in s.threads && s.threads[t].state != Dead
    ensures var s', p := Preempted(s, stack).0, s.threads[t].proc;
            LiveIn(s', t, p) && FdsIn(s'.procs, p) == FdsIn(s.procs, p)
  {
    TickKeepsLive(s, stack, t, s.threads[t].proc);
    TickKeepsFds(s, stack);
  }

  lemma {:induction false} TickKeepsOpen(s: System, s': System, f: Files, contents: Contents, r: Reader, source: Source, offset: nat)
    requires f.procs == s.procs && ReaderOpen(s.threads, f, contents, r, source, offset)
    requires LiveIn(s', r.thread, s.threads[r.thread].proc)
    requires FdsIn(s'.procs, s.threads[r.thread].proc) == FdsIn(s.procs, s.threads[r.thread].proc)
    ensures ReaderOpen(s'.threads, f.(procs := s'.procs), contents, r, source, offset)
  {
  }

  lemma {:induction false} TickKeepsAllOpen(s: System, stack: nat, f: Files, contents: Contents,
                                            readers: seq<Reader>, sources: seq<Source>, offsets: seq<nat>)
    requires Inv(s) && CanIncrement(s) && |s.queue| <= QUEUE_CAPACITY && f.procs == s.procs
    requires AllOpen(s.threads, f, contents, readers, sources, offsets)
    ensures var s' := Preempted(s, stack).0;
            AllOpen(s'.threads, f.(procs := s'.procs), contents, readers, sources, offsets)
  {
    var s' := Preempted(s, stack).0;
    forall w | 0 <= w < |readers|
      ensures ReaderOpen(s'.threads, f.(procs := s'.procs), contents, readers[w], sources[w], offsets[w])
    {
      assert ReaderOpen(s.threads, f, contents, readers[w], sources[w], offsets[w]);
      TickKeepsThread(s, stack, readers[w].thread);
      TickKeepsOpen(s, s', f, contents, readers[w], sources[w], offsets[w]);
    }
  }

  /** A tick, which any live reader makes possible. */
  method SwitchTurn(k: Scheduler, v: Vfs, stack: nat, ghost contents: Contents,
                    ghost readers: seq<Reader>, ghost sources: seq<Source>, ghost offsets: seq<nat>)
    requires k.Valid() && Inv(k.View()) && CanIncrement(k.View())
    requires AllOpen(k.threads, FilesOf(k, v), contents, readers, sources, offsets)
    modifies k`procs, k`threads, k`ctask, k`cthread, k`cproc, k.schedule, k.schedule.items
    ensures k.Valid() && Inv(k.View()) && k.View() == Preempted(old(k.View()), stack).0
    ensures AllOpen(k.threads, FilesOf(k, v), contents, readers, sources, offsets)
  {
    TickKeepsAllOpen(k.View(), stack, FilesOf(k, v), contents, readers, sources, offsets);
    PreemptedInv(k.View(), stack);
    var how := k.PreemptThread(stack);
  }

  /** However the scheduler switches between threads of any processes, each reader gets its own file's bytes
      in the turns it has, as if it read alone. */
  method ReadInTurns(k: Scheduler, v: Vfs, d: Driver, mem: seq<Byte>, readers: seq<Reader>, acts: seq<Act>,
                     ghost contents: Contents, ghost sources: seq<Source>, ghost offsets: seq<nat>)
    returns (outs: seq<seq<Byte>>)
    requires k.Valid() && Inv(k.View()) && Serves(d.headers, mem, contents)
    requires AllOpen(k.threads, FilesOf(k, v), contents, readers, sources, offsets) && readers != []
    requires forall i :: 0 <= i < |acts| && acts[i].Read? ==> acts[i].reader < |readers| && acts[i].n > 0
    modifies k`procs, k`threads, k`ctask, k`cthread, k`cproc, k.schedule, k.schedule.items, v`files
    ensures |outs| == |readers|
    ensures forall w :: 0 <= w < |readers| ==>
              outs[w] == ReadAll(sources[w].data, offsets[w], SizesOf(Performed(old(k.View()), readers, acts), w))
  {
    outs := seq(|readers|, _ => []);
    ghost var at: seq<nat>, turns := offsets, Performed(k.View(), readers, acts);
    ghost var goal := seq(|readers|, w requires 0 <= w < |readers| => Due(sources, offsets, turns, w));
    assert acts[0..] == acts;
    for i := 0 to |acts|
      invariant k.Valid() && Inv(k.View()) && AllOpen(k.threads, FilesOf(k, v), contents, readers, sources, at)
      invariant OnCourse(sources, outs, at, StillPerformed(k.View(), readers, acts, i), goal)
    {
      outs, at := OneAct(k, v, d, mem, readers, acts, i, outs, contents, sources, at, goal);
    }
    assert StillPerformed(k.View(), readers, acts, |acts|) == [];
  }

  method OneAct(k: Scheduler, v: Vfs, d: Driver, mem: seq<Byte>, readers: seq<Reader>, acts: seq<Act>, i: nat, outs: seq<seq<Byte>>,
                ghost contents: Contents, ghost sources: seq<Source>, ghost at: seq<nat>, ghost goal: seq<seq<Byte>>)
    returns (more: seq<seq<Byte>>, ghost next: seq<nat>)
    requires k.Valid() && Inv(k.View()) && Serves(d.headers, mem, contents)
    requires AllOpen(k.threads, FilesOf(k, v), contents, readers, sources, at) && readers != [] && i < |acts|
    requires acts[i].Read? ==> acts[i].reader < |readers| && acts[i].n > 0
    requires OnCourse(sources, outs, at, StillPerformed(k.View(), readers, acts, i), goal)
    modifies k`procs, k`threads, k`ctask, k`cthread, k`cproc, k.schedule, k.schedule.items, v`files
    ensures k.Valid() && Inv(k.View()) && AllOpen(k.threads, FilesOf(k, v), contents, readers, sources, next)
    ensures OnCourse(sources, more, next, StillPerformed(k.View(), readers, acts, i + 1), goal)
  {
    more, next := outs, at;
    ghost var turns := StillPerformed(k.View(), readers, acts, i);
    assert ReaderOpen(k.threads, FilesOf(k, v), contents, readers[0], sources[0], at[0]);
    LiveCanTick(k.View(), readers[0].thread);
    PerformedStep(k.View(), readers, acts, i);
    match acts[i] {
      case Tick(stack) => SwitchTurn(k, v, stack, contents, readers, sources, at);
      case Read(r, n) =>
        if readers[r].thread == k.cthread {
          var chunk := ReadTurn(k, v, d, mem, readers[r].lfd, n, contents, readers, sources, at, r);
          TurnKeepsCourse(sources, outs, at, turns, goal, r, chunk);
          assert turns[1..] == StillPerformed(k.View(), readers, acts, i + 1);
          more, next := outs[r := outs[r] + chunk], at[r := at[r] + |chunk|];
        } else {
          assert turns == StillPerformed(k.View(), readers, acts, i + 1);
        }
    }
  }

  // ---------- From boot to several readers ----------

  /** The state between calls: the tables agree, and a tick finds a thread to run. */
  ghost predicate Running(k: Scheduler, v: Vfs, o: Owners)
    reads k, k.schedule, k.schedule.items, v
  {
    && k.Valid() && Inv(k.View()) && CanIncrement(k.View())
    && Paired(FilesOf(k, v), o) && Unused(FilesOf(k, v))
  }

  /** All open files are readers', at their beginnings. */
  ghost predicate AtStart(threads: map<int, Thread>, f: Files, contents: Contents, readers: seq<Reader>, sources: seq<Source>) {
    |readers| == |sources| == |f.table| && AllOpen(threads, f, contents, readers, sources, seq(|readers|, _ => 0))
  }

  lemma {:induction false} TickedHasCurrent(s: System, stack: nat)
    requires Inv(s) && CanIncrement(s) && |s.queue| <= QUEUE_CAPACITY
    ensures var s' := Preempted(s, stack).0;
            && Inv(s') && CanIncrement(s') && LiveIn(s', s'.cthread, s'.cproc)
            && s'.cproc in s'.procs && s'.cproc != ID_INVALID
  {
    PreemptedInv(s, stack);
    var s' := Preempted(s, stack).0;
    assert s'.cthread in s'.threads && s'.cthread != ID_INVALID;
  }

  /** Opening a file keeps what the scheduler relies on. */
  lemma {:induction false} OpenKeepsInv(s: System, s': System, f: Files, p: int, inode: int)
    requires Inv(s) && CanIncrement(s) && f.procs == s.procs
    requires s' == s.(procs := Opened(f, p, inode, 0).0.procs)
    ensures Inv(s') && CanIncrement(s')
  {
    FdsKeepInv(s, s');
  }

  lemma {:induction false} OpenKeepsReader(f: Files, o: Owners, p: int, inode: int, threads: map<int, Thread>, contents: Contents,
                                           r: Reader, source: Source)
    requires Paired(f, o) && Unused(f) && |f.table| < TABLE_CAPACITY && !Refused(f, p, inode, 0)
    requires ReaderOpen(threads, f, contents, r, source, 0)
    ensures ReaderOpen(threads, Opened(f, p, inode, 0).0, contents, r, source, 0) && source.fd != f.counter
  {
    OpenedKeeps(f, o, p, inode, threads[r.thread].proc, r.lfd);
    OpenedLeads(f, o, p, inode);
  }

  lemma {:induction false} OpenKeepsReaders(f: Files, o: Owners, p: int, inode: int, threads: map<int, Thread>, contents: Contents,
                                            readers: seq<Reader>, sources: seq<Source>)
    requires Paired(f, o) && Unused(f) && |f.table| < TABLE_CAPACITY && !Refused(f, p, inode, 0)
    requires AtStart(threads, f, contents, readers, sources)
    ensures forall w :: 0 <= w < |readers| ==>
              ReaderOpen(threads, Opened(f, p, inode, 0).0, contents, readers[w], sources[w], 0) && sources[w].fd != f.counter
  {
    var zeros := seq(|readers|, _ => 0);
    forall w | 0 <= w < |readers|
      ensures ReaderOpen(threads, Opened(f, p, inode, 0).0, contents, readers[w], sources[w], 0) && sources[w].fd != f.counter
    {
      assert ReaderOpen(threads, f, contents, readers[w], sources[w], zeros[w]);
      OpenKeepsReader(f, o, p, inode, threads, contents, readers[w], sources[w]);
    }
  }

  /** One more reader, of the file that was opened. */
  lemma {:induction false} OpenAddsReader(f: Files, o: Owners, p: int, inode: int, threads: map<int, Thread>, contents: Contents,
                                          readers: seq<Reader>, sources: seq<Source>, r: Reader, source: Source)
    requires Paired(f, o) && Unused(f) && |f.table| < TABLE_CAPACITY && !Refused(f, p, inode, 0)
    requires AtStart(threads, f, contents, readers, sources)
    requires ReaderOpen(threads, Opened(f, p, inode, 0).0, contents, r, source, 0) && source.fd == f.counter
    ensures AtStart(threads, Opened(f, p, inode, 0).0, contents, readers + [r], sources + [source])
  {
    OpenKeepsReaders(f, o, p, inode, threads, contents, readers, sources);
    OpenCounts(f, o, p, inode);
  }

  lemma {:induction false} OpenCounts(f: Files, o: Owners, p: int, inode: int)
    requires Paired(f, o) && Unused(f) && |f.table| < TABLE_CAPACITY && !Refused(f, p, inode, 0)
    ensures |Opened(f, p, inode, 0).0.table| == |f.table| + 1
  {
    OpenedShape(f, o, p, inode);
  }

  /** All that an open by the running process does. */
  lemma {:induction false} OpenedAll(s: System, s': System, f: Files, o: Owners, inode: int, contents: Contents,
                                     readers: seq<Reader>, sources: seq<Source>, r: Reader, source: Source)
    returns (o': Owners)
    requires Inv(s) && CanIncrement(s) && f.procs == s.procs && Paired(f, o) && Unused(f)
    requires |f.table| < TABLE_CAPACITY && !Refused(f, s.cproc, inode, 0) && AtStart(s.threads, f, contents, readers, sources)
    requires s' == s.(procs := Opened(f, s.cproc, inode, 0).0.procs)
    requires ReaderOpen(s.threads, Opened(f, s.cproc, inode, 0).0, contents, r, source, 0) && source.fd == f.counter
    ensures Inv(s') && CanIncrement(s')
    ensures var f' := Opened(f, s.cproc, inode, 0).0;
            Paired(f', o') && Unused(f') && AtStart(s.threads, f', contents, readers + [r], sources + [source])
  {
    o' := OpenedInRoom(f, o, s.cproc, inode);
    OpenedUnused(f, s.cproc, inode, 0);
    OpenKeepsInv(s, s', f, s.cproc, inode);
    OpenAddsReader(f, o, s.cproc, inode, s.threads, contents, readers, sources, r, source);
  }

  /** The running process opens one more file, for its running thread to read. */
  method OpenAnother(k: Scheduler, v: Vfs, path: CString, ghost contents: Contents, ghost data: seq<Byte>, ghost o: Owners,
                     ghost readers: seq<Reader>, ghost sources: seq<Source>)
    returns (r: Reader, ghost source: Source, ghost o': Owners)
    requires FileAt(v.nodes, v.root, contents, path, data) && Running(k, v, o) && |v.files| < TABLE_CAPACITY
    requires AtStart(k.threads, FilesOf(k, v), contents, readers, sources)
    requires LiveIn(k.View(), k.cthread, k.cproc) && k.cproc in k.procs && k.cproc != ID_INVALID
    modifies k`procs, v`files, v`fileCounter
    ensures Running(k, v, o') && source.data == data
    ensures AtStart(k.threads, FilesOf(k, v), contents, readers + [r], sources + [source])
  {
    ghost var f, s := FilesOf(k, v), k.View();
    ghost var inode;
    var lfd;
    lfd, inode := OpenPath(k, v, path, contents, data, o);
    r, source := Reader(k.cthread, lfd), Source(f.counter, data);
    o' := OpenedAll(s, k.View(), f, o, inode, contents, readers, sources, r, source);
  }

  /** All that a tick does for the process that runs after it. */
  lemma {:induction false} TickedAll(s: System, stack: nat, f: Files, o: Owners)
    requires Inv(s) && CanIncrement(s) && |s.queue| <= QUEUE_CAPACITY
    requires f.procs == s.procs && Paired(f, o) && Unused(f)
    ensures var s' := Preempted(s, stack).0;
            && CanIncrement(s') && LiveIn(s', s'.cthread, s'.cproc) && s'.cproc in s'.procs && s'.cproc != ID_INVALID
            && Paired(f.(procs := s'.procs), o) && Unused(f.(procs := s'.procs))
  {
    TickedHasCurrent(s, stack);
    TickKeepsFds(s, stack);
    SameFdsPaired(f, f.(procs := Preempted(s, stack).0.procs), o);
  }

  /** A tick when all readers are at their files' beginnings. */
  method TickAtStart(k: Scheduler, v: Vfs, stack: nat, ghost contents: Contents, ghost o: Owners,
                     ghost readers: seq<Reader>, ghost sources: seq<Source>)
    requires Running(k, v, o) && AtStart(k.threads, FilesOf(k, v), contents, readers, sources)
    modifies k`procs, k`threads, k`ctask, k`cthread, k`cproc, k.schedule, k.schedule.items
    ensures Running(k, v, o) && AtStart(k.threads, FilesOf(k, v), contents, readers, sources)
    ensures LiveIn(k.View(), k.cthread, k.cproc) && k.cproc in k.procs && k.cproc != ID_INVALID
  {
    TickedAll(k.View(), stack, FilesOf(k, v), o);
    SwitchTurn(k, v, stack, contents, readers, sources, seq(|readers|, _ => 0));
  }

  /** The paths lead to ramdisk files with these data. */
  ghost predicate FilesAt(nodes: Inodes, root: int, contents: Contents, paths: seq<CString>, datas: seq<seq<Byte>>) {
    |paths| == |datas| && forall w :: 0 <= w < |paths| ==> FileAt(nodes, root, contents, paths[w], datas[w])
  }

  /** The sources are files with the first of these data. */
  ghost predicate SourcesOf(datas: seq<seq<Byte>>, sources: seq<Source>) {
    |sources| <= |datas| && forall w :: 0 <= w < |sources| ==> sources[w].data == datas[w]
  }

  lemma {:induction false} SourcesMore(datas: seq<seq<Byte>>, sources: seq<Source>, source: Source)
    requires SourcesOf(datas, sources) && |sources| < |datas| && source.data == datas[|sources|]
    ensures SourcesOf(datas, sources + [source])
  {
  }

  /** A tick, and then the process that runs opens the next file. */
  method OpenNext(k: Scheduler, v: Vfs, stack: nat, paths: seq<CString>, ghost contents: Contents, ghost datas: seq<seq<Byte>>,
                  ghost o: Owners, readers: seq<Reader>, ghost sources: seq<Source>)
    returns (more: seq<Reader>, ghost more': seq<Source>, ghost o': Owners)
    requires FilesAt(v.nodes, v.root, contents, paths, datas) && |paths| <= TABLE_CAPACITY && Running(k, v, o)
    requires AtStart(k.threads, FilesOf(k, v), contents, readers, sources) && SourcesOf(datas, sources)
    requires |readers| < |paths|
    modifies k`procs, k`threads, k`ctask, k`cthread, k`cproc, k.schedule, k.schedule.items, v`files, v`fileCounter
    ensures Running(k, v, o') && AtStart(k.threads, FilesOf(k, v), contents, more, more')
    ensures |more| == |readers| + 1 && SourcesOf(datas, more')
  {
    var i := |readers|;
    assert FileAt(v.nodes, v.root, contents, paths[i], datas[i]);
    TickAtStart(k, v, stack, contents, o, readers, sources);
    var r;
    ghost var source;
    r, source, o' := OpenAnother(k, v, paths[i], contents, datas[i], o, readers, sources);
    SourcesMore(datas, sources, source);
    more, more' := readers + [r], sources + [source];
  }

  /** One file after another is opened, each by the process that runs after a tick. */
  method OpenAll(k: Scheduler, v: Vfs, stack: nat, paths: seq<CString>, ghost contents: Contents, ghost datas: seq<seq<Byte>>)
    returns (readers: seq<Reader>, ghost sources: seq<Source>)
    requires FilesAt(v.nodes, v.root, contents, paths, datas) && |paths| <= TABLE_CAPACITY
    requires Running(k, v, map[]) && AtStart(k.threads, FilesOf(k, v), contents, [], [])
    modifies k`procs, k`threads, k`ctask, k`cthread, k`cproc, k.schedule, k.schedule.items, v`files, v`fileCounter
    ensures k.Valid() && Inv(k.View()) && AtStart(k.threads, FilesOf(k, v), contents, readers, sources)
    ensures |readers| == |paths| && SourcesOf(datas, sources)
  {
    readers, sources := [], [];
    ghost var o: Owners := map[];
    for i := 0 to |paths|
      invariant Running(k, v, o) && |readers| == i
      invariant AtStart(k.threads, FilesOf(k, v), contents, readers, sources) && SourcesOf(datas, sources)
    {
      readers, sources, o := OpenNext(k, v, stack, paths, contents, datas, o, readers, sources);
    }
  }

  /** Addresses of the code and of the stack block of a thread. */
  datatype Start = Start(entry: nat, block: nat)

  /** The kernel after boot with a second process, and a thread of each. */
  method BootScheduler(one: Start, two: Start) returns (k: Scheduler)
    ensures fresh(k) && fresh(k.schedule) && fresh(k.schedule.items) && k.Valid()
    ensures k.View() == TwoSpawned(one.entry, one.block, two.entry, two.block)
  {
    k := new Scheduler();
    TwoSpawnedInv(one.entry, one.block, two.entry, two.block);
    var p := k.Create();
    var t := k.SpawnThread(1, one.entry, one.block);
    t := k.SpawnThread(p, two.entry, two.block);
  }

  /** Two processes, each with a thread, on a ramdisk. */
  method BootTwo(mem: seq<Byte>, start: nat, ghost entries: seq<Entry>, one: Start, two: Start)
    returns (k: Scheduler, v: Vfs, d: Driver, ghost contents: Contents)
    requires ArchiveAt(mem, start, entries) && Fits(start, entries)
    ensures fresh(k) && fresh(v) && fresh(d) && fresh(k.schedule) && fresh(k.schedule.items)
    ensures Mounted(v.View(), d.headers, start, entries) && Serves(d.headers, mem, contents)
    ensures Running(k, v, map[]) && AtStart(k.threads, FilesOf(k, v), contents, [], [])
  {
    v, d, contents := FileCalls.Boot(mem, start, entries);
    k := BootScheduler(one, two);
    TwoSpawnedInv(one.entry, one.block, two.entry, two.block);
    NoneOpen(FilesOf(k, v));
  }

  /** The paths, in any spelling, of files of the archive, and the files' data. */
  ghost predicate NameFiles(entries: seq<Entry>, paths: seq<CString>, datas: seq<seq<Byte>>) {
    && |paths| == |datas|
    && forall w :: 0 <= w < |paths| ==> exists e: nat :: NamesFile(entries, e, paths[w]) && datas[w] == entries[e].data
  }

  lemma {:induction false} EntriesAreFiles(g: Graph, headers: map<int, nat>, mem: seq<Byte>, start: nat, entries: seq<Entry>,
                                           contents: Contents, paths: seq<CString>, datas: seq<seq<Byte>>)
    requires ArchiveAt(mem, start, entries) && Fits(start, entries) && NameFiles(entries, paths, datas)
    requires Mounted(g, headers, start, entries) && Serves(headers, mem, contents)
    ensures FilesAt(g.nodes, g.root, contents, paths, datas)
  {
    forall w | 0 <= w < |paths|
      ensures FileAt(g.nodes, g.root, contents, paths[w], datas[w])
    {
      var e: nat :| NamesFile(entries, e, paths[w]) && datas[w] == entries[e].data;
      EntryIsFile(g, headers, mem, start, entries, contents, e, paths[w]);
    }
  }

  /** The files are opened and then read, as the scheduler switches between the threads. */
  method Share(k: Scheduler, v: Vfs, d: Driver, mem: seq<Byte>, paths: seq<CString>, stack: nat, acts: seq<Act>,
               ghost contents: Contents, ghost datas: seq<seq<Byte>>)
    returns (outs: seq<seq<Byte>>, ghost s: System, readers: seq<Reader>)
    requires FilesAt(v.nodes, v.root, contents, paths, datas) && Serves(d.headers, mem, contents) && 0 < |paths| <= TABLE_CAPACITY
    requires Running(k, v, map[]) && AtStart(k.threads, FilesOf(k, v), contents, [], [])
    requires forall i :: 0 <= i < |acts| && acts[i].Read? ==> acts[i].reader < |paths| && acts[i].n > 0
    modifies k`procs, k`threads, k`ctask, k`cthread, k`cproc, k.schedule, k.schedule.items, v`files, v`fileCounter
    ensures |outs| == |readers| == |paths| && Inv(s)
    ensures forall w :: 0 <= w < |paths| ==> outs[w] == ReadAll(datas[w], 0, SizesOf(Performed(s, readers, acts), w))
  {
    ghost var sources;
    readers, sources := OpenAll(k, v, stack, paths, contents, datas);
    s := k.View();
    outs := ReadInTurns(k, v, d, mem, readers, acts, contents, sources, seq(|readers|, _ => 0));
  }

  /** Two processes boot on an archive and open any files of it while the scheduler switches between them; then
      they read while the scheduler switches between them. Every open file gives its own bytes, in the reads
      that take place from the state `s` on in which all are open. */
  method BootAndShare(mem: seq<Byte>, start: nat, ghost entries: seq<Entry>, one: Start, two: Start,
                      paths: seq<CString>, ghost datas: seq<seq<Byte>>, stack: nat, acts: seq<Act>)
    returns (outs: seq<seq<Byte>>, ghost s: System, readers: seq<Reader>)
    requires ArchiveAt(mem, start, entries) && Fits(start, entries)
    requires 0 < |paths| <= TABLE_CAPACITY && NameFiles(entries, paths, datas)
    requires forall i :: 0 <= i < |acts| && acts[i].Read? ==> acts[i].reader < |paths| && acts[i].n > 0
    ensures |outs| == |readers| == |paths| && Inv(s)
    ensures forall w :: 0 <= w < |paths| ==> outs[w] == ReadAll(datas[w], 0, SizesOf(Performed(s, readers, acts), w))
  {
    var k, v, d;
    ghost var contents;
    k, v, d, contents := BootTwo(mem, start, entries, one, two);
    EntriesAreFiles(v.View(), d.headers, mem, start, entries, contents, paths, datas);
    outs, s, readers := Share(k, v, d, mem, paths, stack, acts, contents, datas);
  }
}
