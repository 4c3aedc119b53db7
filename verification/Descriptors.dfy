/** File descriptors in two levels: the numbers a process knows, and the kernel's table of open files. */
module Descriptors {
  import opened Common
  import opened Namespace
  import opened VirtualFs
  import opened Processes

  /** The state the descriptor calls share; `nodes` is only read. */
  datatype Files = Files(table: map<int, OpenFile>, counter: int, procs: map<int, Process>, nodes: Inodes)

  function FdsIn(procs: map<int, Process>, p: int): map<int, int> {
    if p in procs then procs[p].fds else map[]
  }

  /** `get_fd`. */
  function FdIn(procs: map<int, Process>, p: int, lfd: int): int {
    if lfd != ID_INVALID && lfd in FdsIn(procs, p) then FdsIn(procs, p)[lfd] else ID_INVALID
  }

  function FdsOf(f: Files, p: int): map<int, int> {
    FdsIn(f.procs, p)
  }

  function FdOf(f: Files, p: int, lfd: int): int {
    FdIn(f.procs, p, lfd)
  }

  function WithFds(f: Files, p: int, fds: map<int, int>): Files
    requires p in f.procs
  {
    f.(procs := f.procs[p := f.procs[p].(fds := fds)])
  }

  predicate CanOpen(vtable: Option<VTable>) { vtable.Some? && vtable.value.open }
  predicate CanClose(vtable: Option<VTable>) { vtable.Some? && vtable.value.close }

  /** The open gives no descriptor: the inode's driver cannot open or refuses, or there is no process `p`. */
  predicate Refused(f: Files, p: int, inode: int, result: int) {
    !CanOpen(VtableOf(f.nodes, inode)) || result != 0 || p !in f.procs
  }

  /** `fd_open` by process `p`, when the driver's own call returns `result`. */
  function Opened(f: Files, p: int, inode: int, result: int): (Files, int) {
    if Refused(f, p, inode, result) then (f, ID_INVALID)
    else
      var own := f.procs[p];
      (f.(table := TableAdd(f.table, f.counter, OpenFile(inode, 0)), counter := f.counter + 1,
          procs := f.procs[p := own.(lfdCounter := own.lfdCounter + 1,
                                     fds := TableAdd(own.fds, own.lfdCounter, f.counter))]),
       own.lfdCounter)
  }

  /** `fd_close` by process `p`, when the driver's own call returns `result`. */
  function Closed(f: Files, p: int, lfd: int, result: int): (Files, int) {
    var fd := FdOf(f, p, lfd);
    if p == ID_INVALID || !CanClose(VtableOf(f.nodes, InodeOf(f.table, fd))) || result != 0 then (f, 1)
    else
      var g := f.(table := f.table - {fd});
      (if p in f.procs then WithFds(g, p, f.procs[p].fds - {lfd}) else g, 0)
  }

  // ---------- The bijection ----------

  /** Open files to the process and local number that refer to them. */
  type Owners = map<int, (int, int)>

  /** Local descriptors and open files correspond one to one. */
  ghost predicate Paired(f: Files, o: Owners) {
    && o.Keys == f.table.Keys
    && (forall fd :: fd in o ==> o[fd].1 in FdsOf(f, o[fd].0) && FdsOf(f, o[fd].0)[o[fd].1] == fd)
    && (forall p, l :: l in FdsOf(f, p) ==> FdsOf(f, p)[l] in o && o[FdsOf(f, p)[l]] == (p, l))
  }

  /** Numbers still to be handed out are unused. */
  ghost predicate Unused(f: Files) {
    && f.counter >= 0 && (forall fd :: fd in f.table ==> 0 <= fd < f.counter)
    && (forall p :: p in f.procs ==> f.procs[p].lfdCounter >= 0)
    && (forall p, l :: l in FdsOf(f, p) ==> 0 <= l < f.procs[p].lfdCounter)
    && ID_INVALID !in f.nodes
  }

  lemma {:induction false} OwnFdsFit(f: Files, o: Owners, p: int)
    requires Paired(f, o)
    ensures |FdsOf(f, p)| <= |f.table|
  {
    TableFits(FdsOf(f, p), f.table.Keys);
  }

  lemma {:induction false} OpenedFds(f: Files, p: int, inode: int, q: int)
    requires Unused(f)
    ensures var (f', lfd) := Opened(f, p, inode, 0);
            FdsOf(f', q) == if lfd != ID_INVALID && q == p then TableAdd(FdsOf(f, p), lfd, f.counter) else FdsOf(f, q)
  {
  }

  lemma {:induction false} OpenedUnused(f: Files, p: int, inode: int, result: int)
    requires Unused(f)
    ensures Unused(Opened(f, p, inode, result).0)
  {
    var f' := Opened(f, p, inode, result).0;
    forall q, l | l in FdsOf(f', q)
      ensures 0 <= l < f'.procs[q].lfdCounter
    {
      OpenedFds(f, p, inode, q);
      assert l in FdsOf(f, q) ==> 0 <= l < f.procs[q].lfdCounter;
    }
  }

  lemma {:induction false} PairAdded(f: Files, f': Files, o: Owners, p: int, l: int, fd: int)
    requires Paired(f, o) && fd !in f.table && l !in FdsOf(f, p)
    requires f'.table.Keys == f.table.Keys + {fd}
    requires forall q :: FdsOf(f', q) == if q == p then FdsOf(f, p)[l := fd] else FdsOf(f, q)
    ensures Paired(f', o[fd := (p, l)])
  {
  }

  lemma {:induction false} PairDropped(f: Files, f': Files, o: Owners, p: int, l: int)
    requires Paired(f, o) && l in FdsOf(f, p)
    requires f'.table.Keys == f.table.Keys - {FdsOf(f, p)[l]}
    requires forall q :: FdsOf(f', q) == if q == p then FdsOf(f, p) - {l} else FdsOf(f, q)
    ensures Paired(f', o - {FdsOf(f, p)[l]})
  {
  }

  /** What an open changes when the table of open files has room. */
  lemma {:induction false} OpenedShape(f: Files, o: Owners, p: int, inode: int)
    requires Paired(f, o) && Unused(f) && |f.table| < TABLE_CAPACITY && !Refused(f, p, inode, 0)
    ensures var (f', lfd) := Opened(f, p, inode, 0);
            && f.counter !in f.table && f'.table == f.table[f.counter := OpenFile(inode, 0)]
            && lfd !in FdsOf(f, p) && lfd != ID_INVALID && f.counter != ID_INVALID
            && f'.nodes == f.nodes && f'.procs.Keys == f.procs.Keys
            && forall q :: FdsOf(f', q) == if q == p then FdsOf(f, p)[lfd := f.counter] else FdsOf(f, q)
  {
    OwnFdsFit(f, o, p);
    var (f', lfd) := Opened(f, p, inode, 0);
    assert lfd !in FdsOf(f, p);
    forall q
      ensures FdsOf(f', q) == if q == p then FdsOf(f, p)[lfd := f.counter] else FdsOf(f, q)
    {
      OpenedFds(f, p, inode, q);
    }
  }

  /** The number that an open returns leads to the new open file. */
  lemma {:induction false} OpenedLeads(f: Files, o: Owners, p: int, inode: int)
    requires Paired(f, o) && Unused(f) && |f.table| < TABLE_CAPACITY && !Refused(f, p, inode, 0)
    ensures var (f', lfd) := Opened(f, p, inode, 0);
            && FdOf(f', p, lfd) == f.counter && f.counter in f'.table
            && f'.table[f.counter] == OpenFile(inode, 0) && f'.nodes == f.nodes
  {
    OpenedShape(f, o, p, inode);
  }

  /** Numbers that led to an open file before still do. */
  lemma {:induction false} OpenedKeeps(f: Files, o: Owners, p: int, inode: int, q: int, l: int)
    requires Paired(f, o) && Unused(f) && |f.table| < TABLE_CAPACITY && !Refused(f, p, inode, 0)
    requires FdOf(f, q, l) in f.table
    ensures var f' := Opened(f, p, inode, 0).0;
            && FdOf(f', q, l) == FdOf(f, q, l) != f.counter
            && FdOf(f, q, l) in f'.table && f'.table[FdOf(f, q, l)] == f.table[FdOf(f, q, l)]
  {
    OpenedShape(f, o, p, inode);
    assert FdsOf(Opened(f, p, inode, 0).0, q) == if q == p then FdsOf(f, p)[f.procs[p].lfdCounter := f.counter] else FdsOf(f, q);
  }

  /** The correspondence only depends on the descriptors. */
  lemma {:induction false} SameFdsPaired(f: Files, f': Files, o: Owners)
    requires Paired(f, o) && Unused(f) && f' == f.(procs := f'.procs) && SameFds(f.procs, f'.procs)
    ensures Paired(f', o) && Unused(f')
  {
    forall p
      ensures FdsOf(f', p) == FdsOf(f, p)
    {
    }
  }

  lemma {:induction false} OpenedInRoom(f: Files, o: Owners, p: int, inode: int) returns (o': Owners)
    requires Paired(f, o) && Unused(f) && |f.table| < TABLE_CAPACITY
    ensures Paired(Opened(f, p, inode, 0).0, o')
  {
    o' := o;
    if !Refused(f, p, inode, 0) {
      OpenedShape(f, o, p, inode);
      var (f', lfd) := Opened(f, p, inode, 0);
      PairAdded(f, f', o, p, lfd, f.counter);
      o' := o[f.counter := (p, lfd)];
    }
  }

  /** Opening keeps the correspondence exactly when it is refused, or the table of open files has room, or
      the process's own table is full as well; otherwise the number leads to no open file. */
  lemma {:induction false} OpenedPaired(f: Files, o: Owners, p: int, inode: int, result: int)
    requires Paired(f, o) && Unused(f) && |f.table| <= TABLE_CAPACITY
    ensures var (f', lfd) := Opened(f, p, inode, result);
            var kept := Refused(f, p, inode, result) || |f.table| < TABLE_CAPACITY || |FdsOf(f, p)| == TABLE_CAPACITY;
            && ((exists o' :: Paired(f', o')) <==> kept)
            && (!kept ==> lfd in FdsOf(f', p) && FdsOf(f', p)[lfd] !in f'.table)
  {
    var (f', lfd) := Opened(f, p, inode, result);
    OwnFdsFit(f, o, p);
    if Refused(f, p, inode, result) || |f.table| == TABLE_CAPACITY == |FdsOf(f, p)| {
      forall q
        ensures FdsOf(f', q) == FdsOf(f, q)
      {
        OpenedFds(f, p, inode, q);
      }
      assert Paired(f', o);
    } else if |f.table| < TABLE_CAPACITY {
      var o' := OpenedInRoom(f, o, p, inode);
    } else {
      OpenedFds(f, p, inode, p);
      assert FdsOf(f', p)[lfd] == f.counter && f.counter !in f'.table;
    }
  }

  /** A close succeeds only on a number that leads to an open file. */
  lemma {:induction false} CloseFinds(f: Files, p: int, lfd: int, result: int)
    requires Unused(f) && Closed(f, p, lfd, result).1 == 0
    ensures p in f.procs && lfd in FdsOf(f, p) && FdOf(f, p, lfd) == FdsOf(f, p)[lfd] && FdOf(f, p, lfd) in f.table
  {
    var fd := FdOf(f, p, lfd);
    assert InodeOf(f.table, fd) in f.nodes;
    assert fd in f.table;
    assert fd != ID_INVALID;
  }

  lemma {:induction false} ClosedFds(f: Files, p: int, lfd: int, result: int, q: int)
    requires p in f.procs && Closed(f, p, lfd, result).1 == 0
    ensures var f' := Closed(f, p, lfd, result).0;
            && f'.procs.Keys == f.procs.Keys && FdsOf(f', q) == (if q == p then FdsOf(f, p) - {lfd} else FdsOf(f, q))
            && (q in f.procs ==> f'.procs[q].lfdCounter == f.procs[q].lfdCounter)
            && f'.table == f.table - {FdOf(f, p, lfd)} && f'.counter == f.counter && f'.nodes == f.nodes
  {
  }

  /** What a close changes when it succeeds. */
  lemma {:induction false} ClosedShape(f: Files, p: int, lfd: int, result: int)
    requires Unused(f) && Closed(f, p, lfd, result).1 == 0
    ensures var f' := Closed(f, p, lfd, result).0;
            && lfd in FdsOf(f, p) && FdsOf(f, p)[lfd] in f.table
            && f'.table == f.table - {FdsOf(f, p)[lfd]} && Unused(f')
            && forall q :: FdsOf(f', q) == if q == p then FdsOf(f, p) - {lfd} else FdsOf(f, q)
  {
    CloseFinds(f, p, lfd, result);
    var f' := Closed(f, p, lfd, result).0;
    forall q
      ensures FdsOf(f', q) == if q == p then FdsOf(f, p) - {lfd} else FdsOf(f, q)
      ensures f'.procs.Keys == f.procs.Keys && (q in f.procs ==> f'.procs[q].lfdCounter == f.procs[q].lfdCounter)
      ensures f'.table == f.table - {FdOf(f, p, lfd)} && f'.counter == f.counter && f'.nodes == f.nodes
    {
      ClosedFds(f, p, lfd, result, q);
    }
  }

  /** The inode has a driver with the call. */
  predicate HasOpen(nodes: Inodes, inode: int) {
    inode in nodes && nodes[inode].vtable.Some? && nodes[inode].vtable.value.open
  }

  predicate HasClose(nodes: Inodes, inode: int) {
    inode in nodes && nodes[inode].vtable.Some? && nodes[inode].vtable.value.close
  }

  /** Exactly when an open gives a descriptor. */
  lemma {:induction false} OpenSucceeds(f: Files, p: int, inode: int, result: int)
    requires Unused(f)
    ensures Opened(f, p, inode, result).1 != ID_INVALID <==> p in f.procs && HasOpen(f.nodes, inode) && result == 0
  {
  }

  /** Exactly when a close succeeds: the process is valid, the number leads to an open file, that file's inode
      has a driver that closes, and the driver does not object. */
  lemma {:induction false} CloseSucceeds(f: Files, o: Owners, p: int, lfd: int, result: int)
    requires Paired(f, o) && Unused(f)
    ensures lfd in FdsOf(f, p) ==> FdsOf(f, p)[lfd] in f.table
    ensures Closed(f, p, lfd, result).1 == 0 <==>
            && p != ID_INVALID && lfd in FdsOf(f, p) && result == 0
            && HasClose(f.nodes, f.table[FdsOf(f, p)[lfd]].inode)
  {
    if lfd in FdsOf(f, p) {
      assert FdOf(f, p, lfd) == FdsOf(f, p)[lfd];
    } else {
      assert FdOf(f, p, lfd) == ID_INVALID && ID_INVALID !in f.table;
    }
  }

  /** Closing always keeps the correspondence, and frees exactly the open file behind the local number;
      a close that fails changes nothing. */
  lemma {:induction false} ClosedPaired(f: Files, o: Owners, p: int, lfd: int, result: int) returns (o': Owners)
    requires Paired(f, o) && Unused(f)
    ensures var (f', err) := Closed(f, p, lfd, result);
            && Paired(f', o') && Unused(f')
            && (err == 0 ==> lfd in FdsOf(f, p) && FdsOf(f, p)[lfd] in f.table
                             && f'.table == f.table - {FdsOf(f, p)[lfd]} && FdsOf(f', p) == FdsOf(f, p) - {lfd}
                             && forall q :: q != p ==> FdsOf(f', q) == FdsOf(f, q))
            && (err != 0 ==> f' == f)
  {
    var (f', err) := Closed(f, p, lfd, result);
    o' := o;
    if err == 0 {
      ClosedShape(f, p, lfd, result);
      PairDropped(f, f', o, p, lfd);
      o' := o - {FdsOf(f, p)[lfd]};
    }
  }

  /** Closing what was just opened succeeds exactly when the driver can close, and then leaves the tables as
      they were. */
  lemma {:induction false} CloseInvertsOpen(f: Files, o: Owners, p: int, inode: int)
    requires Paired(f, o) && Unused(f) && |f.table| < TABLE_CAPACITY && !Refused(f, p, inode, 0)
    ensures var (f1, lfd) := Opened(f, p, inode, 0);
            var (f2, err) := Closed(f1, p, lfd, 0);
            && (err == 0 <==> p != ID_INVALID && CanClose(VtableOf(f.nodes, inode)))
            && (err == 0 ==> f2.table == f.table && forall q :: FdsOf(f2, q) == FdsOf(f, q))
  {
    OpenedShape(f, o, p, inode);
    var (f1, lfd) := Opened(f, p, inode, 0);
    assert FdOf(f1, p, lfd) == f.counter && InodeOf(f1.table, f.counter) == inode;
    var (f2, err) := Closed(f1, p, lfd, 0);
    if err == 0 {
      AddThenDrop(f.table, f.counter, OpenFile(inode, 0));
      AddThenDrop(FdsOf(f, p), lfd, f.counter);
      forall q
        ensures f2.table == f.table && FdsOf(f2, q) == FdsOf(f, q)
      {
        ClosedFds(f1, p, lfd, 0, q);
      }
    }
  }

  // ---------- Histories ----------

  /** What processes do to open files; a read or a write leaves the offset at `offset`. */
  datatype Op =
    | Open(proc: int, inode: int, result: int)
    | Close(proc: int, lfd: int, result: int)
    | Move(proc: int, lfd: int, offset: nat)

  function Moved(f: Files, p: int, lfd: int, offset: nat): Files {
    f.(table := WithOffset(f.table, FdOf(f, p, lfd), offset))
  }

  /** An open happens while the table of open files has room. */
  predicate Enabled(f: Files, op: Op) {
    op.Open? ==> |f.table| < TABLE_CAPACITY
  }

  function Step(f: Files, op: Op): (Files, int) {
    match op
    case Open(p, inode, result) => Opened(f, p, inode, result)
    case Close(p, lfd, result) => Closed(f, p, lfd, result)
    case Move(p, lfd, offset) => (Moved(f, p, lfd, offset), 0)
  }

  predicate Legal(f: Files, ops: seq<Op>)
    decreases |ops|
  {
    ops == [] || (Enabled(f, ops[0]) && Legal(Step(f, ops[0]).0, ops[1..]))
  }

  function Exec(f: Files, ops: seq<Op>): Files
    decreases |ops|
  {
    if ops == [] then f else Exec(Step(f, ops[0]).0, ops[1..])
  }

  /** The descriptors that successful opens returned, with their processes. */
  function Issued(f: Files, ops: seq<Op>): seq<(int, int)>
    decreases |ops|
  {
    if ops == [] then []
    else
      var (f', r) := Step(f, ops[0]);
      (if ops[0].Open? && r != ID_INVALID then [(ops[0].proc, r)] else []) + Issued(f', ops[1..])
  }

  /** Moving an offset changes nothing else. */
  lemma {:induction false} MovedPaired(f: Files, o: Owners, p: int, lfd: int, offset: nat)
    requires Paired(f, o) && Unused(f)
    ensures var f' := Moved(f, p, lfd, offset);
            && Paired(f', o) && Unused(f') && f'.table.Keys == f.table.Keys && f' == f.(table := f'.table)
            && forall fd :: fd in f.table ==> f'.table[fd].inode == f.table[fd].inode
  {
    var f' := Moved(f, p, lfd, offset);
    assert f'.table.Keys == f.table.Keys;
    assert forall q :: FdsOf(f', q) == FdsOf(f, q);
  }

  lemma {:induction false} StepPaired(f: Files, o: Owners, op: Op) returns (o': Owners)
    requires Paired(f, o) && Unused(f) && Enabled(f, op)
    ensures Paired(Step(f, op).0, o') && Unused(Step(f, op).0)
  {
    match op
    case Open(p, inode, result) =>
      OpenedUnused(f, p, inode, result);
      if result == 0 {
        o' := OpenedInRoom(f, o, p, inode);
      } else {
        o' := o;
      }
    case Close(p, lfd, result) =>
      o' := ClosedPaired(f, o, p, lfd, result);
    case Move(p, lfd, offset) =>
      MovedPaired(f, o, p, lfd, offset);
      o' := o;
  }

  /** Over any run of opens and closes by any processes, local descriptors and open files correspond one
      to one. */
  lemma {:induction false} RunPaired(f: Files, o: Owners, ops: seq<Op>) returns (o': Owners)
    requires Paired(f, o) && Unused(f) && Legal(f, ops)
    ensures Paired(Exec(f, ops), o') && Unused(Exec(f, ops))
    decreases |ops|
  {
    if ops == [] {
      o' := o;
    } else {
      var mid := StepPaired(f, o, ops[0]);
      o' := RunPaired(Step(f, ops[0]).0, mid, ops[1..]);
    }
  }

  // ---------- Closing later ----------

  /** Some close of the number succeeds during the run. */
  predicate ClosedIn(f: Files, ops: seq<Op>, p: int, l: int)
    decreases |ops|
  {
    ops != []
    && ((ops[0].Close? && ops[0].proc == p && ops[0].lfd == l && Step(f, ops[0]).1 == 0)
        || ClosedIn(Step(f, ops[0]).0, ops[1..], p, l))
  }

  /** The number leads to this open file of this inode. */
  predicate Refers(f: Files, p: int, l: int, fd: int, inode: int) {
    l in FdsOf(f, p) && FdsOf(f, p)[l] == fd && fd in f.table && f.table[fd].inode == inode
  }

  lemma {:induction false} OpenRefers(f: Files, o: Owners, p: int, inode: int, result: int, q: int, l: int, fd: int, x: int)
    requires Paired(f, o) && Unused(f) && |f.table| < TABLE_CAPACITY && Refers(f, q, l, fd, x)
    ensures Refers(Opened(f, p, inode, result).0, q, l, fd, x)
  {
    if !Refused(f, p, inode, result) {
      OpenedKeeps(f, o, p, inode, q, l);
      assert FdOf(f, q, l) == fd;
    }
  }

  lemma {:induction false} CloseRefers(f: Files, o: Owners, p: int, lfd: int, result: int, q: int, l: int, fd: int, x: int)
    requires Paired(f, o) && Unused(f) && Refers(f, q, l, fd, x)
    requires !(p == q && lfd == l && Closed(f, p, lfd, result).1 == 0)
    ensures Refers(Closed(f, p, lfd, result).0, q, l, fd, x)
  {
    if Closed(f, p, lfd, result).1 == 0 {
      ClosedShape(f, p, lfd, result);
      assert o[fd] == (q, l);
    }
  }

  lemma {:induction false} StepRefers(f: Files, o: Owners, op: Op, q: int, l: int, fd: int, x: int)
    requires Paired(f, o) && Unused(f) && Enabled(f, op) && Refers(f, q, l, fd, x)
    requires !(op.Close? && op.proc == q && op.lfd == l && Step(f, op).1 == 0)
    ensures Refers(Step(f, op).0, q, l, fd, x)
  {
    match op
    case Open(p, inode, result) => OpenRefers(f, o, p, inode, result, q, l, fd, x);
    case Close(p, lfd, result) => CloseRefers(f, o, p, lfd, result, q, l, fd, x);
    case Move(p, lfd, offset) => MovedPaired(f, o, p, lfd, offset);
  }

  lemma {:induction false} StepKeepsNodes(f: Files, op: Op)
    ensures Step(f, op).0.nodes == f.nodes
  {
  }

  lemma {:induction false} RunKeepsNodes(f: Files, ops: seq<Op>)
    ensures Exec(f, ops).nodes == f.nodes
    decreases |ops|
  {
    if ops != [] {
      StepKeepsNodes(f, ops[0]);
      RunKeepsNodes(Step(f, ops[0]).0, ops[1..]);
    }
  }

  lemma {:induction false} StillRefers(f: Files, ops: seq<Op>, q: int, l: int, fd: int, x: int, o: Owners)
    requires Paired(f, o) && Unused(f) && Legal(f, ops) && Refers(f, q, l, fd, x) && !ClosedIn(f, ops, q, l)
    ensures Refers(Exec(f, ops), q, l, fd, x)
    decreases |ops|
  {
    if ops != [] {
      StepRefers(f, o, ops[0], q, l, fd, x);
      var mid := StepPaired(f, o, ops[0]);
      StillRefers(Step(f, ops[0]).0, ops[1..], q, l, fd, x, mid);
    }
  }

  /** A number that was issued and not closed since can be closed, whatever was opened, closed, read and written
      in between, if the file's driver can close; that frees exactly the number and its open file. */
  lemma {:induction false} ClosableLater(f: Files, o: Owners, p: int, inode: int, ops: seq<Op>)
    requires Paired(f, o) && Unused(f) && |f.table| < TABLE_CAPACITY && !Refused(f, p, inode, 0) && p != ID_INVALID
    requires Legal(Opened(f, p, inode, 0).0, ops)
    requires !ClosedIn(Opened(f, p, inode, 0).0, ops, p, Opened(f, p, inode, 0).1)
    ensures var (f1, lfd) := Opened(f, p, inode, 0);
            var g := Exec(f1, ops);
            var (g', err) := Closed(g, p, lfd, 0);
            && lfd in FdsOf(g, p) && f.counter in g.table
            && (err == 0 <==> HasClose(f.nodes, inode))
            && (err == 0 ==> g'.table == g.table - {f.counter} && FdsOf(g', p) == FdsOf(g, p) - {lfd}
                             && forall q :: q != p ==> FdsOf(g', q) == FdsOf(g, q))
  {
    var (f1, lfd) := Opened(f, p, inode, 0);
    var o1 := OpenedInRoom(f, o, p, inode);
    OpenedUnused(f, p, inode, 0);
    OpenedLeads(f, o, p, inode);
    assert Refers(f1, p, lfd, f.counter, inode);
    StillRefers(f1, ops, p, lfd, f.counter, inode, o1);
    RunKeepsNodes(f1, ops);
    var o' := RunPaired(f1, o1, ops);
    CloseSucceeds(Exec(f1, ops), o', p, lfd, 0);
    var o2 := ClosedPaired(Exec(f1, ops), o', p, lfd, 0);
  }

  function NextLfd(f: Files, p: int): int {
    if p in f.procs then f.procs[p].lfdCounter else 0
  }

  lemma {:induction false} IssuedLater(f: Files, ops: seq<Op>)
    ensures forall i :: 0 <= i < |Issued(f, ops)| ==> Issued(f, ops)[i].1 >= NextLfd(f, Issued(f, ops)[i].0)
    decreases |ops|
  {
    if ops != [] {
      IssuedLater(Step(f, ops[0]).0, ops[1..]);
    }
  }

  /** A process never gets the same number twice, even after closing it. */
  lemma {:induction false} NeverReused(f: Files, ops: seq<Op>)
    ensures forall i, j :: 0 <= i < j < |Issued(f, ops)| ==> Issued(f, ops)[i] != Issued(f, ops)[j]
    decreases |ops|
  {
    if ops != [] {
      var (f', r) := Step(f, ops[0]);
      NeverReused(f', ops[1..]);
      IssuedLater(f', ops[1..]);
    }
  }

  // ---------- A run to a number that leads nowhere ----------

  function Opens(p: int, inode: int, n: nat): seq<Op> {
    if n == 0 then [] else [Open(p, inode, 0)] + Opens(p, inode, n - 1)
  }

  /** The run is legal and ends in the given state. */
  ghost predicate Leads(f: Files, ops: seq<Op>, f': Files) {
    Legal(f, ops) && Exec(f, ops) == f'
  }

  lemma {:induction false} LeadsOn(f: Files, op: Op, mid: Files, ops: seq<Op>, f': Files)
    requires Enabled(f, op) && mid == Step(f, op).0 && Leads(mid, ops, f')
    ensures Leads(f, [op] + ops, f')
  {
    assert ([op] + ops)[1..] == ops;
  }

  lemma {:induction false} LeadsJoin(f: Files, a: seq<Op>, mid: Files, b: seq<Op>, f': Files)
    requires Leads(f, a, mid) && Leads(mid, b, f')
    ensures Leads(f, a + b, f')
    decreases |a|
  {
    if a == [] {
      assert a + b == b;
    } else {
      LeadsJoin(Step(f, a[0]).0, a[1..], mid, b, f');
      LeadsOn(f, a[0], Step(f, a[0]).0, a[1..] + b, f');
      assert [a[0]] + (a[1..] + b) == a + b;
    }
  }

  /** How many descriptors a process has. */
  function FdCount(f: Files, p: int): nat {
    |FdsOf(f, p)|
  }

  lemma {:induction false} OpenGrows(f: Files, p: int, inode: int, q: int)
    requires Unused(f) && !Refused(f, p, inode, 0) && |f.table| < TABLE_CAPACITY && FdCount(f, p) < TABLE_CAPACITY
    ensures var f' := Opened(f, p, inode, 0).0;
            && |f'.table| == |f.table| + 1 && Refused(f', q, inode, 0) == Refused(f, q, inode, 0)
            && FdCount(f', q) == FdCount(f, q) + if q == p then 1 else 0
  {
    assert f.counter !in f.table && f.procs[p].lfdCounter !in FdsOf(f, p);
  }

  lemma {:induction false} OpensMore(p: int, inode: int, n: nat)
    requires n > 0
    ensures Opens(p, inode, n) == [Open(p, inode, 0)] + Opens(p, inode, n - 1)
  {
  }

  lemma {:induction false} OpensFill(f: Files, p: int, inode: int, n: nat, q: int) returns (f': Files)
    requires Unused(f) && !Refused(f, p, inode, 0)
    requires |f.table| + n <= TABLE_CAPACITY && FdCount(f, p) + n <= TABLE_CAPACITY
    ensures Leads(f, Opens(p, inode, n), f') && |f'.table| == |f.table| + n
    ensures Unused(f') && Refused(f', q, inode, 0) == Refused(f, q, inode, 0)
    ensures FdCount(f', q) == FdCount(f, q) + if q == p then n else 0
    decreases n
  {
    f' := f;
    if n > 0 {
      var f1 := Opened(f, p, inode, 0).0;
      OpenGrows(f, p, inode, q);
      OpenGrows(f, p, inode, p);
      OpenedUnused(f, p, inode, 0);
      f' := OpensFill(f1, p, inode, n - 1, q);
      LeadsOn(f, Open(p, inode, 0), f1, Opens(p, inode, n - 1), f');
      OpensMore(p, inode, n);
    }
  }

  /** The file tables after boot, with the kernel process and one that was created. */
  function AtBoot(nodes: Inodes): Files {
    Files(map[], 0, Processes.Created(Processes.Initial()).procs, nodes)
  }

  lemma {:induction false} NoneOpen(f: Files)
    requires f.table == map[] && f.counter >= 0 && ID_INVALID !in f.nodes
    requires forall p :: p in f.procs ==> f.procs[p].fds == map[] && f.procs[p].lfdCounter >= 0
    ensures Paired(f, map[]) && Unused(f)
  {
    assert forall p :: FdsOf(f, p) == map[];
  }

  lemma {:induction false} BootPaired(nodes: Inodes)
    requires ID_INVALID !in nodes
    ensures Paired(AtBoot(nodes), map[]) && Unused(AtBoot(nodes))
    ensures FdCount(AtBoot(nodes), 1) == FdCount(AtBoot(nodes), 2) == 0
  {
    NoneOpen(AtBoot(nodes));
  }

  lemma {:induction false} TwoFill(nodes: Inodes, inode: int, n: nat) returns (full: Files)
    requires ID_INVALID !in nodes && CanOpen(VtableOf(nodes, inode)) && 0 < n <= TABLE_CAPACITY
    ensures Leads(AtBoot(nodes), Opens(1, inode, n) + Opens(2, inode, TABLE_CAPACITY - n), full)
    ensures |full.table| == TABLE_CAPACITY && FdCount(full, 2) == TABLE_CAPACITY - n && !Refused(full, 2, inode, 0)
  {
    var f, rest: nat := AtBoot(nodes), TABLE_CAPACITY - n;
    BootPaired(nodes);
    var mid := OpensFill(f, 1, inode, n, 2);
    full := OpensFill(mid, 2, inode, rest, 2);
    LeadsJoin(f, Opens(1, inode, n), mid, Opens(2, inode, rest), full);
  }

  /** After boot two processes can fill the table of open files between them; the next open by one of them
      then returns a number that leads nowhere. */
  lemma {:induction false} OpensOverflow(nodes: Inodes, inode: int, n: nat)
    requires ID_INVALID !in nodes && CanOpen(VtableOf(nodes, inode)) && 0 < n <= 256
    ensures var ops := Opens(1, inode, n) + Opens(2, inode, 256 - n);
            var f := Exec(AtBoot(nodes), ops);
            var (f', lfd) := Opened(f, 2, inode, 0);
            && Legal(AtBoot(nodes), ops)
            && lfd in FdsOf(f', 2) && FdsOf(f', 2)[lfd] !in f'.table && !exists o' :: Paired(f', o')
  {
    var full := TwoFill(nodes, inode, n);
    BootPaired(nodes);
    var o := RunPaired(AtBoot(nodes), map[], Opens(1, inode, n) + Opens(2, inode, 256 - n));
    OpenedPaired(full, o, 2, inode, 0);
  }
}
