/** The file calls of a process, and the way from an archive in memory to the bytes a reader gets. */
module FileCalls {
  import opened Common
  import opened Path
  import opened Namespace
  import opened VirtualFs
  import opened Tar
  import opened Initrd
  import opened Ramdisk
  import opened Kernel
  import opened Descriptors

  ghost function FilesOf(k: Scheduler, v: Vfs): Files
    reads k, v
  {
    Files(v.files, v.fileCounter, k.procs, v.nodes)
  }

  /** `fd_open`; `result` is what the driver's own call returns. */
  method FdOpen(k: Scheduler, v: Vfs, inode: int, result: int) returns (lfd: int)
    modifies k`procs, v`files, v`fileCounter
    ensures (FilesOf(k, v), lfd) == Opened(old(FilesOf(k, v)), k.cproc, inode, result)
  {
    var vtable := v.GetVtable(inode);
    if vtable.None? || !vtable.value.open {
      return ID_INVALID;
    }
    if result != 0 {
      return ID_INVALID;
    }
    lfd := k.ProcCreateFd(v, k.cproc, inode);
  }

  /** `fd_close`: first the table of open files, then the process's own. */
  method FdClose(k: Scheduler, v: Vfs, lfd: int, result: int) returns (err: int)
    modifies k`procs, v`files
    ensures (FilesOf(k, v), err) == Closed(old(FilesOf(k, v)), k.cproc, lfd, result)
  {
    if k.cproc == ID_INVALID {
      return 1;
    }
    var fd := k.ProcGetFd(k.cproc, lfd);
    var inode := v.FdInode(fd);
    var vtable := v.GetVtable(inode);
    if vtable.None? || !vtable.value.close {
      return 1;
    }
    if result != 0 {
      return 1;
    }
    var e := v.DeleteFd(fd);
    e := k.ProcDeleteFd(k.cproc, lfd);
    return 0;
  }

  /** The drivers' headers point into memory. */
  ghost predicate HeadersIn(headers: map<int, nat>, mem: seq<Byte>) {
    forall id :: id in headers ==> headers[id] + BLOCK + SizeOfHeader(mem, headers[id]) <= |mem|
  }

  /** What a read through open file `fd` does, where the only driver that reads is the ramdisk's: its result,
      the table of open files after it, and the buffer after it. */
  ghost predicate DidRead(headers: map<int, nat>, mem: seq<Byte>, nodes: Inodes, files: map<int, OpenFile>, fd: int, n: nat,
                          before: seq<Byte>, r: int, after: map<int, OpenFile>, now: seq<Byte>)
    requires 0 < n <= |before| && HeadersIn(headers, mem)
  {
    var inode, offset := InodeOf(files, fd), OffsetOf(files, fd);
    if VtableOf(nodes, inode).None? || !VtableOf(nodes, inode).value.read then
      r == 0 && after == files && now == before
    else if inode in headers then
      var c := Chunk(FileData(mem, headers[inode]), offset, n);
      r == |c| < n && now == c + [0] + before[r + 1..] && after == WithOffset(files, fd, offset + r)
    else
      r == -1 && after == files && now == before
  }

  /** `fd_read` once the open file is known. */
  method ReadThrough(v: Vfs, d: Driver, mem: seq<Byte>, fd: int, rbuff: array<Byte>, n: nat) returns (r: int)
    requires 0 < n <= rbuff.Length && HeadersIn(d.headers, mem)
    modifies v`files, rbuff
    ensures DidRead(d.headers, mem, v.nodes, old(v.files), fd, n, old(rbuff[..]), r, v.files, rbuff[..])
  {
    var inode := v.FdInode(fd);
    var vtable := v.GetVtable(inode);
    if vtable.None? || !vtable.value.read {
      return 0;
    }
    r := d.ReadCall(v, mem, fd, rbuff, n);
  }

  /** `fd_read`. */
  method FdRead(k: Scheduler, v: Vfs, d: Driver, mem: seq<Byte>, lfd: int, rbuff: array<Byte>, n: nat) returns (r: int)
    requires 0 < n <= rbuff.Length && HeadersIn(d.headers, mem)
    modifies v`files, rbuff
    ensures k.cproc == ID_INVALID ==> r == 1 && v.files == old(v.files) && rbuff[..] == old(rbuff[..])
    ensures k.cproc != ID_INVALID ==>
              DidRead(d.headers, mem, v.nodes, old(v.files), FdIn(k.procs, k.cproc, lfd), n, old(rbuff[..]), r, v.files, rbuff[..])
  {
    if k.cproc == ID_INVALID {
      return 1;
    }
    var fd := k.ProcGetFd(k.cproc, lfd);
    r := ReadThrough(v, d, mem, fd, rbuff, n);
  }

  // ---------- From the archive to the reader ----------

  /** The tree at boot: one directory, the root of the ramdisk's filesystem. */
  const BOOT_TREE := Tree(Rooted(Graph(map[], 0, ID_INVALID), 0), map[])

  lemma {:induction false} BootTreeIs()
    ensures BOOT_TREE.g == Graph(map[0 := Inode(Directory, 0, None, [])], 1, 0) && BOOT_TREE.headers == map[]
    ensures forall p :: Kids(BOOT_TREE.g.nodes, p) == []
  {
  }

  lemma {:induction false} BootTreeKept()
    ensures Kept(BOOT_TREE)
    ensures forall names :: names != [] ==> Resolve(BOOT_TREE.g.nodes, BOOT_TREE.g.root, names) == ID_INVALID
  {
    BootTreeIs();
  }

  /** The archive's tree fits the kernel's tables. */
  ghost predicate Fits(start: nat, entries: seq<Entry>) {
    AllAdded(BOOT_TREE, ItemsOf(start, entries), 0).g.counter <= TABLE_CAPACITY
  }

  /** No earlier entry has made the `k`-th entry's path. */
  ghost predicate FirstOfItsPath(entries: seq<Entry>, k: nat)
    requires k < |entries|
  {
    forall j :: 0 <= j < k ==> !(Names(entries[k].name) <= Names(entries[j].name))
  }

  /** After the archive is read a path resolves exactly when it is a prefix of an entry's path. */
  lemma {:induction false} PathsResolve(start: nat, entries: seq<Entry>, q: seq<CString>)
    requires Fits(start, entries)
    ensures var t := AllAdded(BOOT_TREE, ItemsOf(start, entries), 0);
            Resolve(t.g.nodes, t.g.root, q) != ID_INVALID <==>
            q == [] || exists k :: 0 <= k < |entries| && q <= Names(entries[k].name)
  {
    var items := ItemsOf(start, entries);
    BootTreeKept();
    ItemsAreCut(start, entries);
    AllAddedExact(BOOT_TREE, items, 0, q);
    AllGrow(BOOT_TREE, items, 0);
    forall k | 0 <= k < |entries|
      ensures items[k].names == Names(entries[k].name)
    {
      ItemsAre(start, entries, k);
    }
  }

  /** A regular file whose path is its own leads to an inode with its driver and its header. */
  lemma {:induction false} FileResolves(start: nat, entries: seq<Entry>, k: nat)
    requires Fits(start, entries) && k < |entries| && FirstOfItsPath(entries, k)
    requires entries[k].typeflag == REGULAR && Names(entries[k].name) != []
    ensures var t := AllAdded(BOOT_TREE, ItemsOf(start, entries), 0);
            var x := Resolve(t.g.nodes, t.g.root, Names(entries[k].name));
            && VtableOf(t.g.nodes, x) == Some(DRIVER)
            && x in t.headers && t.headers[x] == AddressOf(start, entries, k)
  {
    var items := ItemsOf(start, entries);
    BootTreeKept();
    ItemsAreCut(start, entries);
    AllGrow(BOOT_TREE, items, 0);
    forall j | 0 <= j < |entries|
      ensures items[j] == Item(Names(entries[j].name), entries[j].typeflag, AddressOf(start, entries, j))
    {
      ItemsAre(start, entries, j);
    }
    MemberFound(BOOT_TREE, items, 0, k);
  }

  /** The root is a directory without a driver. */
  lemma {:induction false} BootedRoot(start: nat, entries: seq<Entry>)
    requires Fits(start, entries)
    ensures var t := AllAdded(BOOT_TREE, ItemsOf(start, entries), 0);
            t.g.root == BOOT_TREE.g.root && PlainDirectory(t, t.g.root, 0)
  {
    BootTreeKept();
    ItemsAreCut(start, entries);
    AllGrow(BOOT_TREE, ItemsOf(start, entries), 0);
    AllAddedExact(BOOT_TREE, ItemsOf(start, entries), 0, []);
    BootTreeIs();
  }

  /** After the archive is read every other inode is some entry's, by the format, or a directory on the way to
      one. So it has the driver and a header exactly when it is the inode of an entry of type '0'. */
  lemma {:induction false} EveryBootedInode(start: nat, entries: seq<Entry>, x: int) returns (k: nat, j: nat)
    requires Fits(start, entries)
    requires x in AllAdded(BOOT_TREE, ItemsOf(start, entries), 0).g.nodes && x != BOOT_TREE.g.root
    ensures k < |entries| && 0 < j <= |Names(entries[k].name)|
    ensures var t, names := AllAdded(BOOT_TREE, ItemsOf(start, entries), 0), Names(entries[k].name);
            var file := j == |names| && entries[k].typeflag == '0' as int;
            && Resolve(t.g.nodes, t.g.root, names[..j]) == x
            && (j == |names| ==> OfFormat(t, x, entries[k].typeflag, 0, AddressOf(start, entries, k)))
            && (j < |names| ==> PlainDirectory(t, x, 0))
            && (VtableOf(t.g.nodes, x).Some? <==> file) && (x in t.headers <==> file)
  {
    var items := ItemsOf(start, entries);
    BootTreeKept();
    BootTreeIs();
    BootPaths();
    ItemsAreCut(start, entries);
    AllGrow(BOOT_TREE, items, 0);
    k, j := EveryInode(BOOT_TREE, items, 0, x);
    ItemsAre(start, entries, k);
  }

  lemma {:induction false} BootPaths()
    ensures AllHavePaths(BOOT_TREE) && forall x :: x in BOOT_TREE.g.nodes <==> x == BOOT_TREE.g.root
  {
    BootTreeIs();
    assert Resolve(BOOT_TREE.g.nodes, BOOT_TREE.g.root, []) == 0;
  }

  /** Members' names are never cut: the format's names are shorter than the buffer. */
  lemma {:induction false} MemberNamesAreWhole(mem: seq<Byte>, header: nat, e: Entry)
    requires EntryAt(mem, header, e)
    ensures Names(e.name) == Elements(e.name)
  {
    ShortPathIsWhole(e.name);
  }

  lemma {:induction false} AddressesDiffer(start: nat, entries: seq<Entry>, i: nat, k: nat)
    requires i < k <= |entries|
    ensures AddressOf(start, entries, i) < AddressOf(start, entries, k)
    decreases k
  {
    var next := start + BLOCK + Padded(|entries[0].data|);
    if i > 0 {
      AddressesDiffer(next, entries[1..], i - 1, k - 1);
    } else if k > 1 {
      AddressesDiffer(next, entries[1..], 0, k - 1);
    }
  }

  /** Of an entry whose path an earlier entry made no inode has the header. */
  lemma {:induction false} LateFileIsLost(start: nat, entries: seq<Entry>, k: nat)
    requires Fits(start, entries) && k < |entries| && !FirstOfItsPath(entries, k)
    ensures var t := AllAdded(BOOT_TREE, ItemsOf(start, entries), 0);
            forall x :: x in t.headers ==> t.headers[x] != AddressOf(start, entries, k)
  {
    var items := ItemsOf(start, entries);
    BootTreeKept();
    ItemsAreCut(start, entries);
    AllGrow(BOOT_TREE, items, 0);
    var places := set i | 0 <= i < |items| && i != k :: items[i].header;
    forall i | 0 <= i < |entries|
      ensures items[i] == Item(Names(entries[i].name), entries[i].typeflag, AddressOf(start, entries, i))
      ensures i != k ==> AddressOf(start, entries, i) != AddressOf(start, entries, k)
    {
      ItemsAre(start, entries, i);
      if i < k {
        AddressesDiffer(start, entries, i, k);
      } else if k < i {
        AddressesDiffer(start, entries, k, i);
      }
    }
    LateMember(BOOT_TREE, items, 0, k, places);
  }

  /** Exactly when a path leads to the contents of an entry: the inode at a regular file's path has that file's
      header if and only if no earlier entry made the path. */
  lemma {:induction false} FileFoundExactly(start: nat, entries: seq<Entry>, k: nat)
    requires Fits(start, entries) && k < |entries|
    requires entries[k].typeflag == REGULAR && Names(entries[k].name) != []
    ensures var t := AllAdded(BOOT_TREE, ItemsOf(start, entries), 0);
            var x := Resolve(t.g.nodes, t.g.root, Names(entries[k].name));
            x in t.headers && t.headers[x] == AddressOf(start, entries, k) <==> FirstOfItsPath(entries, k)
  {
    if FirstOfItsPath(entries, k) {
      FileResolves(start, entries, k);
    } else {
      LateFileIsLost(start, entries, k);
    }
  }

  // ---------- Headers stay in the archive ----------

  lemma {:induction false} HeaderPlaces(mem: seq<Byte>, start: nat, entries: seq<Entry>, place: nat)
    requires ArchiveAt(mem, start, entries)
    requires exists k :: 0 <= k < |entries| && ItemsOf(start, entries)[k].header == place
    ensures place + BLOCK + SizeOfHeader(mem, place) <= |mem|
  {
    var k :| 0 <= k < |entries| && ItemsOf(start, entries)[k].header == place;
    ItemsAre(start, entries, k);
    EntryData(mem, start, entries, k);
  }

  lemma {:induction false} HeadersInMemory(mem: seq<Byte>, start: nat, entries: seq<Entry>)
    requires ArchiveAt(mem, start, entries)
    ensures var headers := AllAdded(BOOT_TREE, ItemsOf(start, entries), 0).headers;
            forall id :: id in headers ==> headers[id] + BLOCK + SizeOfHeader(mem, headers[id]) <= |mem|
  {
    var items := ItemsOf(start, entries);
    var places := set k | 0 <= k < |items| :: items[k].header;
    ArchiveHeaders(BOOT_TREE, items, 0, places);
    var headers := AllAdded(BOOT_TREE, items, 0).headers;
    forall id | id in headers
      ensures headers[id] + BLOCK + SizeOfHeader(mem, headers[id]) <= |mem|
    {
      assert headers[id] in places;
      HeaderPlaces(mem, start, entries, headers[id]);
    }
  }

  // ---------- The round trip ----------

  /** The bytes of each of the driver's files, by inode. */
  type Contents = map<int, seq<Byte>>

  ghost predicate Serves(headers: map<int, nat>, mem: seq<Byte>, contents: Contents) {
    && contents.Keys == headers.Keys && HeadersIn(headers, mem)
    && forall id :: id in contents ==> FileData(mem, headers[id]) == contents[id]
  }

  /** Process `p`'s descriptor `lfd` is open file `fd`, at this offset of a ramdisk file with this data. */
  ghost predicate OpenOn(f: Files, contents: Contents, p: int, lfd: int, fd: int, data: seq<Byte>, offset: nat) {
    && p != ID_INVALID && fd == FdOf(f, p, lfd)
    && fd in f.table && f.table[fd].offset == offset <= |data|
    && VtableOf(f.nodes, f.table[fd].inode) == Some(DRIVER)
    && f.table[fd].inode in contents && contents[f.table[fd].inode] == data
  }

  /** One read through one open file; all others stay as they are. */
  method ReadOnce(k: Scheduler, v: Vfs, d: Driver, mem: seq<Byte>, lfd: int, n: nat,
                  ghost contents: Contents, ghost fd: int, ghost data: seq<Byte>, ghost offset: nat)
    returns (chunk: seq<Byte>)
    requires n > 0 && Serves(d.headers, mem, contents) && OpenOn(FilesOf(k, v), contents, k.cproc, lfd, fd, data, offset)
    modifies v`files
    ensures chunk == Chunk(data, offset, n) && OpenOn(FilesOf(k, v), contents, k.cproc, lfd, fd, data, offset + |chunk|)
    ensures v.files == WithOffset(old(v.files), fd, offset + |chunk|)
  {
    var rbuff := new Byte[n];
    var r := FdRead(k, v, d, mem, lfd, rbuff, n);
    chunk := rbuff[..r];
  }

  /** What was read, with what the buffers from the `i`-th on still get, is the goal. */
  ghost predicate OnTrack(data: seq<Byte>, at: nat, sizes: seq<nat>, i: nat, out: seq<Byte>, goal: seq<Byte>) {
    i <= |sizes| && out + ReadAll(data, at, sizes[i..]) == goal
  }

  lemma {:induction false} TrackEnds(data: seq<Byte>, at: nat, sizes: seq<nat>, out: seq<Byte>, goal: seq<Byte>)
    ensures OnTrack(data, at, sizes, 0, [], ReadAll(data, at, sizes))
    ensures OnTrack(data, at, sizes, |sizes|, out, goal) ==> out == goal
  {
    assert sizes[0..] == sizes && sizes[|sizes|..] == [];
  }

  lemma {:induction false} TrackGoesOn(data: seq<Byte>, at: nat, sizes: seq<nat>, i: nat, out: seq<Byte>, goal: seq<Byte>, chunk: seq<Byte>)
    requires OnTrack(data, at, sizes, i, out, goal) && i < |sizes| && chunk == Chunk(data, at, sizes[i])
    ensures OnTrack(data, at + |chunk|, sizes, i + 1, out + chunk, goal)
  {
    assert sizes[i..][1..] == sizes[i + 1..];
    ReadAllStep(data, at, sizes[i..]);
    JoinsAssociate(out, chunk, ReadAll(data, at + |chunk|, sizes[i + 1..]));
  }

  /** The read into the `i`-th buffer. */
  method ReadNext(k: Scheduler, v: Vfs, d: Driver, mem: seq<Byte>, lfd: int, n: nat, out: seq<Byte>,
                  ghost sizes: seq<nat>, ghost i: nat, ghost goal: seq<Byte>,
                  ghost contents: Contents, ghost fd: int, ghost data: seq<Byte>, ghost at: nat)
    returns (more: seq<Byte>, ghost next: nat)
    requires i < |sizes| && n == sizes[i] > 0 && OnTrack(data, at, sizes, i, out, goal)
    requires Serves(d.headers, mem, contents) && OpenOn(FilesOf(k, v), contents, k.cproc, lfd, fd, data, at)
    modifies v`files
    ensures OpenOn(FilesOf(k, v), contents, k.cproc, lfd, fd, data, next) && OnTrack(data, next, sizes, i + 1, more, goal)
  {
    var chunk := ReadOnce(k, v, d, mem, lfd, n, contents, fd, data, at);
    TrackGoesOn(data, at, sizes, i, out, goal, chunk);
    more, next := out + chunk, at + |chunk|;
  }

  /** A process reading until its buffers are used up. */
  method ReadInto(k: Scheduler, v: Vfs, d: Driver, mem: seq<Byte>, lfd: int, sizes: seq<nat>,
                  ghost contents: Contents, ghost fd: int, ghost data: seq<Byte>, ghost offset: nat)
    returns (out: seq<Byte>)
    requires 0 !in sizes && Serves(d.headers, mem, contents) && OpenOn(FilesOf(k, v), contents, k.cproc, lfd, fd, data, offset)
    modifies v`files
    ensures out == ReadAll(data, offset, sizes)
  {
    out := [];
    ghost var at: nat, goal := offset, ReadAll(data, offset, sizes);
    TrackEnds(data, offset, sizes, [], goal);
    for i := 0 to |sizes|
      invariant OpenOn(FilesOf(k, v), contents, k.cproc, lfd, fd, data, at)
      invariant OnTrack(data, at, sizes, i, out, goal)
    {
      assert sizes[i] in sizes;
      out, at := ReadNext(k, v, d, mem, lfd, sizes[i], out, sizes, i, goal, contents, fd, data, at);
    }
    TrackEnds(data, at, sizes, out, goal);
  }

  // ---------- Booting ----------

  /** The ramdisk's tree is the archive's. */
  ghost predicate Mounted(g: Graph, headers: map<int, nat>, start: nat, entries: seq<Entry>) {
    && Tree(g, headers) == AllAdded(BOOT_TREE, ItemsOf(start, entries), 0)
    && g.root == BOOT_TREE.g.root && ID_INVALID !in g.nodes
  }

  /** The ramdisk as `main` sets it up. */
  method Boot(mem: seq<Byte>, start: nat, ghost entries: seq<Entry>) returns (v: Vfs, d: Driver, ghost contents: Contents)
    requires ArchiveAt(mem, start, entries) && Fits(start, entries)
    ensures fresh(v) && fresh(d) && v.files == map[] && v.fileCounter == 0
    ensures Mounted(v.View(), d.headers, start, entries) && Serves(d.headers, mem, contents)
  {
    v := new Vfs();
    d := new Driver();
    assert Tree(Rooted(v.View(), 0), d.headers) == BOOT_TREE;
    var fs := d.Create(v, mem, start, entries);
    BootedTree(start, entries);
    HeadersInMemory(mem, start, entries);
    contents := map id | id in d.headers :: FileData(mem, d.headers[id]);
  }

  lemma {:induction false} BootedTree(start: nat, entries: seq<Entry>)
    requires Fits(start, entries)
    ensures var t := AllAdded(BOOT_TREE, ItemsOf(start, entries), 0);
            t.g.root == BOOT_TREE.g.root && Kept(t) && ID_INVALID !in t.g.nodes
  {
    BootTreeKept();
    ItemsAreCut(start, entries);
    AllGrow(BOOT_TREE, ItemsOf(start, entries), 0);
    AllAddedExact(BOOT_TREE, ItemsOf(start, entries), 0, []);
  }

  /** The path, in any spelling, of a regular file that no earlier entry made. */
  ghost predicate NamesFile(entries: seq<Entry>, k: nat, path: CString) {
    && k < |entries| && FirstOfItsPath(entries, k) && entries[k].typeflag == REGULAR
    && Names(path) == Names(entries[k].name) != []
  }

  /** A file is found by its name in the archive with any number of slashes in front of it and behind it. */
  lemma {:induction false} AnySlashes(entries: seq<Entry>, k: nat, m: nat, n: nat)
    requires k < |entries| && NamesFile(entries, k, entries[k].name)
    ensures NamesFile(entries, k, Slashes(m) + entries[k].name + Slashes(n))
  {
    SameNames(m, entries[k].name, n);
  }

  /** The path leads to a ramdisk file with this data. */
  ghost predicate FileAt(nodes: Inodes, root: int, contents: Contents, path: CString, data: seq<Byte>) {
    var inode := Resolve(nodes, root, Names(path));
    VtableOf(nodes, inode) == Some(DRIVER) && inode in contents && contents[inode] == data
  }

  lemma {:induction false} EntryIsFile(g: Graph, headers: map<int, nat>, mem: seq<Byte>, start: nat, entries: seq<Entry>,
                                       contents: Contents, k: nat, path: CString)
    requires ArchiveAt(mem, start, entries) && Fits(start, entries) && NamesFile(entries, k, path)
    requires Mounted(g, headers, start, entries) && Serves(headers, mem, contents)
    ensures FileAt(g.nodes, g.root, contents, path, entries[k].data)
  {
    FileResolves(start, entries, k);
    EntryData(mem, start, entries, k);
    BootedTree(start, entries);
  }

  /** The running process opens a ramdisk file. */
  method OpenPath(kernel: Scheduler, v: Vfs, path: CString, ghost contents: Contents, ghost data: seq<Byte>, ghost o: Owners)
    returns (lfd: int, ghost inode: int)
    requires FileAt(v.nodes, v.root, contents, path, data)
    requires kernel.cproc in kernel.procs && kernel.cproc != ID_INVALID
    requires Paired(FilesOf(kernel, v), o) && Unused(FilesOf(kernel, v)) && |v.files| < TABLE_CAPACITY
    modifies kernel`procs, v`files, v`fileCounter
    ensures !Refused(old(FilesOf(kernel, v)), kernel.cproc, inode, 0)
    ensures (FilesOf(kernel, v), lfd) == Opened(old(FilesOf(kernel, v)), kernel.cproc, inode, 0)
    ensures OpenOn(FilesOf(kernel, v), contents, kernel.cproc, lfd, old(v.fileCounter), data, 0)
  {
    var file := v.GetInode(path);
    OpenedLeads(FilesOf(kernel, v), o, kernel.cproc, file);
    lfd := FdOpen(kernel, v, file, 0);
    inode := file;
  }

  /** The kernel process opens the `k`-th entry's file. */
  method BootAndOpen(mem: seq<Byte>, start: nat, ghost entries: seq<Entry>, ghost k: nat, path: CString)
    returns (kernel: Scheduler, v: Vfs, d: Driver, lfd: int, ghost contents: Contents)
    requires ArchiveAt(mem, start, entries) && Fits(start, entries) && NamesFile(entries, k, path)
    ensures fresh(v) && Serves(d.headers, mem, contents)
    ensures OpenOn(FilesOf(kernel, v), contents, kernel.cproc, lfd, 0, entries[k].data, 0)
  {
    v, d, contents := Boot(mem, start, entries);
    kernel := new Scheduler();
    NoneOpen(FilesOf(kernel, v));
    ghost var inode;
    EntryIsFile(v.View(), d.headers, mem, start, entries, contents, k, path);
    lfd, inode := OpenPath(kernel, v, path, contents, entries[k].data, map[]);
  }

  /** A regular file of a well-formed archive, opened by its path in any spelling and read with buffers of
      any sizes, gives back exactly the archive's bytes, as far as the buffers have room. */
  method BootAndRead(mem: seq<Byte>, start: nat, ghost entries: seq<Entry>, ghost k: nat, path: CString, sizes: seq<nat>)
    returns (out: seq<Byte>)
    requires ArchiveAt(mem, start, entries) && Fits(start, entries) && NamesFile(entries, k, path)
    requires 0 !in sizes
    ensures out == entries[k].data[..Min(|entries[k].data|, Room(sizes))]
  {
    var kernel, v, d, lfd;
    ghost var contents;
    kernel, v, d, lfd, contents := BootAndOpen(mem, start, entries, k, path);
    out := ReadInto(kernel, v, d, mem, lfd, sizes, contents, 0, entries[k].data, 0);
    ReadsFromStart(entries[k].data, sizes);
  }
}
