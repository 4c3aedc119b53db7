/** The ramdisk driver: `initrd_create` and `initrd_read_call` on the virtual filesystem, and the round
    trip from an archive's bytes to what a reader gets. */
module Ramdisk {
  import opened Common
  import opened Path
  import opened Namespace
  import opened VirtualFs
  import opened Tar
  import opened Initrd

  // ---------- Chunks ----------

  function Min(a: nat, b: nat): nat {
    if a < b then a else b
  }

  /** What one read into a buffer of `n` bytes gets: the last byte is for a terminator. */
  function Chunk(data: seq<Byte>, offset: nat, n: nat): (c: seq<Byte>)
    ensures offset <= |data| ==> offset + |c| <= |data|
  {
    if offset >= |data| || n == 0 then [] else data[offset..Min(|data|, offset + n - 1)]
  }

  /** A read gets as much as is left, but one byte less than the buffer holds, from where the last one ended. */
  lemma {:induction false} ChunkLength(data: seq<Byte>, offset: nat, n: nat)
    requires offset <= |data| && n > 0
    ensures var c, left := Chunk(data, offset, n), |data| - offset;
            && |c| == (if left < n - 1 then left else n - 1)
            && c == data[offset..offset + |c|]
  {
  }

  function ReadAll(data: seq<Byte>, offset: nat, sizes: seq<nat>): seq<Byte>
    decreases |sizes|
  {
    if sizes == [] then []
    else Chunk(data, offset, sizes[0]) + ReadAll(data, offset + |Chunk(data, offset, sizes[0])|, sizes[1..])
  }

  lemma {:induction false} ReadAllStep(data: seq<Byte>, offset: nat, sizes: seq<nat>)
    requires sizes != []
    ensures var c := Chunk(data, offset, sizes[0]);
            ReadAll(data, offset, sizes) == c + ReadAll(data, offset + |c|, sizes[1..])
  {
  }

  function Room(sizes: seq<nat>): nat {
    if sizes == [] then 0 else (if sizes[0] == 0 then 0 else sizes[0] - 1) + Room(sizes[1..])
  }

  lemma {:induction false} Adjacent(data: seq<Byte>, a: nat, b: nat, c: nat)
    requires a <= b <= c <= |data|
    ensures data[a..b] + data[b..c] == data[a..c]
  {
  }

  /** How far buffers of these sizes reach into the data. */
  function Reach(data: seq<Byte>, offset: nat, sizes: seq<nat>): (end: nat)
    ensures offset <= |data| ==> offset <= end <= |data|
  {
    Min(|data|, offset + Room(sizes))
  }

  lemma {:induction false} ReachStep(data: seq<Byte>, offset: nat, sizes: seq<nat>)
    requires offset <= |data| && sizes != []
    ensures var c := Chunk(data, offset, sizes[0]);
            && Reach(data, offset + |c|, sizes[1..]) == Reach(data, offset, sizes)
            && c == data[offset..offset + |c|]
  {
    ChunkEnds(data, offset, sizes[0], Room(sizes[1..]));
  }

  /** Whatever the buffers' sizes, the chunks of successive reads join to the data from the offset on,
      as far as the buffers have room. */
  lemma {:induction false} ChunksJoin(data: seq<Byte>, offset: nat, sizes: seq<nat>)
    requires offset <= |data|
    ensures ReadAll(data, offset, sizes) == data[offset..Reach(data, offset, sizes)]
    decreases |sizes|
  {
    if sizes != [] {
      var mid := offset + |Chunk(data, offset, sizes[0])|;
      ReachStep(data, offset, sizes);
      ChunksJoin(data, mid, sizes[1..]);
      Adjacent(data, offset, mid, Reach(data, offset, sizes));
    }
  }

  /** Where a chunk ends, and that no room is lost behind it unless the data ended. */
  lemma {:induction false} ChunkEnds(data: seq<Byte>, offset: nat, n: nat, room: nat)
    requires offset <= |data|
    ensures var c := Chunk(data, offset, n);
            && c == data[offset..offset + |c|]
            && Min(|data|, offset + |c| + room) == Min(|data|, offset + (if n == 0 then 0 else n - 1) + room)
  {
  }

  lemma {:induction false} ReadsFromStart(data: seq<Byte>, sizes: seq<nat>)
    ensures ReadAll(data, 0, sizes) == data[..Min(|data|, Room(sizes))]
  {
    ChunksJoin(data, 0, sizes);
  }

  /** A buffer with `c` in front and a terminator after it. */
  lemma {:induction false} Terminated(now: seq<Byte>, before: seq<Byte>, c: seq<Byte>, i: nat)
    requires i < |now| == |before| && now[..i] == c && now[i..] == before[i..]
    ensures now[i := 0] == c + [0] + before[i + 1..]
  {
    assert now[i + 1..] == now[i..][1..] == before[i + 1..];
  }

  /** Inodes are numbered below the counter. */
  ghost predicate Numbered(g: Graph) {
    forall id :: id in g.nodes ==> id < g.counter
  }

  function FsSet(nodes: Inodes, id: int, fs: int): Inodes {
    if id in nodes then nodes[id := nodes[id].(fs := fs)] else nodes
  }

  function ChildSet(nodes: Inodes, dir: int, id: int, name: CString): Inodes {
    if dir in nodes then WithChild(nodes, dir, id, name) else nodes
  }

  function VtableSet(nodes: Inodes, id: int, vtable: Option<VTable>): Inodes {
    if id in nodes then nodes[id := nodes[id].(vtable := vtable)] else nodes
  }

  /** Creating an inode, setting its filesystem, mounting it and setting its driver is one step. */
  lemma {:induction false} FourSteps(nodes: Inodes, id: int, dir: int, name: CString, kind: InodeType, fs: int,
                                     vtable: Option<VTable>)
    requires id !in nodes
    ensures VtableSet(ChildSet(FsSet(TableAdd(nodes, id, Inode(kind, ID_INVALID, None, [])), id, fs), dir, id, name), id, vtable)
            == ChildSet(TableAdd(nodes, id, Inode(kind, fs, vtable, [])), dir, id, name)
  {
    if |nodes| < TABLE_CAPACITY {
      var made := nodes[id := Inode(kind, fs, vtable, [])];
      assert FsSet(nodes[id := Inode(kind, ID_INVALID, None, [])], id, fs) == nodes[id := Inode(kind, fs, None, [])];
      if dir == id {
        assert VtableSet(ChildSet(nodes[id := Inode(kind, fs, None, [])], dir, id, name), id, vtable)
            == ChildSet(made, dir, id, name);
      } else if dir in nodes {
        assert VtableSet(ChildSet(nodes[id := Inode(kind, fs, None, [])], dir, id, name), id, vtable)
            == ChildSet(made, dir, id, name);
      }
    }
  }

  /** One name of a path, as the loop of `initrd_create` counts them. */
  lemma {:induction false} OneName(t: Tree, at: int, names: seq<CString>, i: nat, typeflag: Byte, fs: int, header: nat)
    requires i < |names|
    ensures var next, kind := Lookup(t.g.nodes, at, names[i]), if i + 1 == |names| then KindOf(typeflag) else Directory;
            PathAdded(t, at, names[i..], typeflag, fs, header)
            == if next != ID_INVALID then PathAdded(t, next, names[i + 1..], typeflag, fs, header)
               else PathAdded(Made(t, at, names[i], kind, fs, header), t.g.counter, names[i + 1..], typeflag, fs, header)
  {
    assert names[i..][0] == names[i] && names[i..][1..] == names[i + 1..];
  }

  // ---------- The driver ----------

  class Driver {
    /** `inodes`: the archive header of each regular file. */
    var headers: map<int, nat>

    constructor ()
      ensures headers == map[]
    {
      headers := map[];
    }

    /** The inner loop of `initrd_create`, for one archive member. */
    method AddPath(v: Vfs, filename: CString, typeflag: Byte, fs: int, header: nat)
      requires Numbered(v.View())
      modifies this, v`nodes, v`inodeCounter
      ensures Numbered(v.View())
      ensures Tree(v.View(), headers)
              == PathAdded(old(Tree(v.View(), headers)), v.root, Names(filename), typeflag, fs, header)
    {
      ghost var names := Names(filename);
      ghost var goal := PathAdded(Tree(v.View(), headers), v.root, names, typeflag, fs, header);
      var n := ElementCount(filename);
      var cinode := v.root;
      var i := 0;
      assert names[0..] == names;
      while i < n
        invariant i <= n && Numbered(v.View())
        invariant PathAdded(Tree(v.View(), headers), cinode, names[i..], typeflag, fs, header) == goal
      {
        var buff := ElementGet(filename, i);
        OneName(Tree(v.View(), headers), cinode, names, i, typeflag, fs, header);
        var kind := if i + 1 == n then KindOf(typeflag) else Directory;
        cinode := FollowOrMake(v, cinode, buff.value, kind, fs, header);
        i := i + 1;
      }
    }

    /** The loop's body: the child with the name, made if it is missing. */
    method FollowOrMake(v: Vfs, dir: int, name: CString, kind: InodeType, fs: int, header: nat) returns (next: int)
      requires Numbered(v.View()) && name != []
      modifies this, v`nodes, v`inodeCounter
      ensures Numbered(v.View())
      ensures var t, child := old(Tree(v.View(), headers)), Lookup(old(v.nodes), dir, name);
              if child != ID_INVALID then next == child && Tree(v.View(), headers) == t
              else next == t.g.counter && Tree(v.View(), headers) == Made(t, dir, name, kind, fs, header)
    {
      next := v.GetChild(dir, name);
      if next == ID_INVALID {
        next := MakeInode(v, dir, name, kind, fs, header);
      }
    }

    /** The loop's body for a name that is missing. */
    method MakeInode(v: Vfs, dir: int, name: CString, kind: InodeType, fs: int, header: nat) returns (ninode: int)
      requires Numbered(v.View())
      modifies this, v`nodes, v`inodeCounter
      ensures ninode == old(v.inodeCounter) && Numbered(v.View())
      ensures Tree(v.View(), headers) == Made(old(Tree(v.View(), headers)), dir, name, kind, fs, header)
    {
      ghost var t := Tree(v.View(), headers);
      ninode := v.CreateInode(kind);
      var err := v.SetFs(ninode, fs);
      err := v.MountChild(dir, ninode, name);
      if kind.NormalFile? {
        err := v.SetVtable(ninode, Some(DRIVER));
        headers := TableAdd(headers, ninode, header);
      } else {
        err := v.SetVtable(ninode, None);
      }
      FourSteps(t.g.nodes, ninode, dir, name, kind, fs, if kind.NormalFile? then Some(DRIVER) else None);
    }

    /** The start of `initrd_create`: a filesystem of its own, made the root. */
    method MakeRoot(v: Vfs) returns (fs: int)
      requires Numbered(v.View()) && |v.fsRoots| < TABLE_CAPACITY
      modifies v`nodes, v`inodeCounter, v`root, v`fsRoots, v`fsCounter
      ensures fs == old(v.fsCounter) && Numbered(v.View()) && v.View() == Rooted(old(v.View()), fs)
    {
      ghost var id, nodes := v.inodeCounter, v.nodes;
      fs := v.CreateFs();
      var top := v.FsRoot(fs);
      v.SetRoot(top);
      RootSet(nodes, id, fs);
    }

    /** One round of the outer loop of `initrd_create`: the member at `header`, and the header after it. */
    method AddMember(v: Vfs, mem: seq<Byte>, header: nat, fs: int, ghost entries: seq<Entry>)
      returns (next: Option<nat>, ghost rest: seq<Entry>)
      requires ArchiveAt(mem, header, entries) && Numbered(v.View())
      modifies this, v`nodes, v`inodeCounter
      ensures Numbered(v.View())
      ensures AllAdded(old(Tree(v.View(), headers)), ItemsOf(header, entries), fs)
              == match next
                 case None => Tree(v.View(), headers)
                 case Some(a) => AllAdded(Tree(v.View(), headers), ItemsOf(a, rest), fs)
      ensures next.Some? ==> ArchiveAt(mem, next.value, rest) && |rest| < |entries|
    {
      HeaderInMemory(mem, header, entries);
      MemberStep(mem, header, entries, Tree(v.View(), headers), fs);
      AddPath(v, StringAt(mem, header), mem[header + TYPE_AT], fs, header);
      next := TarNext(mem, header);
      rest := if entries == [] then [] else entries[1..];
    }

    /** `initrd_create`: one member after another goes under the new root. The filesystem table must have
        room: otherwise there is no root to put the members under. */
    method Create(v: Vfs, mem: seq<Byte>, start: nat, ghost entries: seq<Entry>) returns (fs: int)
      requires ArchiveAt(mem, start, entries)
      requires Numbered(v.View()) && |v.fsRoots| < TABLE_CAPACITY
      modifies this, v`nodes, v`inodeCounter, v`root, v`fsRoots, v`fsCounter
      ensures fs == old(v.fsCounter)
      ensures Tree(v.View(), headers)
              == AllAdded(Tree(Rooted(old(v.View()), fs), old(headers)), ItemsOf(start, entries), fs)
    {
      fs := MakeRoot(v);
      ghost var goal := AllAdded(Tree(v.View(), headers), ItemsOf(start, entries), fs);
      var cheader := Some(start);
      ghost var rest := entries;
      while cheader.Some?
        invariant Numbered(v.View())
        invariant match cheader
                  case None => goal == Tree(v.View(), headers)
                  case Some(a) => ArchiveAt(mem, a, rest) && goal == AllAdded(Tree(v.View(), headers), ItemsOf(a, rest), fs)
        decreases if cheader.Some? then |rest| + 1 else 0
      {
        cheader, rest := AddMember(v, mem, cheader.value, fs, rest);
      }
    }

    /** `initrd_read_call` for a buffer of `n` bytes, `n` not zero: the source always writes the terminator. */
    method ReadCall(v: Vfs, mem: seq<Byte>, fd: int, rbuff: array<Byte>, n: nat) returns (r: int)
      requires 0 < n <= rbuff.Length
      requires forall id :: id in headers ==> headers[id] + BLOCK + SizeOfHeader(mem, headers[id]) <= |mem|
      modifies v`files, rbuff
      ensures var inode, offset := InodeOf(old(v.files), fd), OffsetOf(old(v.files), fd);
              if inode in headers then
                var c := Chunk(FileData(mem, headers[inode]), offset, n);
                && r == |c| < n
                && rbuff[..] == c + [0] + old(rbuff[..])[r + 1..]
                && v.files == WithOffset(old(v.files), fd, offset + r)
              else
                r == -1 && v.files == old(v.files) && rbuff[..] == old(rbuff[..])
    {
      var inode := v.FdInode(fd);
      if inode !in headers {
        return -1;
      }
      var header := headers[inode];
      var offset := v.FdOffset(fd);
      var i := CopyOut(mem, header, offset, rbuff, n);
      var err := v.SetOffset(fd, offset + i);
      r := i;
    }
  }

  /** The first `i` bytes of the buffer come from the file, the others are as before. */
  ghost predicate Copied(now: seq<Byte>, before: seq<Byte>, file: seq<Byte>, start: nat, i: nat) {
    && i <= |now| == |before| && (i > 0 ==> start + i <= |file|)
    && (forall k :: 0 <= k < i ==> now[k] == file[start + k])
    && (forall k :: i <= k < |now| ==> now[k] == before[k])
  }

  lemma {:induction false} CopiedIsChunk(now: seq<Byte>, before: seq<Byte>, file: seq<Byte>, start: nat, n: nat, i: nat)
    requires Copied(now, before, file, start, i) && i < n <= |now| && (i + 1 == n || start + i >= |file|)
    ensures i == |Chunk(file, start, n)|
    ensures now[i := 0] == Chunk(file, start, n) + [0] + before[i + 1..]
  {
    assert now[..i] == Chunk(file, start, n);
    Terminated(now, before, Chunk(file, start, n), i);
  }

  /** The copying loop of `initrd_read_call` and the terminator after it. */
  method CopyOut(mem: seq<Byte>, header: nat, start: nat, rbuff: array<Byte>, n: nat) returns (i: nat)
    requires 0 < n <= rbuff.Length && header + BLOCK + SizeOfHeader(mem, header) <= |mem|
    modifies rbuff
    ensures var c := Chunk(FileData(mem, header), start, n);
            i == |c| < n && rbuff[..] == c + [0] + old(rbuff[..])[i + 1..]
  {
    var filesize := TarSize(mem, header);
    var data := DataOf(header);
    var offset := start;
    ghost var file, before := FileData(mem, header), rbuff[..];
    i := 0;
    while i + 1 < n && offset < filesize
      invariant i < n && offset == start + i
      invariant Copied(rbuff[..], before, file, start, i)
    {
      assert mem[data + offset] == file[offset];
      rbuff[i] := mem[data + offset];
      offset := offset + 1;
      i := i + 1;
    }
    CopiedIsChunk(rbuff[..], before, file, start, n, i);
    ghost var now := rbuff[..];
    rbuff[i] := 0;
    assert rbuff[..] == now[i := 0];
  }

  // ---------- The archive as a tree ----------

  /** A fresh directory as the root of filesystem `fs`. */
  function Rooted(g: Graph, fs: int): Graph {
    Graph(TableAdd(g.nodes, g.counter, Inode(Directory, fs, None, [])), g.counter + 1, g.counter)
  }

  lemma {:induction false} RootSet(nodes: Inodes, id: int, fs: int)
    requires id !in nodes
    ensures FsSet(TableAdd(nodes, id, Inode(Directory, ID_INVALID, None, [])), id, fs)
            == TableAdd(nodes, id, Inode(Directory, fs, None, []))
  {
    if |nodes| < TABLE_CAPACITY {
      assert nodes[id := Inode(Directory, ID_INVALID, None, [])][id := Inode(Directory, fs, None, [])]
          == nodes[id := Inode(Directory, fs, None, [])];
    }
  }

  lemma {:induction false} FirstItem(t: Tree, header: nat, entries: seq<Entry>, fs: int)
    requires entries != []
    ensures var e, next := entries[0], AddressOf(header, entries, 1);
            AllAdded(t, ItemsOf(header, entries), fs)
            == AllAdded(PathAdded(t, t.g.root, Names(e.name), e.typeflag, fs, header), ItemsOf(next, entries[1..]), fs)
  {
    var items := ItemsOf(header, entries);
    assert items[1..] == ItemsOf(AddressOf(header, entries, 1), entries[1..]);
  }

  /** What one round of the archive's loop does to the tree and to the place in the archive. */
  lemma {:induction false} MemberStep(mem: seq<Byte>, header: nat, rest: seq<Entry>, t: Tree, fs: int)
    requires ArchiveAt(mem, header, rest)
    ensures header + BLOCK <= |mem| && NextHeader(mem, header) < |mem|
    ensures var t' := PathAdded(t, t.g.root, Names(StringAt(mem, header)), mem[header + TYPE_AT], fs, header);
            var next := NextHeader(mem, header);
            if mem[next] == 0 then
              |rest| <= 1 && AllAdded(t, ItemsOf(header, rest), fs) == t'
            else
              && rest != [] && ArchiveAt(mem, next, rest[1..])
              && AllAdded(t, ItemsOf(header, rest), fs) == AllAdded(t', ItemsOf(next, rest[1..]), fs)
  {
    HeaderInMemory(mem, header, rest);
    if rest == [] {
      EmptyArchive(mem, header);
    } else {
      WalkReads(mem, header, rest);
      FirstItem(t, header, rest, fs);
      assert mem[header + TYPE_AT] == rest[0].typeflag;
    }
  }

  function ItemsOf(header: nat, entries: seq<Entry>): (items: seq<Item>)
    ensures |items| == |entries|
    decreases |entries|
  {
    if entries == [] then []
    else
      var e := entries[0];
      [Item(Names(e.name), e.typeflag, header)] + ItemsOf(header + BLOCK + Padded(|e.data|), entries[1..])
  }

  function SizeOfHeader(mem: seq<Byte>, header: nat): nat {
    if header + BLOCK <= |mem| then SizeOf(mem, header) else |mem|
  }

  /** The data behind a header. */
  function FileData(mem: seq<Byte>, header: nat): seq<Byte>
    requires header + BLOCK + SizeOfHeader(mem, header) <= |mem|
  {
    mem[DataOf(header)..DataOf(header) + SizeOf(mem, header)]
  }

  lemma {:induction false} HeaderInMemory(mem: seq<Byte>, header: nat, entries: seq<Entry>)
    requires ArchiveAt(mem, header, entries)
    ensures header + BLOCK <= |mem| && NextHeader(mem, header) < |mem|
  {
    if entries == [] {
      EmptyArchive(mem, header);
    } else {
      WalkReads(mem, header, entries);
    }
  }

  lemma {:induction false} ItemsAre(header: nat, entries: seq<Entry>, k: nat)
    requires k < |entries|
    ensures ItemsOf(header, entries)[k] == Item(Names(entries[k].name), entries[k].typeflag, AddressOf(header, entries, k))
    decreases k
  {
    if k > 0 {
      ItemsAre(header + BLOCK + Padded(|entries[0].data|), entries[1..], k - 1);
    }
  }

  lemma {:induction false} ItemsAreCut(header: nat, entries: seq<Entry>)
    ensures CutItems(ItemsOf(header, entries))
  {
    forall k | 0 <= k < |entries|
      ensures CutNames(ItemsOf(header, entries)[k].names)
    {
      ItemsAre(header, entries, k);
    }
  }

  lemma {:induction false} FirstData(mem: seq<Byte>, header: nat, e: Entry)
    requires EntryAt(mem, header, e)
    ensures header + BLOCK + SizeOfHeader(mem, header) <= |mem| && FileData(mem, header) == e.data
  {
    SizeReads(mem, header, e);
    DataFits(|e.data|);
  }

  lemma {:induction false} DataFits(n: nat)
    ensures n <= Padded(n)
  {
  }

  lemma {:induction false} EntryInArchive(mem: seq<Byte>, header: nat, entries: seq<Entry>, k: nat)
    requires ArchiveAt(mem, header, entries) && k < |entries|
    ensures EntryAt(mem, AddressOf(header, entries, k), entries[k])
    decreases k
  {
    if k > 0 {
      var next, rest := header + BLOCK + Padded(|entries[0].data|), entries[1..];
      assert ArchiveAt(mem, next, rest) && AddressOf(header, entries, k) == AddressOf(next, rest, k - 1);
      assert rest[k - 1] == entries[k];
      EntryInArchive(mem, next, rest, k - 1);
    }
  }

  /** The data behind the `k`-th header is the `k`-th entry's. */
  lemma {:induction false} EntryData(mem: seq<Byte>, header: nat, entries: seq<Entry>, k: nat)
    requires ArchiveAt(mem, header, entries) && k < |entries|
    ensures var a := AddressOf(header, entries, k);
            && a + BLOCK + SizeOfHeader(mem, a) <= |mem|
            && FileData(mem, a) == entries[k].data
  {
    EntryInArchive(mem, header, entries, k);
    FirstData(mem, AddressOf(header, entries, k), entries[k]);
  }
}
