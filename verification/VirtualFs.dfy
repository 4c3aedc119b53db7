/** The virtual filesystem's tables and the operations on them. */
module VirtualFs {
  import opened Common
  import opened Path
  import opened Namespace
  import opened Forest

  /** A table entry of an open file. */
  datatype OpenFile = OpenFile(inode: int, offset: nat)

  /** A printed line as it appears: indentation, name, and the slash after a directory's name. */
  datatype Shown = Shown(depth: nat, name: CString, slash: bool)

  class Vfs {
    var nodes: Inodes
    var inodeCounter: int
    var root: int
    var fsRoots: map<int, int>
    var fsCounter: int
    var files: map<int, OpenFile>
    var fileCounter: int

    constructor ()
      ensures nodes == map[] && inodeCounter == 0 && root == ID_INVALID
      ensures fsRoots == map[] && fsCounter == 0 && files == map[] && fileCounter == 0
    {
      nodes, inodeCounter, root := map[], 0, ID_INVALID;
      fsRoots, fsCounter := map[], 0;
      files, fileCounter := map[], 0;
    }

    ghost function View(): Graph
      reads this
    {
      Graph(nodes, inodeCounter, root)
    }

    // ---------- Resolution ----------

    /** The loop over an inode's children. Names are compared with `str_equal`, which needs one of the
        two not to be empty. */
    method GetChild(inode: int, name: CString) returns (child: int)
      requires name != []
      ensures child == Lookup(nodes, inode, name)
    {
      child := ID_INVALID;
      if inode in nodes {
        var children := nodes[inode].children;
        var i := 0;
        while i < |children|
          invariant i <= |children|
          invariant FirstNamed(children, name) == FirstNamed(children[i..], name)
        {
          var same := StrEqual(children[i].name, name);
          if same {
            return children[i].inode;
          }
          i := i + 1;
        }
      }
    }

    /** The walk shared by `get_inode` and `mount`: the first `count` elements of the path. */
    method WalkPath(path: CString, count: nat) returns (inode: int)
      requires count <= |Names(path)|
      ensures inode == Resolve(nodes, root, Names(path)[..count])
    {
      ghost var names := Names(path)[..count];
      inode := root;
      var i := 0;
      while i < count
        invariant i <= count
        invariant Resolve(nodes, root, names) == Resolve(nodes, inode, names[i..])
      {
        var element := ElementGet(path, i);
        assert element == Some(names[i]);
        inode := GetChild(inode, element.value);
        if inode == ID_INVALID {
          return;
        }
        assert names[i..][1..] == names[i + 1..];
        i := i + 1;
      }
    }

    method GetInode(path: CString) returns (inode: int)
      ensures inode == Resolve(nodes, root, Names(path))
    {
      var count := ElementCount(path);
      inode := WalkPath(path, count);
      assert Names(path)[..count] == Names(path);
    }

    /** The path must have an element: the source subtracts one from their number. */
    method Mount(inode: int, path: CString) returns (err: int)
      requires Elements(path) != []
      modifies this`nodes
      ensures var names := Names(path);
              var dir := Resolve(old(nodes), root, Front(names));
              if dir != ID_INVALID && dir in old(nodes) then
                err == 0 && nodes == WithChild(old(nodes), dir, inode, Last(names))
              else
                err == 1 && nodes == old(nodes)
    {
      var count := ElementCount(path);
      var dir := WalkPath(path, count - 1);
      assert Names(path)[..count - 1] == Front(Names(path));
      if dir == ID_INVALID {
        return 1;
      }
      var filename := ElementGet(path, count - 1);
      assert filename == Some(Last(Names(path)));
      err := MountChild(dir, inode, filename.value);
    }

    method MountChild(inode: int, child: int, name: CString) returns (err: int)
      modifies this`nodes
      ensures if inode in old(nodes) then err == 0 && nodes == WithChild(old(nodes), inode, child, name)
              else err == 1 && nodes == old(nodes)
    {
      if inode !in nodes {
        return 1;
      }
      var cut := StrCpyN(name, FILENAME_MAX);
      nodes := nodes[inode := nodes[inode].(children := nodes[inode].children + [Child(child, cut)])];
      return 0;
    }

    // ---------- Inodes and filesystems ----------

    method CreateInode(kind: InodeType) returns (id: int)
      modifies this`nodes, this`inodeCounter
      ensures id == old(inodeCounter) && View() == Created(old(View()), kind)
    {
      id := inodeCounter;
      inodeCounter := inodeCounter + 1;
      nodes := TableAdd(nodes, id, Inode(kind, ID_INVALID, None, []));
    }

    method SetFs(inode: int, fs: int) returns (err: int)
      modifies this`nodes
      ensures nodes == if inode in old(nodes) then old(nodes)[inode := old(nodes)[inode].(fs := fs)] else old(nodes)
      ensures err == if inode in old(nodes) then 0 else 1
    {
      err := 1;
      if inode in nodes {
        nodes := nodes[inode := nodes[inode].(fs := fs)];
        err := 0;
      }
    }

    method SetVtable(inode: int, vtable: Option<VTable>) returns (err: int)
      modifies this`nodes
      ensures nodes
              == if inode in old(nodes) then old(nodes)[inode := old(nodes)[inode].(vtable := vtable)] else old(nodes)
      ensures err == if inode in old(nodes) then 0 else 1
    {
      err := 1;
      if inode in nodes {
        nodes := nodes[inode := nodes[inode].(vtable := vtable)];
        err := 0;
      }
    }

    /** A normal file where there is no inode. */
    method GetType(inode: int) returns (kind: InodeType)
      ensures kind == TypeOf(nodes, inode)
    {
      kind := if inode in nodes then nodes[inode].kind else NormalFile;
    }

    /** Null for an inode that does not exist, as for one without a driver. */
    method GetVtable(inode: int) returns (vtable: Option<VTable>)
      ensures vtable == VtableOf(nodes, inode)
    {
      vtable := None;
      if inode in nodes {
        vtable := nodes[inode].vtable;
      }
    }

    /** A new filesystem: a directory that knows the filesystem it is the root of. */
    method CreateFs() returns (fs: int)
      modifies this`nodes, this`inodeCounter, this`fsRoots, this`fsCounter
      ensures fs == old(fsCounter) && fsCounter == fs + 1
      ensures fsRoots == TableAdd(old(fsRoots), fs, old(inodeCounter))
      ensures inodeCounter == old(inodeCounter) + 1
      ensures nodes == var made := Created(old(View()), Directory).nodes;
                       if old(inodeCounter) in made then
                         made[old(inodeCounter) := made[old(inodeCounter)].(fs := fs)]
                       else made
    {
      var top := CreateInode(Directory);
      fs := fsCounter;
      fsCounter := fsCounter + 1;
      fsRoots := TableAdd(fsRoots, fs, top);
      var err := SetFs(top, fs);
    }

    /** `get_root` of a filesystem. */
    method FsRoot(fs: int) returns (inode: int)
      ensures inode == if fs in fsRoots then fsRoots[fs] else ID_INVALID
    {
      inode := if fs in fsRoots then fsRoots[fs] else ID_INVALID;
    }

    method SetRoot(inode: int)
      modifies this`root
      ensures root == inode
    {
      root := inode;
    }

    // ---------- Open files ----------

    method CreateFd(inode: int) returns (id: int)
      modifies this`files, this`fileCounter
      ensures id == old(fileCounter) && fileCounter == id + 1
      ensures files == TableAdd(old(files), id, OpenFile(inode, 0))
    {
      id := fileCounter;
      fileCounter := fileCounter + 1;
      files := TableAdd(files, id, OpenFile(inode, 0));
    }

    method DeleteFd(fd: int) returns (err: int)
      modifies this`files
      ensures files == old(files) - {fd} && err == if fd in old(files) then 0 else 1
    {
      err := if fd in files then 0 else 1;
      files := files - {fd};
    }

    method FdInode(fd: int) returns (inode: int)
      ensures inode == InodeOf(files, fd)
    {
      inode := if fd in files then files[fd].inode else ID_INVALID;
    }

    method FdOffset(fd: int) returns (offset: nat)
      ensures offset == OffsetOf(files, fd)
    {
      offset := if fd in files then files[fd].offset else 0;
    }

    method SetOffset(fd: int, offset: nat) returns (err: int)
      modifies this`files
      ensures files == WithOffset(old(files), fd, offset) && err == if fd in old(files) then 0 else 1
    {
      err := 1;
      if fd in files {
        files := files[fd := files[fd].(offset := offset)];
        err := 0;
      }
    }

    // ---------- Printing ----------

    /** `get_child_name`, empty when the inode is no child. */
    method GetChildName(inode: int, child: int) returns (name: CString)
      ensures name == ChildName(Kids(nodes, inode), child)
    {
      name := [];
      if inode in nodes {
        var children := nodes[inode].children;
        var i := 0;
        while i < |children|
          invariant i <= |children|
          invariant ChildName(children, child) == ChildName(children[i..], child)
        {
          if children[i].inode == child {
            return children[i].name;
          }
          i := i + 1;
        }
      }
    }

    method PrintInode(inode: int, name: CString, depth: nat, ghost names: seq<CString>) returns (out: seq<Shown>)
      requires Younger(View()) && inode < inodeCounter
      requires depth == |names| && name == LastOr(names)
      ensures out == Layout(nodes, Lines(View(), inode, names))
      decreases inodeCounter - inode
    {
      if inode == ID_INVALID {
        return [];
      }
      var kind := GetType(inode);
      out := [Shown(depth, name, kind.Directory?)];
      var count := if inode in nodes then |nodes[inode].children| else 0;
      ghost var g := View();
      var i := 0;
      while i < count
        invariant i <= count
        invariant out + Layout(nodes, LinesOfKids(g, inode, names, i)) == Layout(nodes, Lines(g, inode, names))
      {
        var child := nodes[inode].children[i].inode;
        assert IsKid(g.nodes, inode, i, child);
        var childName := GetChildName(inode, child);
        ghost var sub := names + [childName];
        var printed := PrintInode(child, childName, depth + 1, sub);
        LayoutNext(g, inode, names, i, out, printed);
        out := out + printed;
        i := i + 1;
      }
    }
  }

  function VtableOf(nodes: Inodes, inode: int): Option<VTable> {
    if inode in nodes then nodes[inode].vtable else None
  }

  function InodeOf(files: map<int, OpenFile>, fd: int): int {
    if fd in files then files[fd].inode else ID_INVALID
  }

  function OffsetOf(files: map<int, OpenFile>, fd: int): nat {
    if fd in files then files[fd].offset else 0
  }

  function WithOffset(files: map<int, OpenFile>, fd: int, offset: nat): map<int, OpenFile> {
    if fd in files then files[fd := files[fd].(offset := offset)] else files
  }

  function LastOr(names: seq<CString>): CString {
    if names == [] then [] else Last(names)
  }

  function TypeOf(nodes: Inodes, inode: int): InodeType {
    if inode in nodes then nodes[inode].kind else NormalFile
  }

  /** Lines as they appear: only the last name, indented by the number of names, with a slash after a
      directory's. */
  function Layout(nodes: Inodes, lines: seq<Line>): (out: seq<Shown>)
    ensures |out| == |lines|
  {
    seq(|lines|, i requires 0 <= i < |lines| =>
      Shown(|lines[i].names|, LastOr(lines[i].names), TypeOf(nodes, lines[i].inode).Directory?))
  }

  /** What a line shows: as many steps of indentation as there are names on the way, the last of them, and a
      slash exactly when the inode is a directory. */
  lemma {:induction false} LineShows(nodes: Inodes, lines: seq<Line>, i: nat)
    requires i < |lines|
    ensures var shown, l := Layout(nodes, lines)[i], lines[i];
            && shown.depth == |l.names| && (l.names != [] ==> shown.name == l.names[|l.names| - 1])
            && (l.names == [] ==> shown.name == [])
            && (shown.slash <==> l.inode in nodes && nodes[l.inode].kind == Directory)
  {
  }

  lemma {:induction false} LayoutSplit(nodes: Inodes, a: seq<Line>, b: seq<Line>)
    ensures Layout(nodes, a + b) == Layout(nodes, a) + Layout(nodes, b)
  {
  }

  /** One more child's lines. */
  lemma {:induction false} LayoutNext(g: Graph, inode: int, names: seq<CString>, i: nat, out: seq<Shown>, printed: seq<Shown>)
    requires Younger(g) && inode < g.counter && i < |Kids(g.nodes, inode)|
    requires var child := Kids(g.nodes, inode)[i].inode;
             IsKid(g.nodes, inode, i, child)
             && printed == Layout(g.nodes, Lines(g, child, names + [ChildName(Kids(g.nodes, inode), child)]))
    ensures out + Layout(g.nodes, LinesOfKids(g, inode, names, i))
            == out + printed + Layout(g.nodes, LinesOfKids(g, inode, names, i + 1))
  {
    var child := Kids(g.nodes, inode)[i].inode;
    var rest := LinesOfKids(g, inode, names, i + 1);
    LayoutSplit(g.nodes, Lines(g, child, names + [ChildName(Kids(g.nodes, inode), child)]), rest);
    assert out + (printed + Layout(g.nodes, rest)) == out + printed + Layout(g.nodes, rest);
  }

  // ---------- What callers get ----------

  /** A mount that succeeds under an unused name makes its path resolve to the mounted inode, and
      breaks no path that resolved before. */
  method MountThenLookup(v: Vfs, inode: int, path: CString, other: CString) returns (err: int, found: int, was: int, now: int)
    requires Elements(path) != [] && inode != ID_INVALID
    modifies v`nodes
    ensures err == 0 && !Uses(old(v.nodes), Resolve(old(v.nodes), v.root, Front(Names(path))), Last(Names(path))) ==>
              found == inode
    ensures was != ID_INVALID ==> now == was
  {
    was := v.GetInode(other);
    ghost var before, names := v.nodes, Names(path);
    ghost var dir := Resolve(before, v.root, Front(names));
    err := v.Mount(inode, path);
    found := v.GetInode(path);
    now := v.GetInode(other);
    if err == 0 {
      if was != ID_INVALID {
        MountIsMonotone(before, dir, inode, Last(names), v.root, Names(other));
      }
      if !Uses(before, dir, Last(names)) {
        MountResolves(before, dir, inode, v.root, names);
      }
    }
  }

  /** A mount under an unused name makes its path resolve to the mounted inode. */
  lemma {:induction false} MountResolves(nodes: Inodes, dir: int, child: int, from: int, names: seq<CString>)
    requires names != [] && Cut(Last(names)) == Last(names) && child != ID_INVALID
    requires dir in nodes && dir == Resolve(nodes, from, Front(names)) != ID_INVALID && !Uses(nodes, dir, Last(names))
    ensures Resolve(WithChild(nodes, dir, child, Last(names)), from, names) == child
  {
    var after := WithChild(nodes, dir, child, Last(names));
    MountIsMonotone(nodes, dir, child, Last(names), from, Front(names));
    assert names == Front(names) + [Last(names)];
    ResolveJoin(after, from, Front(names), [Last(names)]);
    LookupAfter(nodes, dir, child, Last(names), dir, Last(names));
    assert Resolve(after, dir, [Last(names)]) == child;
  }
}
