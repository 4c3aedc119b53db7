/** The initial ramdisk: building the inode tree from the archive, and what its paths resolve to. */
module Initrd {
  import opened Common
  import opened Path
  import opened Namespace
  import opened Forest

  /** The inode graph, and the archive header behind each regular file. */
  datatype Tree = Tree(g: Graph, headers: map<int, nat>)

  /** One archive member as the tree sees it. */
  datatype Item = Item(names: seq<CString>, typeflag: Byte, header: nat)

  const DRIVER := VTable(true, true, true, false)
  const REGULAR: Byte := 48

  function KindOf(typeflag: Byte): InodeType {
    match typeflag
    case 48 => NormalFile
    case 49 => HardLink
    case 50 => SymLink
    case 51 => CharDevice
    case 52 => BlockDevice
    case 54 => Pipe
    case _ => Directory
  }

  /** A new inode as the `dir`'s child; a regular file gets the driver and remembers its header. */
  function Made(t: Tree, dir: int, name: CString, kind: InodeType, fs: int, header: nat): Tree {
    var id, file := t.g.counter, kind.NormalFile?;
    var nodes := TableAdd(t.g.nodes, id, Inode(kind, fs, if file then Some(DRIVER) else None, []));
    Tree(t.g.(counter := id + 1, nodes := if dir in nodes then WithChild(nodes, dir, id, name) else nodes),
         if file then TableAdd(t.headers, id, header) else t.headers)
  }

  /** The inner loop of `initrd_create`: follow the names from `at`, making what is missing. */
  function PathAdded(t: Tree, at: int, names: seq<CString>, typeflag: Byte, fs: int, header: nat): Tree
    decreases |names|
  {
    if names == [] then t
    else
      var next := Lookup(t.g.nodes, at, names[0]);
      if next != ID_INVALID then PathAdded(t, next, names[1..], typeflag, fs, header)
      else
        var kind := if |names| == 1 then KindOf(typeflag) else Directory;
        PathAdded(Made(t, at, names[0], kind, fs, header), t.g.counter, names[1..], typeflag, fs, header)
  }

  function AllAdded(t: Tree, items: seq<Item>, fs: int): Tree
    decreases |items|
  {
    if items == [] then t
    else AllAdded(PathAdded(t, t.g.root, items[0].names, items[0].typeflag, fs, items[0].header), items[1..], fs)
  }

  // ---------- Well-kept trees ----------

  /** The table holds exactly the inodes made so far; they form a forest whose siblings have different
      names; only existing inodes have headers. */
  ghost predicate Kept(t: Tree) {
    && IsForest(t.g) && NamesDiffer(t.g.nodes)
    && (forall id :: id in t.g.nodes <==> 0 <= id < t.g.counter)
    && |t.g.nodes| == t.g.counter
    && t.g.root in t.g.nodes && Orphan(t.g.nodes, t.g.root)
    && (forall id :: id in t.headers ==> 0 <= id < t.g.counter) && |t.headers| <= t.g.counter
  }

  ghost predicate CutNames(names: seq<CString>) {
    forall i :: 0 <= i < |names| ==> names[i] != [] && Cut(names[i]) == names[i]
  }

  /** The nodes with a new leaf, before it is mounted. */
  function WithLeaf(nodes: Inodes, id: int, leaf: Inode): Inodes {
    nodes[id := leaf]
  }

  lemma {:induction false} LeafKids(g: Graph, leaf: Inode, p: int)
    requires IsForest(g) && leaf.children == []
    ensures Kids(WithLeaf(g.nodes, g.counter, leaf), p) == Kids(g.nodes, p)
  {
    if p == g.counter {
      assert p !in g.nodes;
    }
  }

  lemma {:induction false} MadeShape(t: Tree, dir: int, name: CString, kind: InodeType, fs: int, header: nat) returns (leaf: Inode)
    requires Kept(t) && t.g.counter < TABLE_CAPACITY && dir in t.g.nodes
    ensures leaf == Inode(kind, fs, if kind.NormalFile? then Some(DRIVER) else None, [])
    ensures var m := Made(t, dir, name, kind, fs, header);
            && m.g.nodes == WithChild(WithLeaf(t.g.nodes, t.g.counter, leaf), dir, t.g.counter, name)
            && m.g.counter == t.g.counter + 1 && m.g.root == t.g.root
            && m.headers == if kind.NormalFile? then t.headers[t.g.counter := header] else t.headers
  {
    leaf := Inode(kind, fs, if kind.NormalFile? then Some(DRIVER) else None, []);
  }

  lemma {:induction false} MadeForest(t: Tree, dir: int, name: CString, kind: InodeType, fs: int, header: nat)
    requires Kept(t) && t.g.counter < TABLE_CAPACITY && dir in t.g.nodes && !Uses(t.g.nodes, dir, Cut(name))
    ensures var m := Made(t, dir, name, kind, fs, header);
            IsForest(m.g) && NamesDiffer(m.g.nodes) && Orphan(m.g.nodes, m.g.root)
  {
    var leaf := MadeShape(t, dir, name, kind, fs, header);
    var id := t.g.counter;
    var g1 := t.g.(nodes := WithLeaf(t.g.nodes, id, leaf), counter := id + 1);
    forall p, i, c
      ensures Kids(g1.nodes, p) == Kids(t.g.nodes, p)
      ensures IsKid(g1.nodes, p, i, c) <==> IsKid(t.g.nodes, p, i, c)
    {
      LeafKids(t.g, leaf, p);
    }
    assert IsForest(g1) && Orphan(g1.nodes, id);
    assert NamesDiffer(g1.nodes) by {
      forall p
        ensures NamesDifferAt(Kids(g1.nodes, p))
      {
        assert NamesDifferAt(Kids(t.g.nodes, p));
      }
    }
    MountForest(g1, dir, id, name);
    MountNames(g1.nodes, dir, id, name);
    forall p, i
      ensures !IsKid(WithChild(g1.nodes, dir, id, name), p, i, t.g.root)
    {
      KidsAfter(g1.nodes, dir, id, name, p);
    }
  }

  lemma {:induction false} MadeKept(t: Tree, dir: int, name: CString, kind: InodeType, fs: int, header: nat)
    requires Kept(t) && t.g.counter < TABLE_CAPACITY && dir in t.g.nodes && !Uses(t.g.nodes, dir, Cut(name))
    ensures Kept(Made(t, dir, name, kind, fs, header))
  {
    var leaf := MadeShape(t, dir, name, kind, fs, header);
    MadeForest(t, dir, name, kind, fs, header);
    assert t.g.counter !in t.g.nodes && t.g.counter !in t.headers;
  }

  /** A new leaf makes one more path resolve: that of its directory followed by its name. */
  lemma {:induction false} MadeExact(t: Tree, dir: int, name: CString, kind: InodeType, fs: int, header: nat, q: seq<CString>)
    requires Kept(t) && t.g.counter < TABLE_CAPACITY && dir in t.g.nodes && !Uses(t.g.nodes, dir, Cut(name))
    ensures var was := Resolve(t.g.nodes, t.g.root, q);
            Resolve(Made(t, dir, name, kind, fs, header).g.nodes, t.g.root, q)
            == if was != ID_INVALID then was
               else if q != [] && Last(q) == Cut(name) && Resolve(t.g.nodes, t.g.root, Front(q)) == dir then t.g.counter
               else ID_INVALID
  {
    var leaf := MadeShape(t, dir, name, kind, fs, header);
    var nodes := WithLeaf(t.g.nodes, t.g.counter, leaf);
    forall p
      ensures Kids(nodes, p) == Kids(t.g.nodes, p)
    {
      LeafKids(t.g, leaf, p);
    }
    ResolveSameKids(nodes, t.g.nodes, t.g.root, q);
    if q != [] {
      ResolveSameKids(nodes, t.g.nodes, t.g.root, Front(q));
    }
    assert Kids(nodes, dir) == Kids(t.g.nodes, dir);
    MountIsExact(nodes, dir, t.g.counter, name, t.g.root, q);
  }

  // ---------- One path to each inode ----------

  lemma {:induction false} ResolveLast(nodes: Inodes, from: int, names: seq<CString>) returns (p: int, i: nat)
    requires names != [] && Resolve(nodes, from, names) != ID_INVALID
    ensures p == Resolve(nodes, from, Front(names))
    ensures IsKid(nodes, p, i, Resolve(nodes, from, names)) && Kids(nodes, p)[i].name == Last(names)
    decreases |names|
  {
    if |names| == 1 {
      p := from;
      if !Named(Kids(nodes, from), names[0]) {
        FirstNamedUnused(Kids(nodes, from), names[0]);
      }
      i := FirstNamedIsChild(Kids(nodes, from), names[0]);
      assert names[1..] == [];
    } else {
      p, i := ResolveLast(nodes, Lookup(nodes, from, names[0]), names[1..]);
      assert Front(names)[1..] == Front(names[1..]) && Front(names)[0] == names[0];
    }
  }

  /** Two paths from an orphan root to the same inode are the same. */
  lemma {:induction false} OnePath(nodes: Inodes, root: int, a: seq<CString>, b: seq<CString>)
    requires OneParent(nodes) && Orphan(nodes, root) && ID_INVALID !in nodes
    requires Resolve(nodes, root, a) == Resolve(nodes, root, b) != ID_INVALID
    ensures a == b
    decreases |a|
  {
    var x := Resolve(nodes, root, a);
    if a == [] {
      RootHasOnePath(nodes, root, b);
    } else if b == [] {
      RootHasOnePath(nodes, root, a);
    } else {
      var p, i := ResolveLast(nodes, root, a);
      var q, j := ResolveLast(nodes, root, b);
      assert IsKid(nodes, p, i, x) && IsKid(nodes, q, j, x);
      assert p == q && i == j && p != ID_INVALID;
      OnePath(nodes, root, Front(a), Front(b));
      assert a == Front(a) + [Last(a)] && b == Front(b) + [Last(b)];
    }
  }

  lemma {:induction false} RootHasOnePath(nodes: Inodes, root: int, a: seq<CString>)
    requires Orphan(nodes, root) && root != ID_INVALID && Resolve(nodes, root, a) == root
    ensures a == []
  {
    if a != [] {
      var p, i := ResolveLast(nodes, root, a);
      assert false;
    }
  }

  // ---------- Adding a path ----------

  /** `done` leads to `at`, from where `names` are still to be followed. */
  ghost predicate Stands(t: Tree, at: int, done: seq<CString>) {
    Kept(t) && at in t.g.nodes && Resolve(t.g.nodes, t.g.root, done) == at
  }

  lemma {:induction false} LookupKept(t: Tree, at: int, name: CString)
    requires Kept(t)
    ensures Lookup(t.g.nodes, at, name) == ID_INVALID <==> !Uses(t.g.nodes, at, name)
    ensures Uses(t.g.nodes, at, name) ==> Lookup(t.g.nodes, at, name) in t.g.nodes
  {
    if Uses(t.g.nodes, at, name) {
      var i := FirstNamedIsChild(Kids(t.g.nodes, at), name);
      assert IsKid(t.g.nodes, at, i, Kids(t.g.nodes, at)[i].inode);
    } else {
      FirstNamedUnused(Kids(t.g.nodes, at), name);
    }
  }

  /** One step of the loop, either way. */
  lemma {:induction false} StepStands(t: Tree, at: int, done: seq<CString>, name: CString, kind: InodeType, fs: int, header: nat)
    requires Stands(t, at, done) && name != [] && Cut(name) == name
    ensures var next := Lookup(t.g.nodes, at, name);
            if next != ID_INVALID then Stands(t, next, done + [name])
            else t.g.counter < TABLE_CAPACITY ==>
                   Stands(Made(t, at, name, kind, fs, header), t.g.counter, done + [name])
  {
    LookupKept(t, at, name);
    ResolveJoin(t.g.nodes, t.g.root, done, [name]);
    if !Uses(t.g.nodes, at, name) && t.g.counter < TABLE_CAPACITY {
      MadeKept(t, at, name, kind, fs, header);
      MadeExact(t, at, name, kind, fs, header, done + [name]);
      assert Front(done + [name]) == done;
    }
  }

  lemma {:induction false} CounterGrows(t: Tree, at: int, names: seq<CString>, typeflag: Byte, fs: int, header: nat)
    ensures PathAdded(t, at, names, typeflag, fs, header).g.counter >= t.g.counter
    ensures names != [] && Lookup(t.g.nodes, at, names[0]) == ID_INVALID ==>
              PathAdded(t, at, names, typeflag, fs, header).g.counter > t.g.counter
    ensures PathAdded(t, at, names, typeflag, fs, header).g.root == t.g.root
    decreases |names|
  {
    if names != [] {
      var next := Lookup(t.g.nodes, at, names[0]);
      if next != ID_INVALID {
        CounterGrows(t, next, names[1..], typeflag, fs, header);
      } else {
        var kind := if |names| == 1 then KindOf(typeflag) else Directory;
        CounterGrows(Made(t, at, names[0], kind, fs, header), t.g.counter, names[1..], typeflag, fs, header);
      }
    }
  }

  /** Making one inode makes exactly its own path resolve. */
  lemma {:induction false} MadeOnePath(t: Tree, at: int, done: seq<CString>, name: CString, kind: InodeType, fs: int,
                                       header: nat, q: seq<CString>)
    requires Stands(t, at, done) && name != [] && Cut(name) == name && t.g.counter < TABLE_CAPACITY
    requires Lookup(t.g.nodes, at, name) == ID_INVALID
    ensures var was := Resolve(t.g.nodes, t.g.root, q);
            var now := Resolve(Made(t, at, name, kind, fs, header).g.nodes, t.g.root, q);
            && (was != ID_INVALID ==> now == was)
            && (now != ID_INVALID <==> was != ID_INVALID || q == done + [name])
  {
    LookupKept(t, at, name);
    MadeExact(t, at, name, kind, fs, header, q);
    OwnPath(t, at, done, name, q);
  }

  /** The paths that end in the name in the directory at `at` are one. */
  lemma {:induction false} OwnPath(t: Tree, at: int, done: seq<CString>, name: CString, q: seq<CString>)
    requires Stands(t, at, done)
    ensures q == done + [name] <==> q != [] && Last(q) == name && Resolve(t.g.nodes, t.g.root, Front(q)) == at
  {
    if q == done + [name] {
      assert Front(q) == done;
    }
    if q != [] && Last(q) == name && Resolve(t.g.nodes, t.g.root, Front(q)) == at {
      OnePath(t.g.nodes, t.g.root, Front(q), done);
      assert q == Front(q) + [Last(q)];
    }
  }

  lemma {:induction false} StandsPrefix(t: Tree, at: int, done: seq<CString>, q: seq<CString>)
    requires Stands(t, at, done) && q <= done
    ensures Resolve(t.g.nodes, t.g.root, q) != ID_INVALID
  {
    PrefixResolves(t.g.nodes, t.g.root, done, |q|);
    assert done[..|q|] == q;
  }

  /** Moving one name over. */
  lemma {:induction false} Carry(done: seq<CString>, names: seq<CString>)
    requires names != [] && CutNames(names)
    ensures done + [names[0]] + names[1..] == done + names && done + [names[0]] <= done + names
    ensures CutNames(names[1..]) && names[0] != [] && Cut(names[0]) == names[0]
    ensures |names| == 1 ==> names[1..] == [] && names == [names[0]]
  {
  }

  /** What adding a path does to the resolution of any path `q`: it is kept, or `q` is one of the
      prefixes of the added path and resolves now, or it still does not resolve. */
  lemma {:induction false} PathAddedExact(t: Tree, at: int, done: seq<CString>, names: seq<CString>,
                                          typeflag: Byte, fs: int, header: nat, q: seq<CString>)
    requires Stands(t, at, done) && CutNames(names)
    requires PathAdded(t, at, names, typeflag, fs, header).g.counter <= TABLE_CAPACITY
    ensures var t' := PathAdded(t, at, names, typeflag, fs, header);
            var was, now := Resolve(t.g.nodes, t.g.root, q), Resolve(t'.g.nodes, t.g.root, q);
            && Kept(t')
            && (was != ID_INVALID ==> now == was)
            && (now != ID_INVALID <==> was != ID_INVALID || q <= done + names)
    decreases |names|
  {
    if names == [] {
      assert done + names == done;
      if q <= done {
        StandsPrefix(t, at, done, q);
      }
    } else {
      var next, rest, further := Lookup(t.g.nodes, at, names[0]), names[1..], done + [names[0]];
      var kind := if |names| == 1 then KindOf(typeflag) else Directory;
      Carry(done, names);
      StepStands(t, at, done, names[0], kind, fs, header);
      CounterGrows(t, at, names, typeflag, fs, header);
      if next != ID_INVALID {
        PathAddedExact(t, next, further, rest, typeflag, fs, header, q);
      } else {
        PathAddedExact(Made(t, at, names[0], kind, fs, header), t.g.counter, further, rest, typeflag, fs, header, q);
        MadeOnePath(t, at, done, names[0], kind, fs, header, q);
      }
    }
  }

  lemma {:induction false} PrefixResolves(nodes: Inodes, from: int, names: seq<CString>, k: nat)
    requires k <= |names| && Resolve(nodes, from, names) != ID_INVALID && from != ID_INVALID
    ensures Resolve(nodes, from, names[..k]) != ID_INVALID
    decreases |names|
  {
    if k > 0 {
      assert names[..k][1..] == names[1..][..k - 1];
      PrefixResolves(nodes, Lookup(nodes, from, names[0]), names[1..], k - 1);
    }
  }

  // ---------- What an added path leads to ----------

  /** Nothing made before is lost or changed in what it is, and none of it gets a header. */
  ghost predicate Extends(t: Tree, t': Tree) {
    && (forall id :: id in t.g.nodes ==>
          && id in t'.g.nodes && t'.g.nodes[id].kind == t.g.nodes[id].kind
          && t'.g.nodes[id].fs == t.g.nodes[id].fs && t'.g.nodes[id].vtable == t.g.nodes[id].vtable)
    && (forall id :: id in t.headers ==> id in t'.headers && t'.headers[id] == t.headers[id])
    && (forall id :: id in t.g.nodes && id in t'.headers ==> id in t.headers)
  }

  /** Inode `x` was made of this kind, in this filesystem, for the member with this header. */
  ghost predicate IsMade(t: Tree, x: int, kind: InodeType, fs: int, header: nat) {
    && x in t.g.nodes && t.g.nodes[x].kind == kind && t.g.nodes[x].fs == fs
    && t.g.nodes[x].vtable == (if kind.NormalFile? then Some(DRIVER) else None)
    && (x in t.headers <==> kind.NormalFile?) && (kind.NormalFile? ==> t.headers[x] == header)
  }

  lemma {:induction false} StaysMade(t: Tree, t': Tree, x: int, kind: InodeType, fs: int, header: nat)
    requires IsMade(t, x, kind, fs, header) && Extends(t, t')
    ensures IsMade(t', x, kind, fs, header)
  {
  }

  lemma {:induction false} MadeExtends(t: Tree, dir: int, name: CString, kind: InodeType, fs: int, header: nat)
    requires Kept(t) && t.g.counter < TABLE_CAPACITY && dir in t.g.nodes
    ensures var m := Made(t, dir, name, kind, fs, header);
            && Extends(t, m) && Kids(m.g.nodes, t.g.counter) == []
            && IsMade(m, t.g.counter, kind, fs, header)
  {
    var leaf := MadeShape(t, dir, name, kind, fs, header);
    assert dir != t.g.counter;
  }

  /** Adding `names` from `at` made `t` into `t'`: nothing, if they led somewhere already, and otherwise an
      inode `x` for the member. */
  ghost predicate Outcome(t: Tree, t': Tree, at: int, names: seq<CString>, x: int, typeflag: Byte, fs: int, header: nat) {
    && Extends(t, t')
    && (Resolve(t.g.nodes, at, names) != ID_INVALID ==> t' == t)
    && (Resolve(t.g.nodes, at, names) == ID_INVALID ==> IsMade(t', x, KindOf(typeflag), fs, header))
  }

  /** The last name's inode is the member's. */
  lemma {:induction false} LastMade(t: Tree, at: int, name: CString, fs: int, typeflag: Byte, header: nat)
    requires Kept(t) && t.g.counter < TABLE_CAPACITY && at in t.g.nodes && Lookup(t.g.nodes, at, name) == ID_INVALID
    ensures Outcome(t, Made(t, at, name, KindOf(typeflag), fs, header), at, [name], t.g.counter, typeflag, fs, header)
  {
    MadeExtends(t, at, name, KindOf(typeflag), fs, header);
  }

  /** A directory made on the way leaves the rest to be made below it. */
  lemma {:induction false} DirectoryMade(t: Tree, m: Tree, t': Tree, at: int, names: seq<CString>, fs: int, x: int, typeflag: Byte, header: nat)
    requires Kept(t) && t.g.counter < TABLE_CAPACITY && at in t.g.nodes && |names| > 1
    requires Lookup(t.g.nodes, at, names[0]) == ID_INVALID
    requires m == Made(t, at, names[0], Directory, fs, header)
    requires Outcome(m, t', t.g.counter, names[1..], x, typeflag, fs, header)
    ensures Outcome(t, t', at, names, x, typeflag, fs, header)
  {
    MadeExtends(t, at, names[0], Directory, fs, header);
    FirstNamedUnused(Kids(m.g.nodes, t.g.counter), names[1]);
    assert Resolve(m.g.nodes, t.g.counter, names[1..]) == ID_INVALID;
    assert Extends(t, m) && Extends(m, t');
  }

  lemma {:induction false} PathAddedResult(t: Tree, at: int, done: seq<CString>, names: seq<CString>,
                                           typeflag: Byte, fs: int, header: nat)
    requires Stands(t, at, done) && CutNames(names)
    requires PathAdded(t, at, names, typeflag, fs, header).g.counter <= TABLE_CAPACITY
    ensures var t' := PathAdded(t, at, names, typeflag, fs, header);
            Outcome(t, t', at, names, Resolve(t'.g.nodes, t.g.root, done + names), typeflag, fs, header)
    decreases |names|
  {
    if names != [] {
      var next, rest, further := Lookup(t.g.nodes, at, names[0]), names[1..], done + [names[0]];
      var kind := if |names| == 1 then KindOf(typeflag) else Directory;
      Carry(done, names);
      StepStands(t, at, done, names[0], kind, fs, header);
      CounterGrows(t, at, names, typeflag, fs, header);
      if next != ID_INVALID {
        PathAddedResult(t, next, further, rest, typeflag, fs, header);
      } else if rest == [] {
        LastMade(t, at, names[0], fs, typeflag, header);
      } else {
        var m := Made(t, at, names[0], kind, fs, header);
        PathAddedResult(m, t.g.counter, further, rest, typeflag, fs, header);
        var t' := PathAdded(t, at, names, typeflag, fs, header);
        DirectoryMade(t, m, t', at, names, fs, Resolve(t'.g.nodes, t.g.root, done + names), typeflag, header);
      }
    }
  }

  /** A new directory has nothing in it. */
  lemma {:induction false} NothingBelow(m: Tree, x: int, names: seq<CString>)
    requires Kids(m.g.nodes, x) == [] && names != []
    ensures Resolve(m.g.nodes, x, names) == ID_INVALID
  {
    FirstNamedUnused(Kids(m.g.nodes, x), names[0]);
  }

  lemma {:induction false} PathSplits(done: seq<CString>, names: seq<CString>, j: nat)
    requires 0 < j <= |names|
    ensures names[..j][0] == names[0] && names[..j][1..] == names[1..][..j - 1]
    ensures done + names[..j] == done + [names[0]] + names[1..][..j - 1]
  {
  }

  /** A directory on the way to a member, if it was not there before. */
  lemma {:induction false} PathMakesDirectory(t: Tree, at: int, done: seq<CString>, names: seq<CString>,
                                              typeflag: Byte, fs: int, header: nat, j: nat)
    requires Stands(t, at, done) && CutNames(names) && 0 < j < |names|
    requires PathAdded(t, at, names, typeflag, fs, header).g.counter <= TABLE_CAPACITY
    requires Resolve(t.g.nodes, at, names[..j]) == ID_INVALID
    ensures var t' := PathAdded(t, at, names, typeflag, fs, header);
            IsMade(t', Resolve(t'.g.nodes, t.g.root, done + names[..j]), Directory, fs, header)
    decreases |names|, 1
  {
    var next, rest, further := Lookup(t.g.nodes, at, names[0]), names[1..], done + [names[0]];
    Carry(done, names);
    PathSplits(done, names, j);
    CounterGrows(t, at, names, typeflag, fs, header);
    if next != ID_INVALID {
      StepStands(t, at, done, names[0], Directory, fs, header);
      PathMakesDirectory(t, next, further, rest, typeflag, fs, header, j - 1);
    } else {
      NewPathMakesDirectory(t, at, done, names, typeflag, fs, header, j);
    }
  }

  /** The same when already the first name is new. */
  lemma {:induction false} NewPathMakesDirectory(t: Tree, at: int, done: seq<CString>, names: seq<CString>,
                                                 typeflag: Byte, fs: int, header: nat, j: nat)
    requires Stands(t, at, done) && CutNames(names) && 0 < j < |names| && Lookup(t.g.nodes, at, names[0]) == ID_INVALID
    requires PathAdded(t, at, names, typeflag, fs, header).g.counter <= TABLE_CAPACITY
    ensures var t' := PathAdded(t, at, names, typeflag, fs, header);
            IsMade(t', Resolve(t'.g.nodes, t.g.root, done + names[..j]), Directory, fs, header)
    decreases |names|, 0
  {
    var rest, further, m := names[1..], done + [names[0]], Made(t, at, names[0], Directory, fs, header);
    Carry(done, names);
    PathSplits(done, names, j);
    CounterGrows(t, at, names, typeflag, fs, header);
    StepStands(t, at, done, names[0], Directory, fs, header);
    if j > 1 {
      MadeExtends(t, at, names[0], Directory, fs, header);
      NothingBelow(m, t.g.counter, rest[..j - 1]);
      PathMakesDirectory(m, t.g.counter, further, rest, typeflag, fs, header, j - 1);
    } else {
      DirectoryStays(t, m, at, further, names, typeflag, fs, header);
      assert further + rest[..0] == further;
    }
  }

  /** The directory made for the first name is still there when the rest is made. */
  lemma {:induction false} DirectoryStays(t: Tree, m: Tree, at: int, further: seq<CString>, names: seq<CString>,
                                          typeflag: Byte, fs: int, header: nat)
    requires Kept(t) && t.g.counter < TABLE_CAPACITY && at in t.g.nodes && names != [] && CutNames(names[1..])
    requires m == Made(t, at, names[0], Directory, fs, header) && Stands(m, t.g.counter, further)
    requires PathAdded(m, t.g.counter, names[1..], typeflag, fs, header).g.counter <= TABLE_CAPACITY
    ensures var t' := PathAdded(m, t.g.counter, names[1..], typeflag, fs, header);
            IsMade(t', Resolve(t'.g.nodes, t.g.root, further), Directory, fs, header)
  {
    var t' := PathAdded(m, t.g.counter, names[1..], typeflag, fs, header);
    MadeExtends(t, at, names[0], Directory, fs, header);
    PathAddedExact(m, t.g.counter, further, names[1..], typeflag, fs, header, further);
    PathAddedResult(m, t.g.counter, further, names[1..], typeflag, fs, header);
    assert m.g.root == t.g.root;
    StaysMade(m, t', t.g.counter, Directory, fs, header);
  }

  // ---------- The whole archive ----------

  ghost predicate CutItems(items: seq<Item>) {
    forall k :: 0 <= k < |items| ==> CutNames(items[k].names)
  }

  lemma {:induction false} AllGrow(t: Tree, items: seq<Item>, fs: int)
    ensures AllAdded(t, items, fs).g.counter >= t.g.counter && AllAdded(t, items, fs).g.root == t.g.root
    decreases |items|
  {
    if items != [] {
      CounterGrows(t, t.g.root, items[0].names, items[0].typeflag, fs, items[0].header);
      AllGrow(PathAdded(t, t.g.root, items[0].names, items[0].typeflag, fs, items[0].header), items[1..], fs);
    }
  }

  /** The first member's step: all that is known of it. */
  lemma {:induction false} FirstAdded(t: Tree, items: seq<Item>, fs: int, q: seq<CString>) returns (t1: Tree)
    requires Kept(t) && CutItems(items) && items != []
    requires AllAdded(t, items, fs).g.counter <= TABLE_CAPACITY
    ensures t1 == PathAdded(t, t.g.root, items[0].names, items[0].typeflag, fs, items[0].header)
    ensures Kept(t1) && Extends(t, t1) && t1.g.root == t.g.root && CutItems(items[1..])
    ensures AllAdded(t, items, fs) == AllAdded(t1, items[1..], fs)
    ensures Resolve(t.g.nodes, t.g.root, q) != ID_INVALID ==>
              Resolve(t1.g.nodes, t.g.root, q) == Resolve(t.g.nodes, t.g.root, q)
    ensures Resolve(t1.g.nodes, t.g.root, q) != ID_INVALID <==>
            Resolve(t.g.nodes, t.g.root, q) != ID_INVALID || q <= items[0].names
  {
    var i := items[0];
    t1 := PathAdded(t, t.g.root, i.names, i.typeflag, fs, i.header);
    CounterGrows(t, t.g.root, i.names, i.typeflag, fs, i.header);
    AllGrow(t1, items[1..], fs);
    PathAddedExact(t, t.g.root, [], i.names, i.typeflag, fs, i.header, q);
    PathAddedResult(t, t.g.root, [], i.names, i.typeflag, fs, i.header);
    assert [] + i.names == i.names;
  }

  /** After the whole archive a path resolves exactly when it did before or is a prefix of some member's
      path; what resolved before resolves as before. */
  lemma {:induction false} AllAddedExact(t: Tree, items: seq<Item>, fs: int, q: seq<CString>)
    requires Kept(t) && CutItems(items) && AllAdded(t, items, fs).g.counter <= TABLE_CAPACITY
    ensures var t' := AllAdded(t, items, fs);
            var was, now := Resolve(t.g.nodes, t.g.root, q), Resolve(t'.g.nodes, t.g.root, q);
            && Kept(t') && Extends(t, t')
            && (was != ID_INVALID ==> now == was)
            && (now != ID_INVALID <==> was != ID_INVALID || exists k :: 0 <= k < |items| && q <= items[k].names)
    decreases |items|
  {
    if items != [] {
      var t1 := FirstAdded(t, items, fs, q);
      AllAddedExact(t1, items[1..], fs, q);
      if k :| 0 <= k < |items| && q <= items[k].names && k > 0 {
        assert q <= items[1..][k - 1].names;
      }
    }
  }

  lemma {:induction false} LaterKeeps(t: Tree, items: seq<Item>, fs: int, q: seq<CString>, kind: InodeType, header: nat)
    requires Kept(t) && CutItems(items) && AllAdded(t, items, fs).g.counter <= TABLE_CAPACITY
    requires IsMade(t, Resolve(t.g.nodes, t.g.root, q), kind, fs, header)
    ensures var t' := AllAdded(t, items, fs);
            IsMade(t', Resolve(t'.g.nodes, t.g.root, q), kind, fs, header)
  {
    var x := Resolve(t.g.nodes, t.g.root, q);
    assert x != ID_INVALID;
    AllAddedExact(t, items, fs, q);
    StaysMade(t, AllAdded(t, items, fs), x, kind, fs, header);
  }

  /** The kind of the inode that a member's path has at its `j`-th name, if the member makes it. */
  function KindAt(item: Item, j: nat): InodeType {
    if j < |item.names| then Directory else KindOf(item.typeflag)
  }

  lemma {:induction false} ItemMakes(t: Tree, item: Item, fs: int, j: nat)
    requires Kept(t) && CutNames(item.names) && 0 < j <= |item.names|
    requires PathAdded(t, t.g.root, item.names, item.typeflag, fs, item.header).g.counter <= TABLE_CAPACITY
    requires Resolve(t.g.nodes, t.g.root, item.names[..j]) == ID_INVALID
    ensures var t1 := PathAdded(t, t.g.root, item.names, item.typeflag, fs, item.header);
            IsMade(t1, Resolve(t1.g.nodes, t.g.root, item.names[..j]), KindAt(item, j), fs, item.header)
  {
    assert [] + item.names[..j] == item.names[..j];
    if j < |item.names| {
      PathMakesDirectory(t, t.g.root, [], item.names, item.typeflag, fs, item.header, j);
    } else {
      assert [] + item.names == item.names == item.names[..j];
      PathAddedResult(t, t.g.root, [], item.names, item.typeflag, fs, item.header);
    }
  }

  /** A path that a member is the first to lead through, or to: a directory on the way, or the member's own
      inode. */
  lemma {:induction false} PathFound(t: Tree, items: seq<Item>, fs: int, k: nat, j: nat)
    requires Kept(t) && CutItems(items) && AllAdded(t, items, fs).g.counter <= TABLE_CAPACITY
    requires k < |items| && 0 < j <= |items[k].names|
    requires Resolve(t.g.nodes, t.g.root, items[k].names[..j]) == ID_INVALID
    requires forall i :: 0 <= i < k ==> !(items[k].names[..j] <= items[i].names)
    ensures var t', q := AllAdded(t, items, fs), items[k].names[..j];
            IsMade(t', Resolve(t'.g.nodes, t.g.root, q), KindAt(items[k], j), fs, items[k].header)
    decreases k
  {
    var q := items[k].names[..j];
    var t1 := FirstAdded(t, items, fs, q);
    if k > 0 {
      assert items[1..][k - 1] == items[k];
      PathFound(t1, items[1..], fs, k - 1, j);
    } else {
      AllGrow(t1, items[1..], fs);
      ItemMakes(t, items[0], fs, j);
      LaterKeeps(t1, items[1..], fs, q, KindAt(items[0], j), items[0].header);
    }
  }

  /** What the format says of a member's inode: its type by the type's byte, and for regular files only the
      driver, which opens, closes and reads but does not write, and the header. */
  ghost predicate OfFormat(t: Tree, x: int, typeflag: Byte, fs: int, header: nat) {
    && x in t.g.nodes && t.g.nodes[x].fs == fs
    && (typeflag == '0' as int ==>
          && t.g.nodes[x].kind == NormalFile && t.g.nodes[x].vtable == Some(VTable(true, true, true, false))
          && x in t.headers && t.headers[x] == header)
    && (typeflag != '0' as int ==> t.g.nodes[x].vtable == None && x !in t.headers)
    && (typeflag == '1' as int ==> t.g.nodes[x].kind == HardLink)
    && (typeflag == '2' as int ==> t.g.nodes[x].kind == SymLink)
    && (typeflag == '3' as int ==> t.g.nodes[x].kind == CharDevice)
    && (typeflag == '4' as int ==> t.g.nodes[x].kind == BlockDevice)
    && (typeflag == '6' as int ==> t.g.nodes[x].kind == Pipe)
    && ((typeflag < '0' as int || typeflag == '5' as int || typeflag > '6' as int) ==> t.g.nodes[x].kind == Directory)
  }

  /** A directory that is no member's: without driver and header. */
  ghost predicate PlainDirectory(t: Tree, x: int, fs: int) {
    && x in t.g.nodes && t.g.nodes[x].kind == Directory && t.g.nodes[x].fs == fs
    && t.g.nodes[x].vtable == None && x !in t.headers
  }

  /** A member whose path no earlier member, and nothing before, has made resolve leads to an inode made
      for it as the format says. */
  lemma {:induction false} MemberFound(t: Tree, items: seq<Item>, fs: int, k: nat)
    requires Kept(t) && CutItems(items) && AllAdded(t, items, fs).g.counter <= TABLE_CAPACITY
    requires k < |items| && Resolve(t.g.nodes, t.g.root, items[k].names) == ID_INVALID
    requires items[k].names != [] && forall j :: 0 <= j < k ==> !(items[k].names <= items[j].names)
    ensures var t' := AllAdded(t, items, fs);
            OfFormat(t', Resolve(t'.g.nodes, t.g.root, items[k].names), items[k].typeflag, fs, items[k].header)
  {
    assert items[k].names[..|items[k].names|] == items[k].names;
    PathFound(t, items, fs, k, |items[k].names|);
  }

  /** A directory that the path of a member is the first to lead through. */
  lemma {:induction false} DirectoryFound(t: Tree, items: seq<Item>, fs: int, k: nat, j: nat)
    requires Kept(t) && CutItems(items) && AllAdded(t, items, fs).g.counter <= TABLE_CAPACITY
    requires k < |items| && 0 < j < |items[k].names|
    requires Resolve(t.g.nodes, t.g.root, items[k].names[..j]) == ID_INVALID
    requires forall i :: 0 <= i < k ==> !(items[k].names[..j] <= items[i].names)
    ensures var t' := AllAdded(t, items, fs);
            PlainDirectory(t', Resolve(t'.g.nodes, t.g.root, items[k].names[..j]), fs)
  {
    PathFound(t, items, fs, k, j);
  }

  // ---------- Every inode has a path ----------

  ghost predicate HasPath(t: Tree, x: int) {
    exists q :: Resolve(t.g.nodes, t.g.root, q) == x
  }

  ghost predicate AllHavePaths(t: Tree) {
    forall x :: x in t.g.nodes ==> HasPath(t, x)
  }

  lemma {:induction false} MadeHavePaths(t: Tree, at: int, done: seq<CString>, name: CString, kind: InodeType, fs: int, header: nat)
    requires Stands(t, at, done) && AllHavePaths(t) && name != [] && Cut(name) == name && t.g.counter < TABLE_CAPACITY
    requires Lookup(t.g.nodes, at, name) == ID_INVALID
    ensures AllHavePaths(Made(t, at, name, kind, fs, header))
  {
    var m := Made(t, at, name, kind, fs, header);
    var leaf := MadeShape(t, at, name, kind, fs, header);
    StepStands(t, at, done, name, kind, fs, header);
    forall x | x in m.g.nodes
      ensures HasPath(m, x)
    {
      if x == t.g.counter {
        assert Resolve(m.g.nodes, m.g.root, done + [name]) == x;
      } else {
        var q :| Resolve(t.g.nodes, t.g.root, q) == x;
        MadeOnePath(t, at, done, name, kind, fs, header, q);
      }
    }
  }

  lemma {:induction false} PathHasPaths(t: Tree, at: int, done: seq<CString>, names: seq<CString>, typeflag: Byte, fs: int, header: nat)
    requires Stands(t, at, done) && AllHavePaths(t) && CutNames(names)
    requires PathAdded(t, at, names, typeflag, fs, header).g.counter <= TABLE_CAPACITY
    ensures AllHavePaths(PathAdded(t, at, names, typeflag, fs, header))
    decreases |names|
  {
    if names != [] {
      var next, rest, further := Lookup(t.g.nodes, at, names[0]), names[1..], done + [names[0]];
      var kind := if |names| == 1 then KindOf(typeflag) else Directory;
      Carry(done, names);
      StepStands(t, at, done, names[0], kind, fs, header);
      CounterGrows(t, at, names, typeflag, fs, header);
      if next != ID_INVALID {
        PathHasPaths(t, next, further, rest, typeflag, fs, header);
      } else {
        MadeHavePaths(t, at, done, names[0], kind, fs, header);
        PathHasPaths(Made(t, at, names[0], kind, fs, header), t.g.counter, further, rest, typeflag, fs, header);
      }
    }
  }

  lemma {:induction false} ArchiveHasPaths(t: Tree, items: seq<Item>, fs: int)
    requires Kept(t) && AllHavePaths(t) && CutItems(items) && AllAdded(t, items, fs).g.counter <= TABLE_CAPACITY
    ensures AllHavePaths(AllAdded(t, items, fs)) && Kept(AllAdded(t, items, fs))
    decreases |items|
  {
    if items != [] {
      var t1 := FirstAdded(t, items, fs, []);
      AllGrow(t1, items[1..], fs);
      PathHasPaths(t, t.g.root, [], items[0].names, items[0].typeflag, fs, items[0].header);
      ArchiveHasPaths(t1, items[1..], fs);
    }
  }

  /** The first member whose path goes on from `q`. */
  lemma {:induction false} FirstThrough(items: seq<Item>, q: seq<CString>, i: nat) returns (k: nat)
    requires i < |items| && q <= items[i].names
    ensures k < |items| && q <= items[k].names && forall j :: 0 <= j < k ==> !(q <= items[j].names)
    decreases i
  {
    if j :| 0 <= j < i && q <= items[j].names {
      k := FirstThrough(items, q, j);
    } else {
      k := i;
    }
  }

  /** Where every inode comes from: each one that the archive added was made for the first member whose path
      leads to it, by the format, or through it, as a directory. */
  lemma {:induction false} EveryInode(t: Tree, items: seq<Item>, fs: int, x: int) returns (k: nat, j: nat)
    requires Kept(t) && AllHavePaths(t) && CutItems(items) && AllAdded(t, items, fs).g.counter <= TABLE_CAPACITY
    requires x in AllAdded(t, items, fs).g.nodes && x !in t.g.nodes
    ensures k < |items| && 0 < j <= |items[k].names|
    ensures Resolve(AllAdded(t, items, fs).g.nodes, t.g.root, items[k].names[..j]) == x
    ensures if j == |items[k].names| then OfFormat(AllAdded(t, items, fs), x, items[k].typeflag, fs, items[k].header)
            else PlainDirectory(AllAdded(t, items, fs), x, fs)
  {
    var t' := AllAdded(t, items, fs);
    ArchiveHasPaths(t, items, fs);
    AllGrow(t, items, fs);
    assert HasPath(t', x);
    var q :| Resolve(t'.g.nodes, t'.g.root, q) == x;
    OldPathsLeadToOld(t, items, fs, q);
    var i :| 0 <= i < |items| && q <= items[i].names;
    k := FirstThrough(items, q, i);
    j := |q|;
    assert items[k].names[..j] == q;
    if j == |items[k].names| {
      assert q == items[k].names;
      MemberFound(t, items, fs, k);
    } else {
      DirectoryFound(t, items, fs, k, j);
    }
  }

  /** A path that leads to a new inode led nowhere before, and a member's path goes on from it. */
  lemma {:induction false} OldPathsLeadToOld(t: Tree, items: seq<Item>, fs: int, q: seq<CString>)
    requires Kept(t) && CutItems(items) && AllAdded(t, items, fs).g.counter <= TABLE_CAPACITY
    requires Resolve(AllAdded(t, items, fs).g.nodes, t.g.root, q) !in t.g.nodes
    requires Resolve(AllAdded(t, items, fs).g.nodes, t.g.root, q) != ID_INVALID
    ensures Resolve(t.g.nodes, t.g.root, q) == ID_INVALID && q != []
    ensures exists i :: 0 <= i < |items| && q <= items[i].names
  {
    AllAddedExact(t, items, fs, q);
    ResolvedIsKept(t, t.g.root, q);
  }

  lemma {:induction false} ResolvedIsKept(t: Tree, at: int, q: seq<CString>)
    requires Kept(t) && at in t.g.nodes
    ensures Resolve(t.g.nodes, at, q) != ID_INVALID ==> Resolve(t.g.nodes, at, q) in t.g.nodes
    decreases |q|
  {
    if q != [] {
      LookupKept(t, at, q[0]);
      if Lookup(t.g.nodes, at, q[0]) != ID_INVALID {
        ResolvedIsKept(t, Lookup(t.g.nodes, at, q[0]), q[1..]);
      }
    }
  }

  // ---------- Headers ----------

  ghost predicate AllIn(headers: map<int, nat>, places: set<nat>) {
    forall id :: id in headers ==> headers[id] in places
  }

  lemma {:induction false} PathHeaders(t: Tree, at: int, names: seq<CString>, typeflag: Byte, fs: int, header: nat, places: set<nat>)
    requires AllIn(t.headers, places) && header in places
    ensures AllIn(PathAdded(t, at, names, typeflag, fs, header).headers, places)
    decreases |names|
  {
    if names != [] {
      var next := Lookup(t.g.nodes, at, names[0]);
      if next != ID_INVALID {
        PathHeaders(t, next, names[1..], typeflag, fs, header, places);
      } else {
        var kind := if |names| == 1 then KindOf(typeflag) else Directory;
        PathHeaders(Made(t, at, names[0], kind, fs, header), t.g.counter, names[1..], typeflag, fs, header, places);
      }
    }
  }

  lemma {:induction false} ArchiveHeaders(t: Tree, items: seq<Item>, fs: int, places: set<nat>)
    requires AllIn(t.headers, places) && forall i :: 0 <= i < |items| ==> items[i].header in places
    ensures AllIn(AllAdded(t, items, fs).headers, places)
    decreases |items|
  {
    if items != [] {
      var i := items[0];
      PathHeaders(t, t.g.root, i.names, i.typeflag, fs, i.header, places);
      ArchiveHeaders(PathAdded(t, t.g.root, i.names, i.typeflag, fs, i.header), items[1..], fs, places);
    }
  }

  /** Adding a path that is there changes nothing. */
  lemma {:induction false} AddedAgain(t: Tree, item: Item, fs: int)
    requires Kept(t) && CutNames(item.names) && Resolve(t.g.nodes, t.g.root, item.names) != ID_INVALID
    requires PathAdded(t, t.g.root, item.names, item.typeflag, fs, item.header).g.counter <= TABLE_CAPACITY
    ensures PathAdded(t, t.g.root, item.names, item.typeflag, fs, item.header) == t
  {
    assert [] + item.names == item.names;
    PathAddedResult(t, t.g.root, [], item.names, item.typeflag, fs, item.header);
  }

  /** A member whose path was there before it leaves no trace of its header. */
  lemma {:induction false} LateMember(t: Tree, items: seq<Item>, fs: int, k: nat, places: set<nat>)
    requires Kept(t) && CutItems(items) && AllAdded(t, items, fs).g.counter <= TABLE_CAPACITY && k < |items|
    requires Resolve(t.g.nodes, t.g.root, items[k].names) != ID_INVALID
             || exists j :: 0 <= j < k && items[k].names <= items[j].names
    requires AllIn(t.headers, places) && forall i :: 0 <= i < |items| && i != k ==> items[i].header in places
    ensures AllIn(AllAdded(t, items, fs).headers, places)
    decreases k
  {
    var names := items[k].names;
    var t1 := FirstAdded(t, items, fs, names);
    if k == 0 {
      AllGrow(t1, items[1..], fs);
      AddedAgain(t, items[0], fs);
      ArchiveHeaders(t1, items[1..], fs, places);
    } else {
      PathHeaders(t, t.g.root, items[0].names, items[0].typeflag, fs, items[0].header, places);
      assert items[1..][k - 1] == items[k];
      if j :| 0 < j < k && names <= items[j].names {
        assert names <= items[1..][j - 1].names;
      }
      LateMember(t1, items[1..], fs, k - 1, places);
    }
  }

  /** With a full table an inode is mounted that the table does not know: its name leads to a number that leads
      nowhere. */
  lemma {:induction false} FullTableMounts(t: Tree, dir: int, name: CString, kind: InodeType, fs: int, header: nat)
    requires IsForest(t.g) && |t.g.nodes| >= TABLE_CAPACITY && dir in t.g.nodes && !Uses(t.g.nodes, dir, Cut(name))
    ensures var m := Made(t, dir, name, kind, fs, header);
            && Lookup(m.g.nodes, dir, Cut(name)) == t.g.counter && t.g.counter !in m.g.nodes
            && m.g.nodes.Keys == t.g.nodes.Keys
  {
    LookupAfter(t.g.nodes, dir, t.g.counter, name, dir, Cut(name));
  }

  // ---------- Room in the tables ----------

  function NameCount(items: seq<Item>): nat {
    if items == [] then 0 else |items[0].names| + NameCount(items[1..])
  }

  lemma {:induction false} PathMakesFew(t: Tree, at: int, names: seq<CString>, typeflag: Byte, fs: int, header: nat)
    ensures PathAdded(t, at, names, typeflag, fs, header).g.counter <= t.g.counter + |names|
    decreases |names|
  {
    if names != [] {
      var next := Lookup(t.g.nodes, at, names[0]);
      if next != ID_INVALID {
        PathMakesFew(t, next, names[1..], typeflag, fs, header);
      } else {
        var kind := if |names| == 1 then KindOf(typeflag) else Directory;
        PathMakesFew(Made(t, at, names[0], kind, fs, header), t.g.counter, names[1..], typeflag, fs, header);
      }
    }
  }

  /** An archive fits the tables whenever its paths have few enough elements in all. */
  lemma {:induction false} SmallArchiveFits(t: Tree, items: seq<Item>, fs: int)
    ensures AllAdded(t, items, fs).g.counter <= t.g.counter + NameCount(items)
    decreases |items|
  {
    if items != [] {
      var i := items[0];
      PathMakesFew(t, t.g.root, i.names, i.typeflag, fs, i.header);
      SmallArchiveFits(PathAdded(t, t.g.root, i.names, i.typeflag, fs, i.header), items[1..], fs);
    }
  }
}
