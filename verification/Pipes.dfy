/** Mounting a pipe: the pipe driver's `mount_pipe` on the virtual filesystem. */
module Pipes {
  import opened Common
  import opened Path
  import opened Namespace
  import opened Forest
  import opened VirtualFs

  const PIPE_DRIVER := VTable(true, true, true, true)

  function PipeInode(): Inode {
    Inode(InodeType.Pipe, ID_INVALID, Some(PIPE_DRIVER), [])
  }

  /** The graph with a new pipe mounted at the path of these names; without a directory to mount it in the
      pipe is left aside. */
  function Piped(g: Graph, names: seq<CString>): Graph
    requires names != []
  {
    var nodes := TableAdd(g.nodes, g.counter, PipeInode());
    var dir := Resolve(nodes, g.root, Front(names));
    Graph(if dir != ID_INVALID && dir in nodes then WithChild(nodes, dir, g.counter, Last(names)) else nodes,
          g.counter + 1, g.root)
  }

  /** The new inode changes no children, so the path's directory is an older inode. */
  lemma {:induction false} PipeApart(g: Graph, names: seq<CString>)
    requires IsForest(g) && g.root < g.counter
    ensures var nodes := TableAdd(g.nodes, g.counter, PipeInode());
            && (forall p :: Kids(nodes, p) == Kids(g.nodes, p))
            && Resolve(nodes, g.root, names) == Resolve(g.nodes, g.root, names) < g.counter
            && Kids(nodes, g.counter) == []
  {
    var nodes := TableAdd(g.nodes, g.counter, PipeInode());
    assert g.counter !in g.nodes;
    ResolveSameKids(nodes, g.nodes, g.root, names);
    ResolveBelow(g.nodes, g.counter, g.root, names);
  }

  lemma {:induction false} PipedForest(g: Graph, names: seq<CString>)
    requires IsForest(g) && g.root < g.counter && names != []
    ensures IsForest(Piped(g, names))
  {
    var made := Graph(TableAdd(g.nodes, g.counter, PipeInode()), g.counter + 1, g.root);
    var dir := Resolve(made.nodes, g.root, Front(names));
    PipeApart(g, Front(names));
    forall p, i, c
      ensures IsKid(made.nodes, p, i, c) <==> IsKid(g.nodes, p, i, c)
    {
      assert Kids(made.nodes, p) == Kids(g.nodes, p);
    }
    if dir != ID_INVALID && dir in made.nodes {
      MountForest(made, dir, g.counter, Last(names));
    }
  }

  /** The directory at the front of the path exists and has no child with the last name. */
  predicate NameIsFree(g: Graph, names: seq<CString>)
    requires names != []
  {
    var dir := Resolve(g.nodes, g.root, Front(names));
    dir in g.nodes && !Uses(g.nodes, dir, Last(names))
  }

  /** `q` ends in the pipe's name, below the directory of the pipe's path. */
  predicate SamePlace(g: Graph, names: seq<CString>, q: seq<CString>)
    requires names != []
  {
    && q != [] && Last(q) == Last(names)
    && Resolve(g.nodes, g.root, Front(q)) == Resolve(g.nodes, g.root, Front(names))
  }

  lemma {:induction false} FreeNameLeadsNowhere(g: Graph, names: seq<CString>, q: seq<CString>)
    requires IsForest(g) && names != [] && NameIsFree(g, names) && SamePlace(g, names, q)
    ensures Resolve(g.nodes, g.root, q) == ID_INVALID
  {
    var dir := Resolve(g.nodes, g.root, Front(names));
    FirstNamedUnused(Kids(g.nodes, dir), Last(names));
    ResolveJoin(g.nodes, g.root, Front(q), [Last(q)]);
    assert q == Front(q) + [Last(q)];
  }

  /** A path that resolved before resolves to the same inode still. A path resolves to the pipe exactly when
      the directory of the pipe's path existed and had no child with its name, and the path ends in that name
      below the same directory. No other path resolves anew. */
  lemma {:induction false} PipedExact(g: Graph, names: seq<CString>, q: seq<CString>)
    requires IsForest(g) && 0 <= g.root < g.counter && names != [] && Cut(Last(names)) == Last(names)
    ensures Resolve(Piped(g, names).nodes, g.root, q)
            == if NameIsFree(g, names) && SamePlace(g, names, q) then g.counter else Resolve(g.nodes, g.root, q)
    ensures Resolve(g.nodes, g.root, q) < g.counter
  {
    var nodes := TableAdd(g.nodes, g.counter, PipeInode());
    var dir := Resolve(nodes, g.root, Front(names));
    PipeApart(g, Front(names));
    PipeApart(g, q);
    assert Kids(nodes, dir) == Kids(g.nodes, dir);
    if dir in g.nodes {
      if NameIsFree(g, names) {
        MountIsExact(nodes, dir, g.counter, Last(names), g.root, q);
        if q != [] {
          PipeApart(g, Front(q));
        }
        if SamePlace(g, names, q) {
          FreeNameLeadsNowhere(g, names, q);
        }
      } else {
        MountIsShadowed(nodes, dir, g.counter, Last(names), g.root, q);
      }
    }
  }

  /** Mounted under a free name, and with room in the inode table, the path leads to a pipe that opens, closes,
      reads and writes, with nothing in it. */
  lemma {:induction false} MountedIsPipe(g: Graph, names: seq<CString>)
    requires IsForest(g) && 0 <= g.root < g.counter && names != [] && Cut(Last(names)) == Last(names)
    requires NameIsFree(g, names) && |g.nodes| < TABLE_CAPACITY
    ensures var g' := Piped(g, names);
            var x := Resolve(g'.nodes, g.root, names);
            && x == g.counter && x in g'.nodes && g'.nodes[x].kind == InodeType.Pipe
            && VtableOf(g'.nodes, x) == Some(VTable(true, true, true, true)) && Kids(g'.nodes, x) == []
  {
    PipedExact(g, names, names);
    PipeApart(g, Front(names));
    assert g.counter !in g.nodes;
  }

  class PipeDriver {
    /** Inodes to the addresses of their pipes. */
    var pipes: map<int, nat>

    constructor ()
      ensures pipes == map[]
    {
      pipes := map[];
    }

    /** `mount_pipe`, which does not look at whether the mount succeeds. */
    method MountPipe(v: Vfs, pipe: nat, path: CString) returns (inode: int)
      requires Elements(path) != [] && v.inodeCounter !in v.nodes
      modifies this, v`nodes, v`inodeCounter
      ensures inode == old(v.inodeCounter) && v.View() == Piped(old(v.View()), Names(path))
      ensures pipes == TableAdd(old(pipes), inode, pipe)
    {
      inode := v.CreateInode(InodeType.Pipe);
      var err := v.SetVtable(inode, Some(PIPE_DRIVER));
      assert v.nodes == TableAdd(old(v.nodes), inode, PipeInode());
      err := v.Mount(inode, path);
      pipes := TableAdd(pipes, inode, pipe);
    }
  }
}
