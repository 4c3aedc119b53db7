/** The inode graph is a forest under the kernel's ways of growing it, so that printing it terminates
    and visits every reachable inode exactly once. */
module Forest {
  import opened Common
  import opened Path
  import opened Namespace

  /** The `i`-th child of `p` is `c`. */
  predicate IsKid(nodes: Inodes, p: int, i: nat, c: int) {
    i < |Kids(nodes, p)| && Kids(nodes, p)[i].inode == c
  }

  /** Edges lead to younger inodes. */
  ghost predicate Younger(g: Graph) {
    && (forall p :: p in g.nodes ==> 0 <= p < g.counter)
    && (forall p, i, c :: IsKid(g.nodes, p, i, c) ==> 0 <= p < c < g.counter)
  }

  /** No inode is mounted twice. */
  ghost predicate OneParent(nodes: Inodes) {
    forall p, q, i, j, c :: IsKid(nodes, p, i, c) && IsKid(nodes, q, j, c) ==> p == q && i == j
  }

  ghost predicate NamesDifferAt(kids: seq<Child>) {
    forall i, j :: 0 <= i < j < |kids| ==> kids[i].name != kids[j].name
  }

  /** Siblings have different names. */
  ghost predicate NamesDiffer(nodes: Inodes) {
    forall p :: NamesDifferAt(Kids(nodes, p))
  }

  ghost predicate IsForest(g: Graph) {
    Younger(g) && OneParent(g.nodes) && g.counter >= 0
  }

  // ---------- Growing ----------

  /** `create_inode`; a full table does not take the new inode. */
  function Created(g: Graph, kind: InodeType): Graph {
    g.(counter := g.counter + 1, nodes := TableAdd(g.nodes, g.counter, Inode(kind, ID_INVALID, None, [])))
  }

  /** `create_inode` and then `mount_child` in an existing inode, as the archive reader does. */
  function Grown(g: Graph, kind: InodeType, dir: int, name: CString): Graph
    requires dir in g.nodes
  {
    var c := Created(g, kind);
    if dir in c.nodes then c.(nodes := WithChild(c.nodes, dir, g.counter, name)) else c
  }

  /** With room in the table the new inode is of the kind asked for, in no filesystem, without driver and children. */
  lemma {:induction false} CreatedIsOfKind(g: Graph, kind: InodeType)
    requires |g.nodes| < TABLE_CAPACITY
    ensures Created(g, kind) == Graph(g.nodes[g.counter := Inode(kind, -1, None, [])], g.counter + 1, g.root)
  {
  }

  lemma {:induction false} CreatedKids(g: Graph, kind: InodeType, p: int)
    requires IsForest(g)
    ensures Kids(Created(g, kind).nodes, p) == Kids(g.nodes, p)
  {
    if p == g.counter {
      assert p !in g.nodes;
    }
  }

  lemma {:induction false} CreatedForest(g: Graph, kind: InodeType)
    requires IsForest(g)
    ensures IsForest(Created(g, kind))
    ensures NamesDiffer(g.nodes) ==> NamesDiffer(Created(g, kind).nodes)
  {
    var c := Created(g, kind);
    forall p
      ensures Kids(c.nodes, p) == Kids(g.nodes, p)
      ensures forall i, x :: IsKid(c.nodes, p, i, x) <==> IsKid(g.nodes, p, i, x)
    {
      CreatedKids(g, kind, p);
    }
  }

  /** Nobody's child. */
  ghost predicate Orphan(nodes: Inodes, c: int) {
    forall p, i :: !IsKid(nodes, p, i, c)
  }

  lemma {:induction false} KidsAfter(nodes: Inodes, dir: int, child: int, name: CString, p: int)
    requires dir in nodes
    ensures Kids(WithChild(nodes, dir, child, name), p)
            == if p == dir then Kids(nodes, dir) + [Child(child, Cut(name))] else Kids(nodes, p)
    ensures forall i, c :: IsKid(WithChild(nodes, dir, child, name), p, i, c)
                           <==> IsKid(nodes, p, i, c) || (p == dir && i == |Kids(nodes, dir)| && c == child)
  {
  }

  lemma {:induction false} MountForest(g: Graph, dir: int, child: int, name: CString)
    requires IsForest(g) && dir in g.nodes && dir < child < g.counter && Orphan(g.nodes, child)
    ensures IsForest(g.(nodes := WithChild(g.nodes, dir, child, name)))
  {
    forall p, i, c
      ensures IsKid(WithChild(g.nodes, dir, child, name), p, i, c)
              <==> IsKid(g.nodes, p, i, c) || (p == dir && i == |Kids(g.nodes, dir)| && c == child)
    {
      KidsAfter(g.nodes, dir, child, name, p);
    }
  }

  /** Mounting keeps sibling names different exactly when the name is not in use. */
  lemma {:induction false} MountNames(nodes: Inodes, dir: int, child: int, name: CString)
    requires dir in nodes && NamesDiffer(nodes)
    ensures NamesDiffer(WithChild(nodes, dir, child, name)) <==> !Uses(nodes, dir, Cut(name))
  {
    var after := WithChild(nodes, dir, child, name);
    forall p
      ensures p != dir ==> NamesDifferAt(Kids(after, p))
      ensures !Uses(nodes, dir, Cut(name)) ==> NamesDifferAt(Kids(after, p))
    {
      KidsAfter(nodes, dir, child, name, p);
      assert NamesDifferAt(Kids(nodes, p));
    }
    if Uses(nodes, dir, Cut(name)) {
      KidsAfter(nodes, dir, child, name, dir);
      var i :| 0 <= i < |Kids(nodes, dir)| && Kids(nodes, dir)[i].name == Cut(name);
      assert Kids(after, dir)[i].name == Kids(after, dir)[|Kids(nodes, dir)|].name;
      assert !NamesDifferAt(Kids(after, dir));
    }
  }

  lemma {:induction false} GrownForest(g: Graph, kind: InodeType, dir: int, name: CString)
    requires IsForest(g) && dir in g.nodes
    ensures IsForest(Grown(g, kind, dir, name))
    ensures NamesDiffer(g.nodes) ==>
              (NamesDiffer(Grown(g, kind, dir, name).nodes) <==> !Uses(g.nodes, dir, Cut(name)))
  {
    CreatedForest(g, kind);
    var c := Created(g, kind);
    CreatedKids(g, kind, dir);
    forall p, i
      ensures !IsKid(c.nodes, p, i, g.counter)
    {
      CreatedKids(g, kind, p);
      assert !IsKid(g.nodes, p, i, g.counter);
    }
    MountForest(c, dir, g.counter, name);
    if NamesDiffer(g.nodes) {
      MountNames(c.nodes, dir, g.counter, name);
    }
  }

  /** What the kernel does to the graph: a new inode in a known directory, or a new inode mounted at a
      path, which is left aside when the path's directory does not exist. */
  datatype Op = Grow(kind: InodeType, dir: int, name: CString) | MountAt(kind: InodeType, names: seq<CString>, name: CString)

  function Apply(g: Graph, op: Op): Graph {
    var dir := if op.Grow? then op.dir else Resolve(g.nodes, g.root, op.names);
    if dir in g.nodes then Grown(g, op.kind, dir, op.name) else Created(g, op.kind)
  }

  function ApplyAll(g: Graph, ops: seq<Op>): Graph
    decreases |ops|
  {
    if ops == [] then g else ApplyAll(Apply(g, ops[0]), ops[1..])
  }

  /** Every run of these keeps the graph a forest. */
  lemma {:induction false} RunForest(g: Graph, ops: seq<Op>)
    requires IsForest(g)
    ensures IsForest(ApplyAll(g, ops))
    decreases |ops|
  {
    if ops != [] {
      var op := ops[0];
      var dir := if op.Grow? then op.dir else Resolve(g.nodes, g.root, op.names);
      if dir in g.nodes {
        GrownForest(g, op.kind, dir, op.name);
      } else {
        CreatedForest(g, op.kind);
      }
      RunForest(Apply(g, op), ops[1..]);
    }
  }

  /** Resolution only leads to inodes that exist. */
  lemma {:induction false} ResolveBelow(nodes: Inodes, bound: int, from: int, names: seq<CString>)
    requires from < bound && bound >= 0
    requires forall p, i, c :: IsKid(nodes, p, i, c) ==> c < bound
    ensures Resolve(nodes, from, names) < bound
    decreases |names|
  {
    if names != [] {
      var kids := Kids(nodes, from);
      if Named(kids, names[0]) {
        var i := FirstNamedIsChild(kids, names[0]);
        assert IsKid(nodes, from, i, kids[i].inode);
      } else {
        FirstNamedUnused(kids, names[0]);
      }
      if Lookup(nodes, from, names[0]) != ID_INVALID {
        ResolveBelow(nodes, bound, Lookup(nodes, from, names[0]), names[1..]);
      }
    }
  }

  // ---------- Printing ----------

  /** A printed line: the inode and the names on the way to it; the source prints the last name,
      indented by their number. */
  datatype Line = Line(inode: int, names: seq<CString>)

  /** `get_child_name`: the name of the first child that is the inode. */
  function ChildName(kids: seq<Child>, inode: int): CString {
    if kids == [] then []
    else if kids[0].inode == inode then kids[0].name
    else ChildName(kids[1..], inode)
  }

  /** `vfs_print_inode`. It terminates because edges lead to younger inodes. */
  ghost function Lines(g: Graph, inode: int, names: seq<CString>): seq<Line>
    requires Younger(g) && inode < g.counter
    decreases g.counter - inode, g.counter - inode, 0
  {
    if inode == ID_INVALID then [] else [Line(inode, names)] + LinesOfKids(g, inode, names, 0)
  }

  ghost function LinesOfKids(g: Graph, inode: int, names: seq<CString>, i: nat): seq<Line>
    requires Younger(g) && i <= |Kids(g.nodes, inode)|
    requires inode < g.counter
    decreases g.counter - inode, 0, |Kids(g.nodes, inode)| - i
  {
    if i == |Kids(g.nodes, inode)| then []
    else
      var child := Kids(g.nodes, inode)[i].inode;
      assert IsKid(g.nodes, inode, i, child);
      Lines(g, child, names + [ChildName(Kids(g.nodes, inode), child)]) + LinesOfKids(g, inode, names, i + 1)
  }

  // ---------- What is printed ----------

  ghost function Shown(lines: seq<Line>): set<int> {
    set l | l in lines :: l.inode
  }

  lemma {:induction false} ShownSplit(a: seq<Line>, b: seq<Line>)
    ensures Shown(a + b) == Shown(a) + Shown(b)
  {
    assert forall l :: l in a + b <==> l in a || l in b;
  }

  /** Only inodes at least as young are printed, and all but the first next to a printed parent. */
  lemma {:induction false} ShownBelow(g: Graph, r: int, names: seq<CString>, x: int)
    requires Younger(g) && 0 <= r < g.counter && x in Shown(Lines(g, r, names))
    ensures r <= x
    ensures x != r ==> exists p, i :: p < x && IsKid(g.nodes, p, i, x) && p in Shown(Lines(g, r, names))
    decreases g.counter - r, g.counter - r, 0
  {
    ShownSplit([Line(r, names)], LinesOfKids(g, r, names, 0));
    assert Line(r, names) in [Line(r, names)];
    if x != r {
      ShownBelowKids(g, r, names, 0, x);
    }
  }

  lemma {:induction false} ShownBelowKids(g: Graph, r: int, names: seq<CString>, i: nat, x: int)
    requires Younger(g) && 0 <= r < g.counter && i <= |Kids(g.nodes, r)|
    requires x in Shown(LinesOfKids(g, r, names, i))
    ensures r < x
    ensures exists p, k :: p < x && IsKid(g.nodes, p, k, x)
                           && (p == r || p in Shown(LinesOfKids(g, r, names, i)))
    decreases g.counter - r, 0, |Kids(g.nodes, r)| - i
  {
    var child := Kids(g.nodes, r)[i].inode;
    assert IsKid(g.nodes, r, i, child);
    var sub := names + [ChildName(Kids(g.nodes, r), child)];
    ShownSplit(Lines(g, child, sub), LinesOfKids(g, r, names, i + 1));
    if x in Shown(Lines(g, child, sub)) {
      ShownBelow(g, child, sub, x);
    } else {
      ShownBelowKids(g, r, names, i + 1, x);
    }
  }

  /** The trees below two siblings have nothing in common. */
  lemma {:induction false} SiblingsApart(g: Graph, r: int, i: nat, c: int, j: nat, d: int, cn: seq<CString>, dn: seq<CString>, x: int)
    requires IsForest(g) && i != j && IsKid(g.nodes, r, i, c) && IsKid(g.nodes, r, j, d)
    requires x in Shown(Lines(g, c, cn)) && x in Shown(Lines(g, d, dn))
    ensures false
    decreases if x > 0 then x else 0
  {
    ShownBelow(g, c, cn, x);
    ShownBelow(g, d, dn, x);
    if x == c {
      var p, k :| p < x && IsKid(g.nodes, p, k, x) && p in Shown(Lines(g, d, dn));
      ShownBelow(g, d, dn, p);
    } else if x == d {
      var p, k :| p < x && IsKid(g.nodes, p, k, x) && p in Shown(Lines(g, c, cn));
      ShownBelow(g, c, cn, p);
    } else {
      var p, k :| p < x && IsKid(g.nodes, p, k, x) && p in Shown(Lines(g, c, cn));
      var q, l :| q < x && IsKid(g.nodes, q, l, x) && q in Shown(Lines(g, d, dn));
      SiblingsApart(g, r, i, c, j, d, cn, dn, p);
    }
  }

  ghost predicate OnceEach(lines: seq<Line>) {
    forall i, j :: 0 <= i < j < |lines| ==> lines[i].inode != lines[j].inode
  }

  lemma {:induction false} OnceEachJoin(a: seq<Line>, b: seq<Line>)
    requires OnceEach(a) && OnceEach(b) && Shown(a) !! Shown(b)
    ensures OnceEach(a + b)
  {
    forall i, j | 0 <= i < |a| && 0 <= j < |b|
      ensures a[i].inode != b[j].inode
    {
      assert a[i] in a && b[j] in b;
      assert a[i].inode in Shown(a) && b[j].inode in Shown(b);
    }
  }

  /** Printing terminates and shows no inode twice. */
  lemma {:induction false} PrintsOnce(g: Graph, r: int, names: seq<CString>)
    requires IsForest(g) && 0 <= r < g.counter
    ensures OnceEach(Lines(g, r, names))
    decreases g.counter - r, g.counter - r, 0
  {
    PrintsKidsOnce(g, r, names, 0);
    var rest := LinesOfKids(g, r, names, 0);
    if r in Shown(rest) {
      ShownBelowKids(g, r, names, 0, r);
    }
    assert Shown([Line(r, names)]) == {r} by {
      assert Line(r, names) in [Line(r, names)];
    }
    OnceEachJoin([Line(r, names)], rest);
  }

  lemma {:induction false} PrintsKidsOnce(g: Graph, r: int, names: seq<CString>, i: nat)
    requires IsForest(g) && 0 <= r < g.counter && i <= |Kids(g.nodes, r)|
    ensures OnceEach(LinesOfKids(g, r, names, i))
    decreases g.counter - r, 0, |Kids(g.nodes, r)| - i
  {
    if i < |Kids(g.nodes, r)| {
      var child := Kids(g.nodes, r)[i].inode;
      assert IsKid(g.nodes, r, i, child);
      var sub := names + [ChildName(Kids(g.nodes, r), child)];
      PrintsOnce(g, child, sub);
      PrintsKidsOnce(g, r, names, i + 1);
      forall x | x in Shown(LinesOfKids(g, r, names, i + 1))
        ensures x !in Shown(Lines(g, child, sub))
      {
        var j, d, dn := KidOf(g, r, names, i + 1, x);
        if x in Shown(Lines(g, child, sub)) {
          SiblingsApart(g, r, i, child, j, d, sub, dn, x);
        }
      }
      OnceEachJoin(Lines(g, child, sub), LinesOfKids(g, r, names, i + 1));
    }
  }

  /** The child below which `x` is printed. */
  lemma {:induction false} KidOf(g: Graph, r: int, names: seq<CString>, i: nat, x: int) returns (j: nat, d: int, dn: seq<CString>)
    requires Younger(g) && 0 <= r < g.counter && i <= |Kids(g.nodes, r)|
    requires x in Shown(LinesOfKids(g, r, names, i))
    ensures j >= i && IsKid(g.nodes, r, j, d) && x in Shown(Lines(g, d, dn))
    decreases |Kids(g.nodes, r)| - i
  {
    j, d := i, Kids(g.nodes, r)[i].inode;
    assert IsKid(g.nodes, r, i, d);
    dn := names + [ChildName(Kids(g.nodes, r), d)];
    ShownSplit(Lines(g, d, dn), LinesOfKids(g, r, names, i + 1));
    if x !in Shown(Lines(g, d, dn)) {
      j, d, dn := KidOf(g, r, names, i + 1, x);
    }
  }

  // ---------- Everything reachable is printed ----------

  /** Going from `r` to the child with each of the given places in turn leads to `x`. */
  predicate Chain(nodes: Inodes, r: int, places: seq<nat>, x: int)
    decreases |places|
  {
    if places == [] then r == x
    else places[0] < |Kids(nodes, r)| && Chain(nodes, Kids(nodes, r)[places[0]].inode, places[1..], x)
  }

  ghost predicate Reachable(nodes: Inodes, r: int, x: int) {
    exists places :: Chain(nodes, r, places, x)
  }

  /** What is printed below a child is printed below its parent. */
  lemma {:induction false} ShownUnder(g: Graph, r: int, names: seq<CString>, from: nat, i: nat)
    requires Younger(g) && 0 <= r < g.counter && from <= i < |Kids(g.nodes, r)|
    ensures IsKid(g.nodes, r, i, Kids(g.nodes, r)[i].inode)
    ensures var c := Kids(g.nodes, r)[i].inode;
            Shown(Lines(g, c, names + [ChildName(Kids(g.nodes, r), c)])) <= Shown(LinesOfKids(g, r, names, from))
    decreases i - from
  {
    var c := Kids(g.nodes, r)[from].inode;
    assert IsKid(g.nodes, r, from, c);
    ShownSplit(Lines(g, c, names + [ChildName(Kids(g.nodes, r), c)]), LinesOfKids(g, r, names, from + 1));
    if from < i {
      ShownUnder(g, r, names, from + 1, i);
    }
  }

  lemma {:induction false} ChainIsShown(g: Graph, r: int, names: seq<CString>, places: seq<nat>, x: int)
    requires Younger(g) && 0 <= r < g.counter && Chain(g.nodes, r, places, x)
    ensures x in Shown(Lines(g, r, names))
    decreases |places|
  {
    ShownSplit([Line(r, names)], LinesOfKids(g, r, names, 0));
    assert Line(r, names) in [Line(r, names)];
    if places != [] {
      var c := Kids(g.nodes, r)[places[0]].inode;
      ShownUnder(g, r, names, 0, places[0]);
      ChainIsShown(g, c, names + [ChildName(Kids(g.nodes, r), c)], places[1..], x);
    }
  }

  lemma {:induction false} ShownHasChain(g: Graph, r: int, names: seq<CString>, x: int) returns (places: seq<nat>)
    requires Younger(g) && 0 <= r < g.counter && x in Shown(Lines(g, r, names))
    ensures Chain(g.nodes, r, places, x)
    decreases g.counter - r
  {
    places := [];
    if x != r {
      ShownSplit([Line(r, names)], LinesOfKids(g, r, names, 0));
      var i, c, sub := KidOf(g, r, names, 0, x);
      var rest := ShownHasChain(g, c, sub, x);
      places := [i] + rest;
    }
  }

  /** Printing shows exactly the inodes that can be reached, each of them once, whether or not a path
      resolves to them. */
  lemma {:induction false} PrintsReachable(g: Graph, r: int, names: seq<CString>)
    requires IsForest(g) && 0 <= r < g.counter
    ensures OnceEach(Lines(g, r, names))
    ensures forall x :: x in Shown(Lines(g, r, names)) <==> Reachable(g.nodes, r, x)
  {
    PrintsOnce(g, r, names);
    forall x
      ensures x in Shown(Lines(g, r, names)) <==> Reachable(g.nodes, r, x)
    {
      if x in Shown(Lines(g, r, names)) {
        var places := ShownHasChain(g, r, names, x);
      }
      if places :| Chain(g.nodes, r, places, x) {
        ChainIsShown(g, r, names, places, x);
      }
    }
  }

  // ---------- The order of the lines ----------

  /** The line at `j` is a child's of the line at `i`, indented by one more, and everything between them is
      indented more than `i`. */
  ghost predicate ParentAt(nodes: Inodes, lines: seq<Line>, i: nat, j: nat) {
    && i < j < |lines| && |lines[j].names| == |lines[i].names| + 1
    && (exists a :: IsKid(nodes, lines[i].inode, a, lines[j].inode))
    && forall k :: i < k <= j ==> |lines[k].names| > |lines[i].names|
  }

  ghost predicate HasParent(nodes: Inodes, lines: seq<Line>, j: nat) {
    exists i :: ParentAt(nodes, lines, i, j)
  }

  lemma {:induction false} ParentMoves(nodes: Inodes, a: seq<Line>, lines: seq<Line>, b: seq<Line>, j: nat)
    requires HasParent(nodes, lines, j)
    ensures HasParent(nodes, a + lines + b, |a| + j)
  {
    var i: nat :| ParentAt(nodes, lines, i, j);
    var all := a + lines + b;
    assert all[|a| + i] == lines[i] && all[|a| + j] == lines[j];
    forall k | |a| + i < k <= |a| + j
      ensures |all[k].names| > |lines[i].names|
    {
      assert all[k] == lines[k - |a|];
    }
    assert ParentAt(nodes, all, |a| + i, |a| + j);
  }

  lemma {:induction false} ParentInJoin(nodes: Inodes, a: seq<Line>, b: seq<Line>, j: nat)
    ensures j < |a| && HasParent(nodes, a, j) ==> HasParent(nodes, a + b, j)
    ensures j >= |a| && HasParent(nodes, b, j - |a|) ==> HasParent(nodes, a + b, j)
  {
    if j < |a| && HasParent(nodes, a, j) {
      ParentMoves(nodes, [], a, b, j);
      assert [] + a + b == a + b;
    }
    if j >= |a| && HasParent(nodes, b, j - |a|) {
      ParentMoves(nodes, a, b, [], j - |a|);
      assert a + b + [] == a + b;
    }
  }

  lemma {:induction false} LinesDeep(g: Graph, r: int, names: seq<CString>)
    requires Younger(g) && 0 <= r < g.counter
    ensures forall k :: 0 <= k < |Lines(g, r, names)| ==> |Lines(g, r, names)[k].names| >= |names|
    decreases g.counter - r, g.counter - r, 0
  {
    KidsDeep(g, r, names, 0);
  }

  lemma {:induction false} KidsDeep(g: Graph, r: int, names: seq<CString>, i: nat)
    requires Younger(g) && 0 <= r < g.counter && i <= |Kids(g.nodes, r)|
    ensures forall k :: 0 <= k < |LinesOfKids(g, r, names, i)| ==> |LinesOfKids(g, r, names, i)[k].names| > |names|
    decreases g.counter - r, 0, |Kids(g.nodes, r)| - i
  {
    if i < |Kids(g.nodes, r)| {
      var child := Kids(g.nodes, r)[i].inode;
      assert IsKid(g.nodes, r, i, child);
      LinesDeep(g, child, names + [ChildName(Kids(g.nodes, r), child)]);
      KidsDeep(g, r, names, i + 1);
    }
  }

  /** The parent of every line but the first is the nearest line above it that is less indented, so that the
      indentation alone gives the tree back. */
  lemma {:induction false} ParentIsAbove(g: Graph, r: int, names: seq<CString>, j: nat)
    requires Younger(g) && 0 <= r < g.counter && 0 < j < |Lines(g, r, names)|
    ensures HasParent(g.nodes, Lines(g, r, names), j)
    decreases g.counter - r, g.counter - r, 0
  {
    var first, kids := [Line(r, names)], LinesOfKids(g, r, names, 0);
    var direct := KidsHaveParents(g, r, names, 0, j - 1);
    if direct {
      KidsDeep(g, r, names, 0);
      var all := first + kids;
      forall k | 0 < k <= j
        ensures |all[k].names| > |names|
      {
        assert all[k] == kids[k - 1];
      }
      assert all[j] == kids[j - 1];
      assert ParentAt(g.nodes, all, 0, j);
    } else {
      ParentMoves(g.nodes, first, kids, [], j - 1);
      assert first + kids + [] == first + kids;
    }
  }

  /** Either the line is a child's of `r`, or its parent is above it. */
  lemma {:induction false} KidsHaveParents(g: Graph, r: int, names: seq<CString>, i: nat, j: nat) returns (direct: bool)
    requires Younger(g) && 0 <= r < g.counter && i <= |Kids(g.nodes, r)| && j < |LinesOfKids(g, r, names, i)|
    ensures var l := LinesOfKids(g, r, names, i)[j];
            direct ==> |l.names| == |names| + 1 && exists a :: IsKid(g.nodes, r, a, l.inode)
    ensures !direct ==> HasParent(g.nodes, LinesOfKids(g, r, names, i), j)
    decreases g.counter - r, 0, |Kids(g.nodes, r)| - i
  {
    var child := Kids(g.nodes, r)[i].inode;
    assert IsKid(g.nodes, r, i, child);
    var sub := names + [ChildName(Kids(g.nodes, r), child)];
    var a, b := Lines(g, child, sub), LinesOfKids(g, r, names, i + 1);
    ParentInJoin(g.nodes, a, b, j);
    if j == 0 {
      direct := true;
    } else if j < |a| {
      direct := false;
      ParentIsAbove(g, child, sub, j);
    } else {
      direct := KidsHaveParents(g, r, names, i + 1, j - |a|);
    }
  }

  /** Where the lines below `r` have the line of its `b`-th child. */
  lemma {:induction false} KidIsThere(g: Graph, r: int, names: seq<CString>, from: nat, b: nat) returns (j: nat)
    requires Younger(g) && 0 <= r < g.counter && from <= b < |Kids(g.nodes, r)|
    ensures j < |LinesOfKids(g, r, names, from)|
    ensures LinesOfKids(g, r, names, from)[j].inode == Kids(g.nodes, r)[b].inode
    decreases b - from
  {
    var child := Kids(g.nodes, r)[from].inode;
    assert IsKid(g.nodes, r, from, child);
    j := 0;
    if from < b {
      j := KidIsThere(g, r, names, from + 1, b);
      j := j + |Lines(g, child, names + [ChildName(Kids(g.nodes, r), child)])|;
    }
  }

  lemma {:induction false} KidsOrdered(g: Graph, r: int, names: seq<CString>, from: nat, a: nat, b: nat) returns (i: nat, j: nat)
    requires Younger(g) && 0 <= r < g.counter && from <= a < b < |Kids(g.nodes, r)|
    ensures i < j < |LinesOfKids(g, r, names, from)|
    ensures LinesOfKids(g, r, names, from)[i].inode == Kids(g.nodes, r)[a].inode
    ensures LinesOfKids(g, r, names, from)[j].inode == Kids(g.nodes, r)[b].inode
    decreases a - from
  {
    var child := Kids(g.nodes, r)[from].inode;
    assert IsKid(g.nodes, r, from, child);
    var size := |Lines(g, child, names + [ChildName(Kids(g.nodes, r), child)])|;
    if from < a {
      i, j := KidsOrdered(g, r, names, from + 1, a, b);
      i, j := i + size, j + size;
    } else {
      j := KidIsThere(g, r, names, from + 1, b);
      i, j := 0, j + size;
    }
  }

  /** The first line is the inode's own, and its children's lines come in the children's order. */
  lemma {:induction false} PrintedInOrder(g: Graph, r: int, names: seq<CString>, a: nat, b: nat) returns (i: nat, j: nat)
    requires Younger(g) && 0 <= r < g.counter && a < b < |Kids(g.nodes, r)|
    ensures Lines(g, r, names) != [] && Lines(g, r, names)[0] == Line(r, names)
    ensures 0 < i < j < |Lines(g, r, names)|
    ensures Lines(g, r, names)[i].inode == Kids(g.nodes, r)[a].inode
    ensures Lines(g, r, names)[j].inode == Kids(g.nodes, r)[b].inode
  {
    i, j := KidsOrdered(g, r, names, 0, a, b);
    i, j := i + 1, j + 1;
  }

  /** The lines of a part of the tree follow the line of its root. */
  ghost predicate Follows(g: Graph, lines: seq<Line>, i: nat)
    requires Younger(g) && i < |lines| && 0 <= lines[i].inode < g.counter
  {
    Lines(g, lines[i].inode, lines[i].names) <= lines[i..]
  }

  lemma {:induction false} PartFollows(g: Graph, r: int, names: seq<CString>, i: nat)
    requires Younger(g) && 0 <= r < g.counter && i < |Lines(g, r, names)|
    ensures 0 <= Lines(g, r, names)[i].inode < g.counter && Follows(g, Lines(g, r, names), i)
    decreases g.counter - r, g.counter - r, 0
  {
    var all := Lines(g, r, names);
    if i == 0 {
      assert all[0..] == all;
    } else {
      KidsPartFollows(g, r, names, 0, i - 1);
      assert all[i..] == LinesOfKids(g, r, names, 0)[i - 1..];
    }
  }

  lemma {:induction false} KidsPartFollows(g: Graph, r: int, names: seq<CString>, from: nat, i: nat)
    requires Younger(g) && 0 <= r < g.counter && from <= |Kids(g.nodes, r)| && i < |LinesOfKids(g, r, names, from)|
    ensures 0 <= LinesOfKids(g, r, names, from)[i].inode < g.counter && Follows(g, LinesOfKids(g, r, names, from), i)
    decreases g.counter - r, 0, |Kids(g.nodes, r)| - from
  {
    var child := Kids(g.nodes, r)[from].inode;
    assert IsKid(g.nodes, r, from, child);
    var sub := names + [ChildName(Kids(g.nodes, r), child)];
    var a, b := Lines(g, child, sub), LinesOfKids(g, r, names, from + 1);
    if i < |a| {
      PartFollows(g, child, sub, i);
      assert (a + b)[i..] == a[i..] + b;
    } else {
      KidsPartFollows(g, r, names, from + 1, i - |a|);
      assert (a + b)[i..] == b[i - |a|..];
    }
  }

  // ---------- What a printed path means ----------

  lemma {:induction false} ChildNameIs(kids: seq<Child>, i: nat)
    requires i < |kids| && forall j :: 0 <= j < i ==> kids[j].inode != kids[i].inode
    ensures ChildName(kids, kids[i].inode) == kids[i].name
  {
    if i > 0 {
      ChildNameIs(kids[1..], i - 1);
    }
  }

  lemma {:induction false} NamedByParent(g: Graph, r: int, i: nat)
    requires IsForest(g) && i < |Kids(g.nodes, r)|
    ensures ChildName(Kids(g.nodes, r), Kids(g.nodes, r)[i].inode) == Kids(g.nodes, r)[i].name
  {
    forall j | 0 <= j < i
      ensures Kids(g.nodes, r)[j].inode != Kids(g.nodes, r)[i].inode
    {
      assert IsKid(g.nodes, r, j, Kids(g.nodes, r)[j].inode) && IsKid(g.nodes, r, i, Kids(g.nodes, r)[i].inode);
    }
    ChildNameIs(Kids(g.nodes, r), i);
  }

  /** Whatever resolves from an inode is printed below it, with the path that resolves to it. */
  lemma {:induction false} ResolvedIsPrinted(g: Graph, r: int, names: seq<CString>, path: seq<CString>)
    requires IsForest(g) && 0 <= r < g.counter && Resolve(g.nodes, r, path) != ID_INVALID
    ensures Line(Resolve(g.nodes, r, path), names + path) in Lines(g, r, names)
    decreases |path|
  {
    if path == [] {
      assert names + [] == names;
    } else {
      var kids := Kids(g.nodes, r);
      if !Named(kids, path[0]) {
        FirstNamedUnused(kids, path[0]);
      }
      var i := FirstNamedIsChild(kids, path[0]);
      assert IsKid(g.nodes, r, i, kids[i].inode);
      NamedByParent(g, r, i);
      ResolvedIsPrinted(g, kids[i].inode, names + [path[0]], path[1..]);
      assert names + [path[0]] + path[1..] == names + path;
      KidsPrinted(g, r, names, 0, i, Line(Resolve(g.nodes, r, path), names + path));
    }
  }

  lemma {:induction false} KidsPrinted(g: Graph, r: int, names: seq<CString>, from: nat, i: nat, l: Line)
    requires Younger(g) && 0 <= r < g.counter && from <= i < |Kids(g.nodes, r)|
    requires IsKid(g.nodes, r, i, Kids(g.nodes, r)[i].inode)
    requires l in Lines(g, Kids(g.nodes, r)[i].inode, names + [ChildName(Kids(g.nodes, r), Kids(g.nodes, r)[i].inode)])
    ensures l in LinesOfKids(g, r, names, from)
    decreases i - from
  {
    if from < i {
      KidsPrinted(g, r, names, from + 1, i, l);
    }
  }

  /** When siblings have different names, a printed path resolves to the inode printed with it. */
  lemma {:induction false} PrintedResolves(g: Graph, r: int, names: seq<CString>, l: Line) returns (path: seq<CString>)
    requires IsForest(g) && NamesDiffer(g.nodes) && 0 <= r < g.counter && l in Lines(g, r, names)
    ensures l.names == names + path && Resolve(g.nodes, r, path) == l.inode
    decreases g.counter - r, g.counter - r, 0
  {
    if l == Line(r, names) {
      path := [];
    } else {
      path := PrintedKidResolves(g, r, names, 0, l);
    }
  }

  lemma {:induction false} PrintedKidResolves(g: Graph, r: int, names: seq<CString>, i: nat, l: Line) returns (path: seq<CString>)
    requires IsForest(g) && NamesDiffer(g.nodes) && 0 <= r < g.counter && i <= |Kids(g.nodes, r)|
    requires l in LinesOfKids(g, r, names, i)
    ensures l.names == names + path && Resolve(g.nodes, r, path) == l.inode
    decreases g.counter - r, 0, |Kids(g.nodes, r)| - i
  {
    var child := Kids(g.nodes, r)[i];
    assert IsKid(g.nodes, r, i, child.inode);
    NamedByParent(g, r, i);
    if l in Lines(g, child.inode, names + [child.name]) {
      var rest := PrintedResolves(g, child.inode, names + [child.name], l);
      path := PathThrough(g, r, names, i, l, rest);
    } else {
      path := PrintedKidResolves(g, r, names, i + 1, l);
    }
  }

  /** A path below a child, seen from its parent. */
  lemma {:induction false} PathThrough(g: Graph, r: int, names: seq<CString>, i: nat, l: Line, rest: seq<CString>)
    returns (path: seq<CString>)
    requires Younger(g) && NamesDiffer(g.nodes) && i < |Kids(g.nodes, r)|
    requires l.names == names + [Kids(g.nodes, r)[i].name] + rest
    requires Resolve(g.nodes, Kids(g.nodes, r)[i].inode, rest) == l.inode
    ensures l.names == names + path && Resolve(g.nodes, r, path) == l.inode
  {
    path := [Kids(g.nodes, r)[i].name] + rest;
    ResolveThrough(g, r, i, rest);
    JoinsAssociate(names, [Kids(g.nodes, r)[i].name], rest);
  }

  lemma {:induction false} ResolveThrough(g: Graph, r: int, i: nat, rest: seq<CString>)
    requires Younger(g) && NamesDiffer(g.nodes) && i < |Kids(g.nodes, r)|
    ensures Resolve(g.nodes, r, [Kids(g.nodes, r)[i].name] + rest) == Resolve(g.nodes, Kids(g.nodes, r)[i].inode, rest)
  {
    var kids := Kids(g.nodes, r);
    assert IsKid(g.nodes, r, i, kids[i].inode);
    var k := FirstNamedIsChild(kids, kids[i].name);
    assert NamesDifferAt(kids);
    assert ([kids[i].name] + rest)[1..] == rest;
  }
}
