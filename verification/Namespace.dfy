/** The graph of inodes: path resolution as a fold, mounting, and the forest that the kernel builds. */
module Namespace {
  import opened Common
  import opened Path

  datatype InodeType = NormalFile | HardLink | SymLink | CharDevice | BlockDevice | Directory | Pipe

  /** Which of a driver's calls exist. */
  datatype VTable = VTable(open: bool, close: bool, read: bool, write: bool)

  datatype Child = Child(inode: int, name: CString)

  datatype Inode = Inode(kind: InodeType, fs: int, vtable: Option<VTable>, children: seq<Child>)

  type Inodes = map<int, Inode>

  datatype Graph = Graph(nodes: Inodes, counter: int, root: int)

  function Kids(nodes: Inodes, p: int): seq<Child> {
    if p in nodes then nodes[p].children else []
  }

  // ---------- Resolution ----------

  /** The inode of the first child with the name. */
  function FirstNamed(kids: seq<Child>, name: CString): int {
    if kids == [] then ID_INVALID
    else if kids[0].name == name then kids[0].inode
    else FirstNamed(kids[1..], name)
  }

  function Lookup(nodes: Inodes, dir: int, name: CString): int {
    FirstNamed(Kids(nodes, dir), name)
  }

  /** Resolution folds the lookup over the names. */
  function Resolve(nodes: Inodes, from: int, names: seq<CString>): int
    decreases |names|
  {
    if names == [] then from
    else
      var next := Lookup(nodes, from, names[0]);
      if next == ID_INVALID then ID_INVALID else Resolve(nodes, next, names[1..])
  }

  /** Resolution follows one run of names after another. */
  lemma {:induction false} ResolveJoin(nodes: Inodes, from: int, a: seq<CString>, b: seq<CString>)
    requires Resolve(nodes, from, a) != ID_INVALID
    ensures Resolve(nodes, from, a + b) == Resolve(nodes, Resolve(nodes, from, a), b)
    decreases |a|
  {
    if a == [] {
      assert a + b == b;
    } else {
      assert (a + b)[1..] == a[1..] + b;
      ResolveJoin(nodes, Lookup(nodes, from, a[0]), a[1..], b);
    }
  }

  /** Only the children matter. */
  lemma {:induction false} ResolveSameKids(a: Inodes, b: Inodes, from: int, names: seq<CString>)
    requires forall p :: Kids(a, p) == Kids(b, p)
    ensures Resolve(a, from, names) == Resolve(b, from, names)
    decreases |names|
  {
    if names != [] {
      assert Kids(a, from) == Kids(b, from);
      ResolveSameKids(a, b, Lookup(a, from, names[0]), names[1..]);
    }
  }

  /** The names by which a path is resolved: its elements, cut to the name buffer. */
  function Names(path: CString): (n: seq<CString>)
    ensures |n| == |Elements(path)|
    ensures forall i :: 0 <= i < |n| ==> n[i] == Cut(Elements(path)[i]) && n[i] != []
  {
    seq(|Elements(path)|, i requires 0 <= i < |Elements(path)| => Cut(Elements(path)[i]))
  }

  lemma {:induction false} ElementsFit(s: CString, i: nat)
    requires i < |Elements(s)|
    ensures |Elements(s)[i]| <= |s|
    decreases |s|
  {
    if s[0] == SLASH {
      ElementsFit(s[1..], i);
    } else if i > 0 {
      ElementsFit(AfterWord(s), i - 1);
    }
  }

  /** The names are the elements themselves exactly when each of those is shorter than 256 bytes. */
  lemma {:induction false} NamesAreWhole(s: CString)
    ensures Names(s) == Elements(s) <==> forall i :: 0 <= i < |Elements(s)| ==> |Elements(s)[i]| < 256
  {
    forall i | 0 <= i < |Elements(s)|
      ensures Names(s)[i] == Elements(s)[i] <==> |Elements(s)[i]| < 256
    {
      assert Names(s)[i] == Cut(Elements(s)[i]);
    }
  }

  /** So a path of less than 256 bytes is never cut. */
  lemma {:induction false} ShortPathIsWhole(s: CString)
    requires |s| < 256
    ensures Names(s) == Elements(s)
  {
    forall i | 0 <= i < |Elements(s)|
      ensures |Elements(s)[i]| < 256
    {
      ElementsFit(s, i);
    }
    NamesAreWhole(s);
  }

  /** Slashes in front of a path and behind it do not change its names. */
  lemma {:induction false} SameNames(m: nat, s: CString, n: nat)
    ensures Names(Slashes(m) + s + Slashes(n)) == Names(s)
  {
    OuterSlashes(m, s, n);
  }

  function Front<T>(s: seq<T>): seq<T>
    requires s != []
  {
    s[..|s| - 1]
  }

  function Last<T>(s: seq<T>): T
    requires s != []
  {
    s[|s| - 1]
  }

  /** Some child has the name. */
  predicate Named(kids: seq<Child>, name: CString) {
    exists i :: 0 <= i < |kids| && kids[i].name == name
  }

  predicate Uses(nodes: Inodes, dir: int, name: CString) {
    Named(Kids(nodes, dir), name)
  }

  lemma {:induction false} NamedTail(kids: seq<Child>, name: CString)
    requires kids != []
    ensures Named(kids, name) <==> kids[0].name == name || Named(kids[1..], name)
  {
    if i :| 0 <= i < |kids| && kids[i].name == name && i > 0 {
      assert kids[1..][i - 1].name == name;
    }
    if i :| 0 <= i < |kids[1..]| && kids[1..][i].name == name {
      assert kids[i + 1].name == name;
    }
  }

  lemma {:induction false} FirstNamedAppend(kids: seq<Child>, c: Child, name: CString)
    ensures FirstNamed(kids + [c], name)
            == if Named(kids, name) then FirstNamed(kids, name)
               else if c.name == name then c.inode else ID_INVALID
  {
    if kids == [] {
      assert [] + [c] == [c];
    } else {
      assert (kids + [c])[1..] == kids[1..] + [c];
      FirstNamedAppend(kids[1..], c, name);
      NamedTail(kids, name);
    }
  }

  lemma {:induction false} FirstNamedIsChild(kids: seq<Child>, name: CString) returns (i: nat)
    requires Named(kids, name)
    ensures i < |kids| && kids[i].name == name && kids[i].inode == FirstNamed(kids, name)
    ensures forall k :: 0 <= k < i ==> kids[k].name != name
  {
    if kids[0].name == name {
      i := 0;
    } else {
      NamedTail(kids, name);
      i := FirstNamedIsChild(kids[1..], name);
      i := i + 1;
    }
  }

  lemma {:induction false} FirstNamedUnused(kids: seq<Child>, name: CString)
    requires !Named(kids, name)
    ensures FirstNamed(kids, name) == ID_INVALID
  {
    if kids != [] {
      NamedTail(kids, name);
      FirstNamedUnused(kids[1..], name);
    }
  }

  // ---------- Mounting ----------

  /** `mount_child` on an existing inode. */
  function WithChild(nodes: Inodes, dir: int, child: int, name: CString): Inodes
    requires dir in nodes
  {
    nodes[dir := nodes[dir].(children := nodes[dir].children + [Child(child, Cut(name))])]
  }

  lemma {:induction false} LookupAfter(nodes: Inodes, dir: int, child: int, name: CString, at: int, n: CString)
    requires dir in nodes
    ensures Lookup(WithChild(nodes, dir, child, name), at, n)
            == if at == dir && n == Cut(name) && !Uses(nodes, dir, n) then child else Lookup(nodes, at, n)
  {
    if at == dir {
      FirstNamedAppend(nodes[dir].children, Child(child, Cut(name)), n);
      if !Uses(nodes, dir, n) {
        FirstNamedUnused(nodes[dir].children, n);
      }
    }
  }

  /** Mounting keeps every resolution that succeeded before. */
  lemma {:induction false} MountIsMonotone(nodes: Inodes, dir: int, child: int, name: CString, from: int, names: seq<CString>)
    requires dir in nodes && Resolve(nodes, from, names) != ID_INVALID
    ensures Resolve(WithChild(nodes, dir, child, name), from, names) == Resolve(nodes, from, names)
    decreases |names|
  {
    if names != [] {
      LookupAfter(nodes, dir, child, name, from, names[0]);
      if from == dir && !Uses(nodes, dir, names[0]) {
        FirstNamedUnused(nodes[dir].children, names[0]);
      }
      MountIsMonotone(nodes, dir, child, name, Lookup(nodes, from, names[0]), names[1..]);
    }
  }

  /** Mounting under a name in use changes no resolution. */
  lemma {:induction false} MountIsShadowed(nodes: Inodes, dir: int, child: int, name: CString, from: int, names: seq<CString>)
    requires dir in nodes && Uses(nodes, dir, Cut(name))
    ensures Resolve(WithChild(nodes, dir, child, name), from, names) == Resolve(nodes, from, names)
    decreases |names|
  {
    if names != [] {
      LookupAfter(nodes, dir, child, name, from, names[0]);
      MountIsShadowed(nodes, dir, child, name, Lookup(nodes, from, names[0]), names[1..]);
    }
  }

  /** Mounting a fresh leaf under an unused name adds exactly one edge: a path resolves as before, or
      is the parent's path followed by the name and resolves to the leaf, or does not resolve. */
  lemma {:induction false} MountIsExact(nodes: Inodes, dir: int, child: int, name: CString, from: int, names: seq<CString>)
    requires dir in nodes && dir != ID_INVALID && !Uses(nodes, dir, Cut(name)) && child != ID_INVALID && child != dir
    requires Kids(nodes, child) == [] && from != ID_INVALID
    ensures var was := Resolve(nodes, from, names);
            Resolve(WithChild(nodes, dir, child, name), from, names)
            == if was != ID_INVALID then was
               else if names != [] && Last(names) == Cut(name) && Resolve(nodes, from, Front(names)) == dir then child
               else ID_INVALID
    decreases |names|
  {
    var after := WithChild(nodes, dir, child, name);
    if names != [] {
      var next := Lookup(nodes, from, names[0]);
      LookupAfter(nodes, dir, child, name, from, names[0]);
      if from == dir && names[0] == Cut(name) {
        FirstNamedUnused(nodes[dir].children, names[0]);
        if |names| > 1 {
          assert Kids(after, child) == [];
          assert Front(names)[0] == names[0];
        }
      } else if next != ID_INVALID {
        MountIsExact(nodes, dir, child, name, next, names[1..]);
        if |names| > 1 {
          assert Front(names)[1..] == Front(names[1..]);
        }
      } else if |names| > 1 {
        assert Front(names)[0] == names[0];
      }
    }
  }
}
