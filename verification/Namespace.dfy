/** The directory tree as inodes and entries: what keeps it a tree and its link counts right. */
module Namespace {
  import opened Basics
  import opened Chunking
  import opened Model

  const ROOT: nat := 1

  type Name = seq<byte>

  datatype Dirent = Dirent(parent: nat, name: Name, child: nat)

  datatype Inode = Inode(kind: FileKind, nlink: int)

  type Dirents = map<nat, Dirent>

  datatype Ns = Ns(nodes: map<nat, Inode>, dirents: Dirents)

  predicate IsDir(ns: Ns, i: nat) {
    i in ns.nodes && ns.nodes[i].kind == Directory
  }

  /** `a` is reached from `d` by going up `n` entries. */
  ghost predicate Above(dirents: Dirents, a: nat, d: nat, n: nat)
    decreases n
  {
    if n == 0 then a == d
    else exists id :: id in dirents && dirents[id].child == d && Above(dirents, a, dirents[id].parent, n - 1)
  }

  ghost predicate IsAncestor(dirents: Dirents, a: nat, d: nat) {
    exists n: nat :: Above(dirents, a, d, n)
  }

  /* ----- Invariants ----- */

  predicate SameName(a: Dirent, b: Dirent) {
    a.parent == b.parent && a.name == b.name
  }

  ghost predicate EntriesOk(ns: Ns) {
    && IsDir(ns, ROOT)
    && (forall id :: id in ns.dirents ==>
          id >= 1 && IsDir(ns, ns.dirents[id].parent) && ns.dirents[id].child in ns.nodes
              && ns.dirents[id].child != ROOT)
    && (forall a, b :: a in ns.dirents && b in ns.dirents && SameName(ns.dirents[a], ns.dirents[b]) ==> a == b)
  }

  /** Each directory but the root has exactly one entry, and every directory is below the root. */
  ghost predicate TreeOk(ns: Ns) {
    && (forall a, b | a in ns.dirents && b in ns.dirents && ns.dirents[a].child == ns.dirents[b].child ::
          IsDir(ns, ns.dirents[a].child) ==> a == b)
    && (forall d :: IsDir(ns, d) ==> IsAncestor(ns.dirents, ROOT, d))
  }

  function SubDirs(ns: Ns, d: nat): set<nat> {
    set id | id in ns.dirents && ns.dirents[id].parent == d && IsDir(ns, ns.dirents[id].child)
  }

  ghost function NamesOf(dirents: Dirents, i: nat): set<nat> {
    set id | id in dirents && dirents[id].child == i
  }

  /** The link count an inode should have. */
  ghost function Links(ns: Ns, i: nat): nat {
    if IsDir(ns, i) then 2 + |SubDirs(ns, i)| else |NamesOf(ns.dirents, i)|
  }

  ghost predicate LinksOk(ns: Ns) {
    forall i :: i in ns.nodes ==> ns.nodes[i].nlink == Links(ns, i)
  }

  ghost predicate NsOk(ns: Ns) {
    EntriesOk(ns) && TreeOk(ns) && LinksOk(ns)
  }

  /** A fresh store: the root alone. */
  function FreshNs(): Ns {
    Ns(map[ROOT := Inode(Directory, 2)], map[])
  }

  lemma FreshIsOk()
    ensures NsOk(FreshNs())
  {
    var ns := FreshNs();
    assert Above(ns.dirents, ROOT, ROOT, 0);
    assert SubDirs(ns, ROOT) == {};
  }

  lemma DirHasAnEntry(ns: Ns, d: nat) returns (id: nat)
    requires NsOk(ns) && IsDir(ns, d) && d != ROOT
    ensures id in ns.dirents && ns.dirents[id].child == d
  {
    var n: nat :| Above(ns.dirents, ROOT, d, n);
    id :| id in ns.dirents && ns.dirents[id].child == d && Above(ns.dirents, ROOT, ns.dirents[id].parent, n - 1);
  }

  /* ----- Paths under changes of entries ----- */

  /** Paths between directories survive any change that keeps the entries they use. */
  lemma {:induction false} PathKept(old_: Dirents, new_: Dirents, avoid: nat, a: nat, d: nat, n: nat)
    requires Above(old_, a, d, n)
    requires forall id :: id in old_ && old_[id].child != avoid ==> id in new_ && new_[id] == old_[id]
    requires forall m: nat :: m <= n ==> !Above(old_, avoid, d, m)
    ensures Above(new_, a, d, n)
    decreases n
  {
    if n > 0 {
      var id :| id in old_ && old_[id].child == d && Above(old_, a, old_[id].parent, n - 1);
      assert !Above(old_, avoid, d, 0);
      forall m: nat | m <= n - 1 ensures !Above(old_, avoid, old_[id].parent, m) {
        if Above(old_, avoid, old_[id].parent, m) {
          assert Above(old_, avoid, d, m + 1);
        }
      }
      PathKept(old_, new_, avoid, a, old_[id].parent, n - 1);
    }
  }

  lemma {:induction false} PathGrows(old_: Dirents, new_: Dirents, a: nat, d: nat, n: nat)
    requires Above(old_, a, d, n)
    requires forall id :: id in old_ ==> id in new_ && new_[id] == old_[id]
    ensures Above(new_, a, d, n)
    decreases n
  {
    if n > 0 {
      var id :| id in old_ && old_[id].child == d && Above(old_, a, old_[id].parent, n - 1);
      PathGrows(old_, new_, a, old_[id].parent, n - 1);
    }
  }

  /** Moving the entry of directory `s` below a directory that still has a path keeps every path
      to the root, at a new length. */
  lemma {:induction false} PathMoves(old_: Dirents, new_: Dirents, s: nat, d: nat, n: nat)
    requires Above(old_, ROOT, d, n)
    requires forall id :: id in old_ && old_[id].child != s ==> id in new_ && new_[id] == old_[id]
    requires IsAncestor(new_, ROOT, s)
    ensures IsAncestor(new_, ROOT, d)
    decreases n
  {
    if d == s {
    } else if n == 0 {
      assert Above(new_, ROOT, d, 0);
    } else {
      var id :| id in old_ && old_[id].child == d && Above(old_, ROOT, old_[id].parent, n - 1);
      PathMoves(old_, new_, s, old_[id].parent, n - 1);
      var m: nat :| Above(new_, ROOT, old_[id].parent, m);
      assert new_[id].child == d && Above(new_, ROOT, new_[id].parent, m + 1 - 1);
      assert Above(new_, ROOT, d, m + 1);
    }
  }

  /** Only the root is above the root, and a directory is its own ancestor. */
  lemma NothingAboveRoot(ns: Ns, a: nat, n: nat)
    requires EntriesOk(ns) && Above(ns.dirents, a, ROOT, n)
    ensures n == 0 && a == ROOT
  {
  }

  /** Going up from a directory that is not the ancestor looked for, its one entry decides. */
  lemma AncestorThroughParent(ns: Ns, a: nat, d: nat, id: nat)
    requires NsOk(ns) && IsDir(ns, d) && a != d
    requires id in ns.dirents && ns.dirents[id].child == d
    ensures IsAncestor(ns.dirents, a, d) <==> IsAncestor(ns.dirents, a, ns.dirents[id].parent)
  {
    if IsAncestor(ns.dirents, a, d) {
      var n: nat :| Above(ns.dirents, a, d, n);
      var e :| e in ns.dirents && ns.dirents[e].child == d && Above(ns.dirents, a, ns.dirents[e].parent, n - 1);
      assert e == id;
    }
    if IsAncestor(ns.dirents, a, ns.dirents[id].parent) {
      var n: nat :| Above(ns.dirents, a, ns.dirents[id].parent, n);
      assert Above(ns.dirents, a, ns.dirents[id].parent, n + 1 - 1);
      assert Above(ns.dirents, a, d, n + 1);
    }
  }

  /* ----- Operations ----- */

  predicate NameFree(dirents: Dirents, parent: nat, name: Name) {
    forall id :: id in dirents ==> dirents[id].parent != parent || dirents[id].name != name
  }

  function AddLinks(nodes: map<nat, Inode>, i: nat, delta: int): map<nat, Inode> {
    if i in nodes then nodes[i := nodes[i].(nlink := nodes[i].nlink + delta)] else nodes
  }

  lemma AddLinksCommute(nodes: map<nat, Inode>, i: nat, a: int, j: nat, b: int)
    ensures AddLinks(AddLinks(nodes, i, a), j, b) == AddLinks(AddLinks(nodes, j, b), i, a)
  {
  }

  function AddNode(ns: Ns, parent: nat, name: Name, kind: FileKind, i: nat, id: nat): Ns {
    if kind == Directory then
      Ns(AddLinks(ns.nodes[i := Inode(kind, 2)], parent, 1), ns.dirents[id := Dirent(parent, name, i)])
    else
      Ns(ns.nodes[i := Inode(kind, 1)], ns.dirents[id := Dirent(parent, name, i)])
  }

  function AddName(ns: Ns, parent: nat, name: Name, i: nat, id: nat): Ns {
    Ns(AddLinks(ns.nodes, i, 1), ns.dirents[id := Dirent(parent, name, i)])
  }

  /** Entry `id` of a file goes; the inode goes with its last name unless it is open. */
  function DropName(ns: Ns, id: nat, isOpen: bool): Ns
    requires id in ns.dirents && ns.dirents[id].child in ns.nodes
  {
    var i := ns.dirents[id].child;
    Ns(if ns.nodes[i].nlink > 1 || isOpen then AddLinks(ns.nodes, i, -1) else ns.nodes - {i}, ns.dirents - {id})
  }

  /** Entry `id` of a directory goes, and the directory with it. */
  function DropDir(ns: Ns, id: nat): Ns
    requires id in ns.dirents
  {
    Ns(AddLinks(ns.nodes - {ns.dirents[id].child}, ns.dirents[id].parent, -1), ns.dirents - {id})
  }

  function DropEntry(ns: Ns, id: nat, isOpen: bool): Ns
    requires id in ns.dirents && ns.dirents[id].child in ns.nodes
  {
    if IsDir(ns, ns.dirents[id].child) then DropDir(ns, id) else DropName(ns, id, isOpen)
  }

  /** Entry `id` takes another parent and name; its number stays. */
  function MoveEntry(ns: Ns, id: nat, parent: nat, name: Name): Ns
    requires id in ns.dirents
  {
    var e := ns.dirents[id];
    Ns(if IsDir(ns, e.child) && e.parent != parent then AddLinks(AddLinks(ns.nodes, e.parent, -1), parent, 1)
        else ns.nodes,
       ns.dirents[id := Dirent(parent, name, e.child)])
  }

  /* Link counts under changes of one entry. */

  ghost predicate SameKinds(a: Ns, b: Ns, dirents: Dirents) {
    forall id :: id in dirents ==> (IsDir(a, dirents[id].child) <==> IsDir(b, dirents[id].child))
  }

  lemma NamesAdded(dirents: Dirents, id: nat, e: Dirent, j: nat)
    requires id !in dirents
    ensures |NamesOf(dirents[id := e], j)| == |NamesOf(dirents, j)| + if e.child == j then 1 else 0
  {
    assert NamesOf(dirents[id := e], j) == NamesOf(dirents, j) + if e.child == j then {id} else {};
  }

  lemma NamesRemoved(dirents: Dirents, id: nat, j: nat)
    requires id in dirents
    ensures |NamesOf(dirents - {id}, j)| == |NamesOf(dirents, j)| - if dirents[id].child == j then 1 else 0
  {
    if dirents[id].child == j {
      assert id in NamesOf(dirents, j);
      assert NamesOf(dirents - {id}, j) == NamesOf(dirents, j) - {id};
    } else {
      assert NamesOf(dirents - {id}, j) == NamesOf(dirents, j);
    }
  }

  lemma SubDirsAdded(ns: Ns, g: Ns, id: nat, e: Dirent, j: nat)
    requires id !in ns.dirents && g.dirents == ns.dirents[id := e] && SameKinds(ns, g, ns.dirents)
    ensures |SubDirs(g, j)| == |SubDirs(ns, j)| + if e.parent == j && IsDir(g, e.child) then 1 else 0
  {
    hide SubDirs, SameKinds;
    var more := if e.parent == j && IsDir(g, e.child) then {id} else {};
    forall x: nat ensures x in SubDirs(g, j) <==> x in SubDirs(ns, j) + more {
      SubDirAdded(ns, g, id, e, j, x);
    }
    SubDirAdded(ns, g, id, e, j, id);
    assert SubDirs(g, j) == SubDirs(ns, j) + more && SubDirs(ns, j) !! more;
  }

  lemma SubDirAdded(ns: Ns, g: Ns, id: nat, e: Dirent, j: nat, x: nat)
    requires id !in ns.dirents && g.dirents == ns.dirents[id := e] && SameKinds(ns, g, ns.dirents)
    ensures x in SubDirs(g, j) <==> x in SubDirs(ns, j) || (x == id && e.parent == j && IsDir(g, e.child))
    ensures id !in SubDirs(ns, j)
  {
    assert x in ns.dirents ==> (IsDir(ns, ns.dirents[x].child) <==> IsDir(g, ns.dirents[x].child));
  }

  lemma SubDirsRemoved(ns: Ns, g: Ns, id: nat, j: nat)
    requires id in ns.dirents && g.dirents == ns.dirents - {id} && SameKinds(ns, g, g.dirents)
    ensures |SubDirs(g, j)| == |SubDirs(ns, j)| - if ns.dirents[id].parent == j && IsDir(ns, ns.dirents[id].child)
            then 1 else 0
  {
    if ns.dirents[id].parent == j && IsDir(ns, ns.dirents[id].child) {
      assert id in SubDirs(ns, j);
      assert SubDirs(g, j) == SubDirs(ns, j) - {id};
    } else {
      assert SubDirs(g, j) == SubDirs(ns, j);
    }
  }

  /** Moving an entry is removing it and adding it elsewhere. */
  lemma SubDirsMoved(ns: Ns, g: Ns, id: nat, e: Dirent, j: nat)
    requires id in ns.dirents && e.child == ns.dirents[id].child
    requires g.dirents == ns.dirents[id := e] && SameKinds(ns, g, ns.dirents)
    ensures |SubDirs(g, j)| == |SubDirs(ns, j)|
                               - (if ns.dirents[id].parent == j && IsDir(ns, e.child) then 1 else 0)
                               + if e.parent == j && IsDir(ns, e.child) then 1 else 0
    ensures |NamesOf(g.dirents, j)| == |NamesOf(ns.dirents, j)|
  {
    var without := ns.(dirents := ns.dirents - {id});
    SubDirsRemoved(ns, without, id, j);
    NamesRemoved(ns.dirents, id, j);
    assert g.dirents == without.dirents[id := e];
    SubDirsAdded(without, g, id, e, j);
    NamesAdded(without.dirents, id, e, j);
  }

  lemma NoEntries(ns: Ns, i: nat)
    requires EntriesOk(ns) && i !in ns.nodes
    ensures NamesOf(ns.dirents, i) == {} && SubDirs(ns, i) == {}
  {
  }

  lemma TwoNames(s: set<nat>, a: nat, b: nat)
    requires a in s && b in s && a != b
    ensures |s| >= 2
  {
    assert |s - {a}| == |s| - 1 && b in s - {a};
  }

  lemma PathsGrow(old_: Dirents, new_: Dirents, a: nat, d: nat)
    requires IsAncestor(old_, a, d)
    requires forall id :: id in old_ ==> id in new_ && new_[id] == old_[id]
    ensures IsAncestor(new_, a, d)
  {
    var n: nat :| Above(old_, a, d, n);
    PathGrows(old_, new_, a, d, n);
  }

  lemma OneMoreChild(old_: Dirents, new_: Dirents, id: nat, parent: nat, i: nat)
    requires IsAncestor(old_, ROOT, parent)
    requires forall e :: e in old_ ==> e in new_ && new_[e] == old_[e]
    requires id in new_ && new_[id].parent == parent && new_[id].child == i
    ensures IsAncestor(new_, ROOT, i)
  {
    var n: nat :| Above(old_, ROOT, parent, n);
    PathGrows(old_, new_, ROOT, parent, n);
    assert Above(new_, ROOT, new_[id].parent, n + 1 - 1);
    assert Above(new_, ROOT, i, n + 1);
  }

  lemma AddNodeTree(ns: Ns, parent: nat, name: Name, kind: FileKind, i: nat, id: nat)
    requires NsOk(ns) && IsDir(ns, parent) && i !in ns.nodes && id !in ns.dirents
    ensures TreeOk(AddNode(ns, parent, name, kind, i, id))
  {
    hide LinksOk;
    var g := AddNode(ns, parent, name, kind, i, id);
    assert forall d | IsDir(g, d) :: d == i || IsDir(ns, d);
    OneMoreChild(ns.dirents, g.dirents, id, parent, i);
    hide EntriesOk;
    forall d | IsDir(g, d) && d != i ensures IsAncestor(g.dirents, ROOT, d) {
      PathsGrow(ns.dirents, g.dirents, ROOT, d);
    }
  }

  lemma AddNodeLinks(ns: Ns, parent: nat, name: Name, kind: FileKind, i: nat, id: nat)
    requires EntriesOk(ns) && LinksOk(ns) && IsDir(ns, parent) && i !in ns.nodes && id !in ns.dirents
    ensures LinksOk(AddNode(ns, parent, name, kind, i, id))
  {
    hide TreeOk, SubDirs, NamesOf;
    var g, e := AddNode(ns, parent, name, kind, i, id), Dirent(parent, name, i);
    NoEntries(ns, i);
    forall j | j in g.nodes ensures g.nodes[j].nlink == Links(g, j) {
      SubDirsAdded(ns, g, id, e, j);
      NamesAdded(ns.dirents, id, e, j);
    }
  }

  lemma AddNodeKeepsOk(ns: Ns, parent: nat, name: Name, kind: FileKind, i: nat, id: nat)
    requires NsOk(ns) && IsDir(ns, parent) && i !in ns.nodes && id !in ns.dirents && id >= 1
    requires NameFree(ns.dirents, parent, name)
    ensures NsOk(AddNode(ns, parent, name, kind, i, id))
  {
    hide LinksOk, TreeOk;
    AddNodeTree(ns, parent, name, kind, i, id);
    AddNodeLinks(ns, parent, name, kind, i, id);
  }

  lemma AddNameTree(ns: Ns, parent: nat, name: Name, i: nat, id: nat)
    requires NsOk(ns) && i in ns.nodes && !IsDir(ns, i) && id !in ns.dirents
    ensures TreeOk(AddName(ns, parent, name, i, id))
  {
    hide LinksOk, EntriesOk;
    var g := AddName(ns, parent, name, i, id);
    forall d | IsDir(g, d) ensures IsAncestor(g.dirents, ROOT, d) {
      PathsGrow(ns.dirents, g.dirents, ROOT, d);
    }
  }

  lemma AddNameLinks(ns: Ns, parent: nat, name: Name, i: nat, id: nat)
    requires LinksOk(ns) && i in ns.nodes && !IsDir(ns, i) && id !in ns.dirents
    ensures LinksOk(AddName(ns, parent, name, i, id))
  {
    hide TreeOk, SubDirs, NamesOf;
    var g, e := AddName(ns, parent, name, i, id), Dirent(parent, name, i);
    forall j | j in g.nodes ensures g.nodes[j].nlink == Links(g, j) {
      SubDirsAdded(ns, g, id, e, j);
      NamesAdded(ns.dirents, id, e, j);
    }
  }

  lemma AddNameKeepsOk(ns: Ns, parent: nat, name: Name, i: nat, id: nat)
    requires NsOk(ns) && IsDir(ns, parent) && i in ns.nodes && !IsDir(ns, i) && id !in ns.dirents && id >= 1
    requires NameFree(ns.dirents, parent, name)
    ensures NsOk(AddName(ns, parent, name, i, id))
  {
    hide LinksOk, TreeOk;
    AddNameTree(ns, parent, name, i, id);
    AddNameLinks(ns, parent, name, i, id);
    var g := AddName(ns, parent, name, i, id);
    NsStillRoot(ns, g);
  }

  lemma NsStillRoot(ns: Ns, g: Ns)
    requires EntriesOk(ns) && forall j :: j in ns.nodes ==> j in g.nodes && g.nodes[j].kind == ns.nodes[j].kind
    ensures IsDir(g, ROOT)
  {
    hide LinksOk, TreeOk;
  }

  /** No path from a directory upwards passes a file, nor a directory without entries of its own. */
  lemma {:induction false} LeafNotAbove(ns: Ns, leaf: nat, d: nat, n: nat)
    requires EntriesOk(ns) && d != leaf
    requires forall id :: id in ns.dirents ==> ns.dirents[id].parent != leaf
    ensures !Above(ns.dirents, leaf, d, n)
    decreases n
  {
    if n > 0 && Above(ns.dirents, leaf, d, n) {
      var id :| id in ns.dirents && ns.dirents[id].child == d && Above(ns.dirents, leaf, ns.dirents[id].parent, n - 1);
      LeafNotAbove(ns, leaf, ns.dirents[id].parent, n - 1);
    }
  }

  lemma RootedWithoutLeaf(ns: Ns, id: nat, d: nat)
    requires NsOk(ns) && id in ns.dirents && IsDir(ns, d) && d != ns.dirents[id].child
    requires forall e :: e in ns.dirents ==> ns.dirents[e].parent != ns.dirents[id].child
    ensures IsAncestor(ns.dirents - {id}, ROOT, d)
  {
    var leaf := ns.dirents[id].child;
    var n: nat :| Above(ns.dirents, ROOT, d, n);
    forall m: nat | m <= n ensures !Above(ns.dirents, leaf, d, m) {
      LeafNotAbove(ns, leaf, d, m);
    }
    PathKept(ns.dirents, ns.dirents - {id}, leaf, ROOT, d, n);
  }

  lemma RootedEverywhere(ns: Ns, g: Ns, id: nat)
    requires NsOk(ns) && id in ns.dirents && g.dirents == ns.dirents - {id}
    requires forall d :: IsDir(g, d) ==> IsDir(ns, d) && d != ns.dirents[id].child
    requires forall e :: e in ns.dirents ==> ns.dirents[e].parent != ns.dirents[id].child
    ensures forall d :: IsDir(g, d) ==> IsAncestor(g.dirents, ROOT, d)
  {
    hide NsOk;
    forall d | IsDir(g, d) ensures IsAncestor(g.dirents, ROOT, d) {
      RootedWithoutLeaf(ns, id, d);
    }
  }

  lemma DropNameLinks(ns: Ns, id: nat, isOpen: bool)
    requires EntriesOk(ns) && LinksOk(ns) && id in ns.dirents && !IsDir(ns, ns.dirents[id].child)
    ensures LinksOk(DropName(ns, id, isOpen))
    ensures ns.nodes[ns.dirents[id].child].nlink >= 1
    ensures forall e :: e in ns.dirents && e != id ==> ns.dirents[e].child in DropName(ns, id, isOpen).nodes
  {
    var g, i := DropName(ns, id, isOpen), ns.dirents[id].child;
    forall e | e in ns.dirents && e != id ensures ns.dirents[e].child in g.nodes {
      if ns.dirents[e].child == i {
        assert {e, id} <= NamesOf(ns.dirents, i);
        TwoNames(NamesOf(ns.dirents, i), e, id);
      }
    }
    assert id in NamesOf(ns.dirents, i);
    hide EntriesOk, SubDirs, NamesOf;
    forall j | j in g.nodes ensures g.nodes[j].nlink == Links(g, j) {
      SubDirsRemoved(ns, g, id, j);
      NamesRemoved(ns.dirents, id, j);
    }
  }

  lemma DropNameKeepsOk(ns: Ns, id: nat, isOpen: bool)
    requires NsOk(ns) && id in ns.dirents && !IsDir(ns, ns.dirents[id].child)
    ensures NsOk(DropName(ns, id, isOpen))
    ensures ns.nodes[ns.dirents[id].child].nlink >= 1
  {
    hide LinksOk, IsAncestor;
    DropNameLinks(ns, id, isOpen);
    RootedEverywhere(ns, DropName(ns, id, isOpen), id);
  }

  lemma DropDirKinds(ns: Ns, id: nat)
    requires NsOk(ns) && id in ns.dirents && IsDir(ns, ns.dirents[id].child)
    requires forall e :: e in ns.dirents ==> ns.dirents[e].parent != ns.dirents[id].child
    ensures SameKinds(ns, DropDir(ns, id), DropDir(ns, id).dirents)
    ensures IsDir(ns, ns.dirents[id].parent) && ns.dirents[id].parent != ns.dirents[id].child
  {
    hide LinksOk, IsAncestor;
  }

  lemma DropDirLinks(ns: Ns, id: nat)
    requires NsOk(ns) && id in ns.dirents && IsDir(ns, ns.dirents[id].child)
    requires forall e :: e in ns.dirents ==> ns.dirents[e].parent != ns.dirents[id].child
    ensures LinksOk(DropDir(ns, id))
  {
    hide EntriesOk, TreeOk, SameKinds, SubDirs, NamesOf;
    var g := DropDir(ns, id);
    DropDirKinds(ns, id);
    forall j | j in g.nodes ensures g.nodes[j].nlink == Links(g, j) {
      SubDirsRemoved(ns, g, id, j);
      NamesRemoved(ns.dirents, id, j);
    }
  }

  lemma DropDirKeepsOk(ns: Ns, id: nat)
    requires NsOk(ns) && id in ns.dirents && IsDir(ns, ns.dirents[id].child)
    requires forall e :: e in ns.dirents ==> ns.dirents[e].parent != ns.dirents[id].child
    ensures NsOk(DropDir(ns, id))
  {
    hide LinksOk, IsAncestor;
    DropDirLinks(ns, id);
    RootedEverywhere(ns, DropDir(ns, id), id);
  }

  lemma MoveLinks(ns: Ns, id: nat, parent: nat, name: Name)
    requires EntriesOk(ns) && LinksOk(ns) && id in ns.dirents && IsDir(ns, parent)
    ensures LinksOk(MoveEntry(ns, id, parent, name))
  {
    var g, e := MoveEntry(ns, id, parent, name), Dirent(parent, name, ns.dirents[id].child);
    hide SubDirs, NamesOf;
    forall j | j in g.nodes ensures g.nodes[j].nlink == Links(g, j) {
      SubDirsMoved(ns, g, id, e, j);
    }
  }

  lemma MoveTree(ns: Ns, id: nat, parent: nat, name: Name)
    requires NsOk(ns) && id in ns.dirents && IsDir(ns, parent)
    requires IsDir(ns, ns.dirents[id].child) ==> !IsAncestor(ns.dirents, ns.dirents[id].child, parent)
    ensures TreeOk(MoveEntry(ns, id, parent, name))
  {
    hide LinksOk, IsAncestor;
    var g := MoveEntry(ns, id, parent, name);
    forall d | IsDir(g, d) ensures IsAncestor(g.dirents, ROOT, d) {
      MoveKeepsRooted(ns, id, parent, name, d);
    }
  }

  /** Moving an entry keeps the tree and its counts, as long as no directory goes below itself. */
  lemma MoveKeepsOk(ns: Ns, id: nat, parent: nat, name: Name)
    requires NsOk(ns) && id in ns.dirents && IsDir(ns, parent)
    requires NameFree(ns.dirents, parent, name)
    requires IsDir(ns, ns.dirents[id].child) ==> !IsAncestor(ns.dirents, ns.dirents[id].child, parent)
    ensures NsOk(MoveEntry(ns, id, parent, name))
  {
    hide LinksOk, TreeOk, IsAncestor;
    MoveLinks(ns, id, parent, name);
    MoveTree(ns, id, parent, name);
  }

  lemma MoveKeepsRooted(ns: Ns, id: nat, parent: nat, name: Name, d: nat)
    requires NsOk(ns) && id in ns.dirents && IsDir(ns, parent) && IsDir(ns, d)
    requires IsDir(ns, ns.dirents[id].child) ==> !IsAncestor(ns.dirents, ns.dirents[id].child, parent)
    ensures IsAncestor(MoveEntry(ns, id, parent, name).dirents, ROOT, d)
  {
    hide LinksOk;
    var moved, i := MoveEntry(ns, id, parent, name).dirents, ns.dirents[id].child;
    if IsDir(ns, i) {
      var k: nat :| Above(ns.dirents, ROOT, parent, k);
      PathKept(ns.dirents, moved, i, ROOT, parent, k);
      assert moved[id].child == i && Above(moved, ROOT, moved[id].parent, k + 1 - 1);
      assert Above(moved, ROOT, i, k + 1);
      var n: nat :| Above(ns.dirents, ROOT, d, n);
      PathMoves(ns.dirents, moved, i, d, n);
    } else {
      var n: nat :| Above(ns.dirents, ROOT, d, n);
      forall m: nat | m <= n ensures !Above(ns.dirents, i, d, m) {
        LeafNotAbove(ns, i, d, m);
      }
      PathKept(ns.dirents, moved, i, ROOT, d, n);
    }
  }

  /** Moving a directory under itself would cut it off from the root: the ancestor check of a rename
      refuses exactly the moves that break the tree. */
  lemma MoveUnderItselfDetaches(ns: Ns, id: nat, parent: nat, name: Name)
    requires NsOk(ns) && id in ns.dirents && IsDir(ns, ns.dirents[id].child) && IsDir(ns, parent)
    requires IsAncestor(ns.dirents, ns.dirents[id].child, parent)
    ensures !TreeOk(MoveEntry(ns, id, parent, name))
  {
    hide LinksOk;
    var d, g := ns.dirents[id].child, MoveEntry(ns, id, parent, name);
    if IsAncestor(g.dirents, ROOT, d) {
      var n: nat :| Above(g.dirents, ROOT, d, n);
      var k: nat := 0;
      assert Above(ns.dirents, d, d, 0);
      CutOff(ns, id, parent, name, d, k, n);
    }
    MoveKeepsKinds(ns, id, parent, name, d);
    assert IsDir(g, d) && !IsAncestor(g.dirents, ROOT, d);
  }

  lemma MoveKeepsKinds(ns: Ns, id: nat, parent: nat, name: Name, i: nat)
    requires id in ns.dirents
    ensures IsDir(MoveEntry(ns, id, parent, name), i) <==> IsDir(ns, i)
  {
  }

  /** No way up leads from below the moved directory to the root any more. */
  lemma {:induction false} CutOff(ns: Ns, id: nat, parent: nat, name: Name, x: nat, k: nat, n: nat)
    requires EntriesOk(ns) && TreeOk(ns) && id in ns.dirents && IsDir(ns, ns.dirents[id].child)
    requires IsDir(ns, parent) && IsAncestor(ns.dirents, ns.dirents[id].child, parent)
    requires Above(ns.dirents, ns.dirents[id].child, x, k) && IsDir(ns, x)
    ensures !Above(MoveEntry(ns, id, parent, name).dirents, ROOT, x, n)
    decreases n
  {
    hide EntriesOk, TreeOk, IsAncestor, IsDir;
    var d, g := ns.dirents[id].child, MoveEntry(ns, id, parent, name).dirents;
    if n == 0 {
      if x == ROOT {
        NothingAboveRoot(ns, d, k);
        ChildIsNotRoot(ns, id);
      }
    } else if Above(g, ROOT, x, n) {
      var e :| e in g && g[e].child == x && Above(g, ROOT, g[e].parent, n - 1);
      if e == id {
        var m: nat := HowFar(ns.dirents, d, parent);
        CutOff(ns, id, parent, name, parent, m, n - 1);
      } else {
        StillBelow(ns, id, x, k, e);
        CutOff(ns, id, parent, name, ns.dirents[e].parent, k - 1, n - 1);
      }
    }
  }

  lemma ChildIsNotRoot(ns: Ns, id: nat)
    requires EntriesOk(ns) && id in ns.dirents
    ensures ns.dirents[id].child != ROOT
  {
  }

  lemma HowFar(dirents: Dirents, a: nat, d: nat) returns (n: nat)
    requires IsAncestor(dirents, a, d)
    ensures Above(dirents, a, d, n)
  {
    n :| Above(dirents, a, d, n);
  }

  /** The parent of a directory below the child of entry `id` is below it too. */
  lemma StillBelow(ns: Ns, id: nat, x: nat, k: nat, e: nat)
    requires EntriesOk(ns) && TreeOk(ns) && id in ns.dirents && IsDir(ns, x)
             && Above(ns.dirents, ns.dirents[id].child, x, k)
    requires e in ns.dirents && e != id && ns.dirents[e].child == x
    ensures k > 0 && Above(ns.dirents, ns.dirents[id].child, ns.dirents[e].parent, k - 1)
            && IsDir(ns, ns.dirents[e].parent)
  {
    hide IsAncestor;
    if k > 0 {
      var f :| f in ns.dirents && ns.dirents[f].child == x
          && Above(ns.dirents, ns.dirents[id].child, ns.dirents[f].parent, k - 1);
    }
  }

  /** A rename of entry `source`, which replaces entry `over` if there is one: the tree, the names
      and every link count stay right, also when both are names of one inode. */
  lemma RenameKeepsOk(ns: Ns, source: nat, parent: nat, name: Name, over: Option<nat>, isOpen: bool)
    requires NsOk(ns) && source in ns.dirents && IsDir(ns, parent)
    requires over.None? ==> NameFree(ns.dirents, parent, name)
    requires over.Some? ==>
               && over.value in ns.dirents && over.value != source
               && ns.dirents[over.value].parent == parent && ns.dirents[over.value].name == name
               && (IsDir(ns, ns.dirents[source].child) <==> IsDir(ns, ns.dirents[over.value].child))
    requires over.Some? && IsDir(ns, ns.dirents[over.value].child) ==>
               forall e :: e in ns.dirents ==> ns.dirents[e].parent != ns.dirents[over.value].child
    requires IsDir(ns, ns.dirents[source].child) ==> !IsAncestor(ns.dirents, ns.dirents[source].child, parent)
    ensures var cleared := if over.Some? then DropEntry(ns, over.value, isOpen) else ns;
            && source in cleared.dirents
            && NsOk(cleared)
            && NsOk(MoveEntry(cleared, source, parent, name))
  {
    hide LinksOk, TreeOk, IsAncestor;
    if over.Some? {
      var cleared := DropEntry(ns, over.value, isOpen);
      if IsDir(ns, ns.dirents[over.value].child) {
        DropDirKeepsOk(ns, over.value);
        NoNewAncestors(ns, over.value, ns.dirents[source].child, parent);
      } else {
        DropNameKeepsOk(ns, over.value, isOpen);
      }
      MoveKeepsOk(cleared, source, parent, name);
    } else {
      MoveKeepsOk(ns, source, parent, name);
    }
  }

  lemma NoNewAncestors(ns: Ns, id: nat, a: nat, d: nat)
    requires !IsAncestor(ns.dirents, a, d)
    ensures !IsAncestor(ns.dirents - {id}, a, d)
  {
    if IsAncestor(ns.dirents - {id}, a, d) {
      var n: nat :| Above(ns.dirents - {id}, a, d, n);
      PathGrows(ns.dirents - {id}, ns.dirents, a, d, n);
    }
  }

  /* ----- Inodes without names ----- */

  lemma ParentIsDir(ns: Ns, id: nat)
    requires EntriesOk(ns) && id in ns.dirents
    ensures IsDir(ns, ns.dirents[id].parent) && ns.dirents[id].child in ns.nodes
  {
  }

  lemma StepUp(ns: Ns, d: nat, id: nat, depth: nat)
    requires NsOk(ns) && IsDir(ns, d) && d != ROOT && Above(ns.dirents, ROOT, d, depth)
    requires id in ns.dirents && ns.dirents[id].child == d
    ensures depth > 0 && Above(ns.dirents, ROOT, ns.dirents[id].parent, depth - 1) && IsDir(ns, ns.dirents[id].parent)
  {
    hide LinksOk, IsAncestor;
    var e :| e in ns.dirents && ns.dirents[e].child == d && Above(ns.dirents, ROOT, ns.dirents[e].parent, depth - 1);
    assert e == id;
  }

  lemma NamelessNotMentioned(ns: Ns, ino: nat)
    requires EntriesOk(ns) && LinksOk(ns) && ino in ns.nodes && ns.nodes[ino].kind != Directory
             && ns.nodes[ino].nlink == 0
    ensures forall id :: id in ns.dirents ==> ns.dirents[id].parent != ino && ns.dirents[id].child != ino
  {
    assert |NamesOf(ns.dirents, ino)| == 0;
    forall id | id in ns.dirents ensures ns.dirents[id].child != ino {
      assert id !in NamesOf(ns.dirents, ino);
    }
  }

  lemma DropNamelessLinks(ns: Ns, ino: nat)
    requires LinksOk(ns) && ino in ns.nodes && ns.nodes[ino].kind != Directory
    requires forall id :: id in ns.dirents ==> ns.dirents[id].child != ino
    ensures LinksOk(Ns(ns.nodes - {ino}, ns.dirents))
  {
    var g := Ns(ns.nodes - {ino}, ns.dirents);
    forall j | j in g.nodes ensures SubDirs(g, j) == SubDirs(ns, j) {
    }
  }

  lemma DropNamelessTree(ns: Ns, ino: nat)
    requires TreeOk(ns)
    ensures TreeOk(Ns(ns.nodes - {ino}, ns.dirents))
  {
    hide IsAncestor;
    var g := Ns(ns.nodes - {ino}, ns.dirents);
    assert forall d :: IsDir(g, d) ==> IsDir(ns, d);
  }

  lemma DropNamelessEntries(ns: Ns, ino: nat)
    requires EntriesOk(ns) && !IsDir(ns, ino)
    requires forall id :: id in ns.dirents ==> ns.dirents[id].parent != ino && ns.dirents[id].child != ino
    ensures EntriesOk(Ns(ns.nodes - {ino}, ns.dirents))
  {
  }

  lemma DropNamelessKeepsOk(ns: Ns, ino: nat)
    requires NsOk(ns) && ino in ns.nodes && ns.nodes[ino].kind != Directory
    requires forall id :: id in ns.dirents ==> ns.dirents[id].parent != ino && ns.dirents[id].child != ino
    ensures NsOk(Ns(ns.nodes - {ino}, ns.dirents))
  {
    hide IsAncestor, LinksOk, TreeOk, EntriesOk;
    DropNamelessLinks(ns, ino);
    DropNamelessTree(ns, ino);
    DropNamelessEntries(ns, ino);
  }
}
