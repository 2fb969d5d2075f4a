/** An abstract file system: a finite tree of nodes, changed by system calls. Links are leaves:
    no path given to a system call leads through a link to a directory. */
module FileTrees {
  type Name = string
  type Path = seq<Name>

  /** What a link leads to in the end, if anything. */
  datatype Target = Nothing | ToFile(size: nat) | ToDirectory

  datatype Node = File(size: nat) | Link(size: nat, target: Target) | Directory

  type Tree = map<Path, Node>

  const SELF: Name := "."
  const UP: Name := ".."

  function Parent(p: Path): Path
    requires p != []
  {
    p[..|p| - 1]
  }

  predicate IsDir(t: Tree, p: Path) {
    p in t && t[p].Directory?
  }

  predicate IsDirLink(node: Node) {
    node.Link? && node.target.ToDirectory?
  }

  /** No path at or above `p` is a link to a directory. */
  ghost predicate Straight(t: Tree, p: Path) {
    forall q :: q in t && q <= p ==> !IsDirLink(t[q])
  }

  /** What is reported of a node: of a link, unless links are shown, what it leads to, and an
      empty record if that is nothing. */
  function Seen(node: Node, showLinks: bool): Node {
    if showLinks || !node.Link? then node
    else match node.target
      case Nothing => File(0)
      case ToFile(size) => File(size)
      case ToDirectory => Directory
  }

  /** Every node but the root lies in a directory, and no name is "." or "..". */
  ghost predicate WellFormed(t: Tree) {
    && IsDir(t, [])
    && (forall p :: p in t && p != [] ==> IsDir(t, Parent(p)))
    && (forall p :: p in t && p != [] ==> p[|p| - 1] != SELF && p[|p| - 1] != UP)
  }

  /** What lies below only lies below directories. */
  lemma {:induction false} OnlyBelowDirs(t: Tree, d: Path, p: Path)
    requires WellFormed(t) && p in t && d < p
    ensures IsDir(t, d)
    decreases |p|
  {
    if |p| > |d| + 1 {
      OnlyBelowDirs(t, d, Parent(p));
    } else {
      assert Parent(p) == d;
    }
  }

  lemma DirsAreStraight(t: Tree, p: Path)
    requires WellFormed(t) && IsDir(t, p)
    ensures Straight(t, p)
  {
    forall q | q in t && q <= p
      ensures t[q].Directory?
    {
      if q != p {
        OnlyBelowDirs(t, q, p);
      }
    }
  }

  function Children(t: Tree, d: Path): set<Name> {
    set p | p in t && |p| == |d| + 1 && d <= p :: p[|d|]
  }

  lemma ChildrenAre(t: Tree, d: Path, n: Name)
    ensures n in Children(t, d) <==> d + [n] in t
  {
    if n in Children(t, d) {
      var p :| p in t && |p| == |d| + 1 && d <= p && p[|d|] == n;
      assert p == d + [n];
    }
    if d + [n] in t {
      assert (d + [n])[|d|] == n && d <= d + [n];
    }
  }

  class FileSystem {
    var tree: Tree

    constructor (t: Tree)
      ensures tree == t
    {
      tree := t;
    }

    /** Removes anything but a directory. */
    method Unlink(p: Path) returns (ok: bool)
      modifies this
      ensures ok <==> p in old(tree) && !old(tree)[p].Directory?
      ensures tree == if ok then old(tree) - {p} else old(tree)
    {
      ok := p in tree && !tree[p].Directory?;
      if ok {
        tree := tree - {p};
      }
    }

    /** Removes an empty directory other than the root. */
    method Rmdir(p: Path) returns (ok: bool)
      modifies this
      ensures ok <==> p != [] && IsDir(old(tree), p) && Children(old(tree), p) == {}
      ensures tree == if ok then old(tree) - {p} else old(tree)
    {
      ok := p != [] && IsDir(tree, p) && Children(tree, p) == {};
      if ok {
        tree := tree - {p};
      }
    }

    /** Creates a directory where there is nothing yet but a directory to hold it. */
    method Mkdir(p: Path) returns (ok: bool)
      modifies this
      ensures ok <==> p !in old(tree) && p != [] && IsDir(old(tree), Parent(p))
      ensures tree == if ok then old(tree)[p := Directory] else old(tree)
    {
      ok := p !in tree && p != [] && IsDir(tree, Parent(p));
      if ok {
        tree := tree[p := Directory];
      }
    }

    /** The entries of a directory in no particular order, "." and ".." among them. */
    method ReadDirectory(d: Path, showLinks: bool) returns (ok: bool, entries: seq<Entry>)
      requires Straight(tree, d)
      ensures ok <==> IsDir(tree, d)
      ensures ok ==> Lists(entries, tree, d, showLinks)
    {
      if !IsDir(tree, d) {
        return false, [];
      }
      ok, entries := true, [];
      var rest := Children(tree, d) + {SELF, UP};
      while rest != {}
        invariant forall e :: e in entries ==> e.name !in rest
        invariant forall i, j :: 0 <= i < j < |entries| ==> entries[i].name != entries[j].name
        invariant forall n :: n in Children(tree, d) + {SELF, UP} <==> n in rest || exists e :: e in entries && e.name == n
        invariant forall e :: e in entries ==> e.node == StatOf(tree, d, e.name, showLinks)
        decreases |rest|
      {
        var n :| n in rest;
        rest := rest - {n};
        entries := entries + [Entry(n, StatOf(tree, d, n, showLinks))];
        assert Entry(n, StatOf(tree, d, n, showLinks)) in entries;
      }
    }
  }

  datatype Entry = Entry(name: Name, node: Node)

  function StatOf(t: Tree, d: Path, n: Name, showLinks: bool): Node {
    if n != SELF && n != UP && d + [n] in t then Seen(t[d + [n]], showLinks) else Directory
  }

  ghost predicate Lists(entries: seq<Entry>, t: Tree, d: Path, showLinks: bool) {
    && (forall i, j :: 0 <= i < j < |entries| ==> entries[i].name != entries[j].name)
    && (forall n :: n in Children(t, d) + {SELF, UP} <==> exists e :: e in entries && e.name == n)
    && (forall e :: e in entries ==> e.node == StatOf(t, d, e.name, showLinks))
  }
}
