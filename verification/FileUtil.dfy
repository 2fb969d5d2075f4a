/** Whole-tree operations of `base/file_util`: sizing, recursive deletion and creation. */
module FileUtil {
  import opened Bytes
  import opened FileTrees
  import opened FileEnumerators

  // Sizing a tree

  /** The sum of the sizes of the files in `s`. */
  ghost function SumSizes(t: Tree, s: set<Path>): nat {
    if s == {} then 0
    else
      var p :| p in s;
      SizeAt(t, p) + SumSizes(t, s - {p})
  }

  /** The size of the file at `p`, or of the file that a link there leads to. */
  function SizeAt(t: Tree, p: Path): nat {
    if p !in t then 0
    else
      var node := Seen(t[p], false);
      if node.Directory? then 0 else node.size
  }

  /** The sum does not depend on the order in which the files are taken. */
  lemma {:induction false} SumTakes(t: Tree, s: set<Path>, p: Path)
    requires p in s
    ensures SumSizes(t, s) == SizeAt(t, p) + SumSizes(t, s - {p})
    decreases |s|
  {
    var q :| q in s && SumSizes(t, s) == SizeAt(t, q) + SumSizes(t, s - {q});
    if p != q {
      SumTakes(t, s - {q}, p);
      SumTakes(t, s - {p}, q);
      assert s - {q} - {p} == s - {p} - {q};
    }
  }

  /** Everything strictly below `d` that is not a directory. */
  ghost function FilesBelow(t: Tree, d: Path): set<Path> {
    set p | p in t && d < p && !t[p].Directory?
  }

  const SIZING := Mode(true, true, false, false)

  lemma SizingFinds(t: Tree, d: Path)
    requires Straight(t, d)
    requires forall p :: p in t && d < p ==> !IsDirLink(t[p])
    ensures LinksShown(SIZING, t, [d])
    ensures Below(SIZING, t, [d]) == FilesBelow(t, d)
  {
    hide Straight;
    forall p
      ensures Awaits(SIZING, [d], p) <==> d < p
    {
      AwaitsOne(SIZING, d, p);
    }
  }

  method ComputeDirectorySize(fs: FileSystem, root: Path) returns (size: nat)
    requires WellFormed(fs.tree)
    requires Straight(fs.tree, root)
    requires forall p :: p in fs.tree && root < p ==> !IsDirLink(fs.tree[p])
    ensures size == SumSizes(fs.tree, FilesBelow(fs.tree, root))
  {
    ghost var t := fs.tree;
    SizingFinds(t, root);
    size := 0;
    var files := new FileEnumerator(root, SIZING);
    var next := files.Next(fs);
    ghost var whole := FilesBelow(t, root);
    ghost var left := whole;
    while next.Some?
      invariant fs.tree == t && files.Valid(t) && files.mode == SIZING
      invariant next.Some? ==> next.value in left && files.Todo(t) == left - {next.value}
      invariant next.Some? ==> next.value in t && !t[next.value].Directory?
      invariant next.Some? ==> files.current < |files.entries| && files.entries[files.current].node == Seen(t[next.value], false)
      invariant next.None? ==> left == {}
      invariant size + SumSizes(t, left) == SumSizes(t, whole)
      decreases left
    {
      SumTakes(t, left, next.value);
      size := size + files.GetInfo().node.size;
      left := left - {next.value};
      next := files.Next(fs);
    }
  }

  // Deleting a tree

  const DELETING := Mode(true, true, true, true)

  ghost function Subtree(t: Tree, d: Path): set<Path> {
    set p | p in t && d <= p
  }

  ghost function Strictly(t: Tree, d: Path): set<Path> {
    set p | p in t && d < p
  }

  lemma DeletingFinds(t: Tree, d: Path)
    requires WellFormed(t) && IsDir(t, d)
    ensures LinksShown(DELETING, t, [d])
    ensures Below(DELETING, t, [d]) == Strictly(t, d)
  {
    DirsAreStraight(t, d);
    hide Straight, WellFormed;
    forall p
      ensures Awaits(DELETING, [d], p) <==> d < p
    {
      AwaitsOne(DELETING, d, p);
    }
  }

  /** While the tree is traversed: of what lies strictly below `d`, the nodes already returned
      (those no longer in `left`) are gone if they were not directories. */
  ghost predicate FilesGone(t0: Tree, t: Tree, d: Path, left: set<Path>) {
    && (forall p :: p in t <==> p in t0 && (d < p && !t0[p].Directory? ==> p in left))
    && (forall p :: p in t ==> t[p] == t0[p])
  }

  /** The directories stacked so far: `d` and those returned. */
  ghost predicate Stacked(t0: Tree, d: Path, left: set<Path>, dirs: seq<Path>) {
    forall p :: p in dirs <==> p == d || (IsDir(t0, p) && d < p && p !in left)
  }

  /** No directory on the stack lies at or above one stacked before it. */
  ghost predicate DeepLast(dirs: seq<Path>) {
    forall i, j :: 0 <= i < j < |dirs| ==> !(dirs[j] <= dirs[i])
  }

  /** Whatever is still to be returned lies above nothing on the stack. */
  ghost predicate AboveNone(left: set<Path>, dirs: seq<Path>) {
    forall p, q :: p in left && q in dirs ==> !(p < q)
  }

  lemma GoneWellFormed(t: Tree, p: Path)
    requires WellFormed(t) && p in t && p != []
    requires forall q :: q in t ==> !(p < q)
    ensures WellFormed(t - {p})
  {
    forall q | q in t && q != []
      ensures Parent(q) != p
    {
      assert Parent(q) < q;
    }
  }

  lemma NothingBelowFile(t: Tree, p: Path)
    requires WellFormed(t) && p in t && !t[p].Directory?
    ensures forall q :: q in t ==> !(p < q)
    ensures p != []
  {
    forall q | q in t
      ensures !(p < q)
    {
      if p < q {
        OnlyBelowDirs(t, p, q);
      }
    }
  }

  /** A file is returned and unlinked. */
  lemma FileGone(t0: Tree, t: Tree, d: Path, left: set<Path>, dirs: seq<Path>, p: Path)
    requires FilesGone(t0, t, d, left + {p}) && Stacked(t0, d, left + {p}, dirs) && p !in left
    requires p in t && d < p && !t[p].Directory?
    ensures FilesGone(t0, t - {p}, d, left) && Stacked(t0, d, left, dirs)
  {
  }

  /** A directory is returned and stacked. */
  lemma DirStacked(t0: Tree, t: Tree, d: Path, left: set<Path>, dirs: seq<Path>, p: Path)
    requires FilesGone(t0, t, d, left + {p}) && Stacked(t0, d, left + {p}, dirs) && p !in left
    requires p in t && d < p && t[p].Directory?
    ensures FilesGone(t0, t, d, left) && Stacked(t0, d, left, dirs + [p])
  {
  }

  lemma StackedDeeper(dirs: seq<Path>, left: set<Path>, p: Path)
    requires DeepLast(dirs) && AboveNone(left + {p}, dirs) && p !in dirs
    requires forall a :: a < p ==> a !in left
    ensures DeepLast(dirs + [p]) && AboveNone(left, dirs + [p])
  {
    forall i | 0 <= i < |dirs|
      ensures !(p <= dirs[i])
    {
      assert dirs[i] in dirs && p in left + {p};
      PrefixOrSame(p, dirs[i]);
    }
  }

  lemma PrefixOrSame(p: Path, q: Path)
    requires p != q && !(p < q)
    ensures !(p <= q)
  {
  }

  lemma TopDeepest(rest: seq<Path>, p: Path)
    requires DeepLast(rest + [p])
    ensures DeepLast(rest)
    ensures forall q :: q in rest ==> !(p <= q)
  {
    var dirs := rest + [p];
    assert dirs[|rest|] == p;
    forall i | 0 <= i < |rest|
      ensures !(p <= rest[i])
    {
      assert dirs[i] == rest[i];
    }
    forall i, j | 0 <= i < j < |rest|
      ensures !(rest[j] <= rest[i])
    {
      assert dirs[i] == rest[i] && dirs[j] == rest[j];
    }
  }

  /** Once the files are gone and the deeper directories removed, what is left at or below `d`
      is the stack. */
  ghost predicate DirsLeft(t0: Tree, t: Tree, d: Path, dirs: seq<Path>) {
    && (forall p :: p in t <==> p in t0 && (d <= p ==> p in dirs))
    && (forall p :: p in t ==> t[p] == t0[p])
    && (forall p :: p in dirs ==> IsDir(t0, p) && d <= p)
  }

  lemma FilesGoneLeavesDirs(t0: Tree, t: Tree, d: Path, dirs: seq<Path>)
    requires IsDir(t0, d) && FilesGone(t0, t, d, {}) && Stacked(t0, d, {}, dirs)
    ensures DirsLeft(t0, t, d, dirs)
  {
  }

  lemma NothingUnder(d: Path, p: Path, q: Path)
    requires d <= p && !(d <= q)
    ensures !(p < q)
  {
  }

  /** The directory on top is empty. */
  lemma TopIsEmpty(t0: Tree, t: Tree, d: Path, rest: seq<Path>, p: Path)
    requires DirsLeft(t0, t, d, rest + [p]) && DeepLast(rest + [p])
    ensures IsDir(t, p) && Children(t, p) == {}
    ensures forall q :: q in t ==> !(p < q)
  {
    hide DeepLast;
    TopDeepest(rest, p);
    assert p in rest + [p];
    forall q | q in t
      ensures !(p < q)
    {
      if d <= q {
        assert q in rest || q == p;
      } else {
        NothingUnder(d, p, q);
      }
    }
    forall n
      ensures n !in Children(t, p)
    {
      ChildrenAre(t, p, n);
      assert p < p + [n];
    }
  }

  lemma TopRemoved(t0: Tree, t: Tree, d: Path, rest: seq<Path>, p: Path)
    requires DirsLeft(t0, t, d, rest + [p]) && DeepLast(rest + [p])
    ensures DirsLeft(t0, t - {p}, d, rest) && DeepLast(rest)
  {
    hide DeepLast;
    TopDeepest(rest, p);
    forall q
      ensures q in rest + [p] <==> q in rest || q == p
    {
    }
    assert p <= p && p in rest + [p] && d <= p;
    assert p !in rest;
  }

  /** What recursive deletion leaves of `t`: nothing at or below `d` but the root itself. */
  ghost function Without(t: Tree, d: Path): Tree {
    t - (Subtree(t, d) - {[]})
  }

  /** An empty stack means that the whole subtree is gone. */
  lemma AllGone(t0: Tree, t: Tree, d: Path)
    requires DirsLeft(t0, t, d, []) && WellFormed(t)
    ensures d != [] && t == Without(t0, d)
  {
  }

  /** Only the root is never removed. */
  lemma RootStays(t0: Tree, t: Tree, d: Path, rest: seq<Path>)
    requires DirsLeft(t0, t, d, rest + [[]]) && DeepLast(rest + [[]])
    ensures d == [] && t == Without(t0, d)
  {
    TopIsEmpty(t0, t, d, rest, []);
    assert [] in rest + [[]] && d <= [];
    forall q | q in t
      ensures q == []
    {
      assert !([] < q);
    }
  }

  lemma TopGone(t0: Tree, t: Tree, d: Path, rest: seq<Path>, p: Path)
    requires DirsLeft(t0, t, d, rest + [p]) && DeepLast(rest + [p]) && WellFormed(t) && p != []
    ensures WellFormed(t - {p})
  {
    hide WellFormed, DirsLeft, DeepLast;
    TopIsEmpty(t0, t, d, rest, p);
    GoneWellFormed(t, p);
  }

  /** What remains to be done with the node `p` just returned. */
  ghost predicate Deleting(t0: Tree, t: Tree, d: Path, all: set<Path>, dirs: seq<Path>) {
    && WellFormed(t)
    && FilesGone(t0, t, d, all)
    && Stacked(t0, d, all, dirs)
    && AboveNone(all, dirs)
    && DeepLast(dirs)
    && forall p :: p in all ==> d < p
  }

  lemma DeletingStarts(t: Tree, d: Path)
    requires WellFormed(t) && IsDir(t, d)
    ensures Deleting(t, t, d, Strictly(t, d), [d])
  {
  }

  lemma DeletingFile(t0: Tree, t: Tree, d: Path, all: set<Path>, dirs: seq<Path>, p: Path)
    requires Deleting(t0, t, d, all, dirs) && p in all && p in t && !t[p].Directory?
    ensures Deleting(t0, t - {p}, d, all - {p}, dirs)
  {
    assert all == all - {p} + {p};
    assert AboveNone(all - {p}, dirs);
    NothingBelowFile(t, p);
    GoneWellFormed(t, p);
    hide WellFormed, DeepLast, AboveNone;
    FileGone(t0, t, d, all - {p}, dirs, p);
  }

  lemma DeletingDirectory(t0: Tree, t: Tree, d: Path, all: set<Path>, dirs: seq<Path>, p: Path)
    requires Deleting(t0, t, d, all, dirs) && p in all && p in t && t[p].Directory?
    requires forall a :: a < p ==> a !in all - {p}
    ensures Deleting(t0, t, d, all - {p}, dirs + [p])
  {
    assert all == all - {p} + {p};
    assert p !in dirs;
    StackedDeeper(dirs, all - {p}, p);
    DirStacked(t0, t, d, all - {p}, dirs, p);
  }

  /** Unlinks every node below the directory `path` that is not a directory, and stacks those
      that are, `path` itself at the bottom. */
  method UnlinkFiles(fs: FileSystem, path: Path) returns (success: bool, directories: seq<Path>)
    requires WellFormed(fs.tree) && IsDir(fs.tree, path)
    modifies fs
    ensures success && WellFormed(fs.tree)
    ensures DirsLeft(old(fs.tree), fs.tree, path, directories) && DeepLast(directories)
  {
    hide WellFormed, FilesGone, Stacked, AboveNone, DeepLast, Sound, Remaining, Below, Deleting, LinksShown;
    ghost var t0 := fs.tree;
    success, directories := true, [path];
    var traversal := new FileEnumerator(path, DELETING);
    DeletingFinds(t0, path);
    DeletingStarts(t0, path);
    ghost var all := Strictly(t0, path);
    var current := traversal.Next(fs);
    while success && current.Some?
      invariant success && traversal.mode == DELETING
      invariant WellFormed(fs.tree) && traversal.Valid(fs.tree)
      invariant Deleting(t0, fs.tree, path, all, directories)
      invariant current.Some? ==> current.value in all && traversal.Todo(fs.tree) == all - {current.value}
      invariant current.Some? ==> forall a :: a < current.value ==> a !in all - {current.value}
      invariant current.Some? ==> traversal.current < |traversal.entries|
      invariant current.Some? ==> current.value in fs.tree && traversal.GetInfo().node == fs.tree[current.value]
      invariant current.None? ==> all == {}
      decreases all
    {
      ghost var t, p, dirs := fs.tree, current.value, directories;
      if traversal.GetInfo().node.Directory? {
        DeletingDirectory(t0, t, path, all, dirs, p);
        directories := directories + [current.value];
      } else {
        DeletingFile(t0, t, path, all, dirs, p);
        UnlinkKeeps(DELETING, t, traversal.pending, traversal.root, traversal.entries, traversal.current + 1, p);
        success := fs.Unlink(current.value);
      }
      all := all - {p};
      AllWellFormed(t0, fs.tree, path, all, directories);
      current := traversal.Next(fs);
    }
    AllWellFormed(t0, fs.tree, path, all, directories);
    FilesGoneLeavesDirs(t0, fs.tree, path, directories);
  }

  lemma AllWellFormed(t0: Tree, t: Tree, d: Path, all: set<Path>, dirs: seq<Path>)
    requires Deleting(t0, t, d, all, dirs)
    ensures WellFormed(t) && FilesGone(t0, t, d, all) && Stacked(t0, d, all, dirs) && DeepLast(dirs)
  {
  }

  /** Removes the stacked directories, deepest first: each is empty when its turn comes. */
  method RemoveDirectories(fs: FileSystem, path: Path, stack: seq<Path>, ghost t0: Tree) returns (success: bool)
    requires WellFormed(fs.tree) && DirsLeft(t0, fs.tree, path, stack) && DeepLast(stack)
    modifies fs
    ensures WellFormed(fs.tree)
    ensures success <==> path != []
    ensures fs.tree == Without(t0, path)
  {
    hide WellFormed, DirsLeft, DeepLast, Without;
    success := true;
    var directories := stack;
    while success && directories != []
      invariant WellFormed(fs.tree)
      invariant success ==> DirsLeft(t0, fs.tree, path, directories) && DeepLast(directories)
      invariant !success ==> path == [] && fs.tree == Without(t0, path)
      decreases |directories|, success
    {
      ghost var t, rest := fs.tree, directories[..|directories| - 1];
      var dir := directories[|directories| - 1];
      assert directories == rest + [dir];
      TopIsEmpty(t0, t, path, rest, dir);
      if dir == [] {
        RootStays(t0, t, path, rest);
      } else {
        TopGone(t0, t, path, rest, dir);
        TopRemoved(t0, t, path, rest, dir);
      }
      directories := directories[..|directories| - 1];
      success := fs.Rmdir(dir);
    }
    if success {
      AllGone(t0, fs.tree, path);
    }
  }

  /** What deletion promises: what is not there counts as deleted, a file is unlinked, and a
      directory goes with all it holds, or only if it holds nothing. */
  ghost predicate Deleted(t0: Tree, t: Tree, path: Path, recursive: bool, ok: bool) {
    if path !in t0 then ok && t == t0
    else if !t0[path].Directory? then ok && t == t0 - {path}
    else if recursive then (ok <==> path != []) && t == Without(t0, path)
    else (ok <==> path != [] && Children(t0, path) == {}) && t == if ok then t0 - {path} else t0
  }

  method DeleteFile(fs: FileSystem, path: Path, recursive: bool) returns (ok: bool)
    requires WellFormed(fs.tree)
    requires path != [] ==> Straight(fs.tree, Parent(path))
    modifies fs
    ensures Deleted(old(fs.tree), fs.tree, path, recursive, ok)
    ensures WellFormed(fs.tree)
  {
    ghost var t := fs.tree;
    if path !in fs.tree {
      return true;
    }
    if !fs.tree[path].Directory? {
      NothingBelowFile(t, path);
      GoneWellFormed(t, path);
      ok := fs.Unlink(path);
      return;
    }
    if !recursive {
      if path != [] && Children(t, path) == {} {
        NothingBelowEmpty(t, path);
        GoneWellFormed(t, path);
      }
      ok := fs.Rmdir(path);
      return;
    }
    hide Without, DirsLeft, DeepLast, WellFormed;
    var success, directories := UnlinkFiles(fs, path);
    ok := RemoveDirectories(fs, path, directories, t);
  }

  lemma FirstStepIsChild(t: Tree, d: Path, p: Path)
    requires WellFormed(t)
    ensures p in t && d < p ==> p[|d|] in Children(t, d)
  {
    hide Children;
    if p in t && d < p {
      var c := p[..|d| + 1];
      assert c == d + [p[|d|]];
      if c != p {
        OnlyBelowDirs(t, c, p);
      }
      ChildrenAre(t, d, p[|d|]);
    }
  }

  lemma NothingBelowEmpty(t: Tree, d: Path)
    requires WellFormed(t) && Children(t, d) == {}
    ensures forall p :: p in t ==> !(d < p)
  {
    hide Children, WellFormed;
    forall p
      ensures p in t ==> !(d < p)
    {
      FirstStepIsChild(t, d, p);
    }
  }

  // Creating a directory and all above it

  datatype FileError = EXISTS

  predicate PlainNames(p: Path) {
    forall i :: 0 <= i < |p| ==> p[i] != SELF && p[i] != UP
  }

  /** Something other than a directory stands at or above `p`: a file, or a link that leads to
      a file or nowhere. */
  ghost predicate Blocked(t: Tree, p: Path) {
    exists q :: q in t && q <= p && !t[q].Directory?
  }

  /** `t` with `p` and every path above it made a directory. */
  ghost predicate MadeDirs(t0: Tree, t: Tree, p: Path) {
    && (forall q :: q in t <==> q in t0 || q <= p)
    && (forall q :: q in t0 ==> t[q] == t0[q])
    && (forall q :: q <= p ==> t[q].Directory?)
  }

  lemma MkdirWellFormed(t: Tree, p: Path)
    requires WellFormed(t) && PlainNames(p) && p !in t && p != [] && IsDir(t, Parent(p))
    ensures WellFormed(t[p := Directory])
  {
    assert p[|p| - 1] != SELF && p[|p| - 1] != UP;
  }

  /** One more directory on the way down to `full`. */
  lemma MadeOneMore(t0: Tree, t: Tree, full: Path, k: nat)
    requires k < |full| && full[..k + 1] !in t
    requires MadeDirs(t0, t, full[..k])
    ensures IsDir(t, Parent(full[..k + 1]))
    ensures MadeDirs(t0, t[full[..k + 1] := Directory], full[..k + 1])
  {
    var p := full[..k + 1];
    var t' := t[p := Directory];
    assert Parent(p) == full[..k] <= full[..k];
    forall q
      ensures q in t' <==> q in t0 || q <= p
      ensures q in t0 ==> t'[q] == t0[q]
      ensures q <= p ==> q in t' && t'[q].Directory?
    {
      PrefixesOfNext(full, k, q);
    }
  }

  lemma PrefixesOfNext(full: Path, k: nat, q: Path)
    requires k < |full|
    ensures q <= full[..k + 1] <==> q <= full[..k] || q == full[..k + 1]
  {
    assert full[..k + 1][..k] == full[..k];
  }

  lemma AlreadyThere(t0: Tree, t: Tree, full: Path, k: nat)
    requires k < |full| && IsDir(t, full[..k + 1])
    requires MadeDirs(t0, t, full[..k])
    ensures MadeDirs(t0, t, full[..k + 1])
  {
    forall q
      ensures q in t <==> q in t0 || q <= full[..k + 1]
      ensures q <= full[..k + 1] ==> q in t && t[q].Directory?
    {
      PrefixesOfNext(full, k, q);
    }
  }

  lemma RootIsMade(t: Tree, full: Path)
    requires WellFormed(t)
    ensures IsDir(t, full[..0]) && MadeDirs(t, t, full[..0])
  {
  }

  /** If there is something other than a directory on the way, nothing has been made yet. */
  lemma BlockedUnchanged(t0: Tree, t: Tree, full: Path, k: nat)
    requires WellFormed(t0) && k < |full| && MadeDirs(t0, t, full[..k])
    requires full[..k + 1] in t && !t[full[..k + 1]].Directory?
    ensures t == t0 && Blocked(t0, full)
  {
    var p := full[..k + 1];
    assert !(p <= full[..k]);
    assert p in t0 && p <= full;
    forall q | q <= full[..k]
      ensures q in t0
    {
      PrefixesOfNext(full, k, q);
      assert q < p;
      PrefixPresent(t0, q, p);
    }
  }

  lemma {:induction false} PrefixPresent(t: Tree, q: Path, p: Path)
    requires WellFormed(t) && p in t && q <= p
    ensures q in t
  {
    if q != p {
      OnlyBelowDirs(t, q, p);
    }
  }

  lemma MadeNotBlocked(t0: Tree, t: Tree, full: Path)
    requires MadeDirs(t0, t, full)
    ensures !Blocked(t0, full)
  {
  }

  method SubPaths(full: Path) returns (subpaths: seq<Path>)
    ensures |subpaths| == |full| + 1
    ensures forall i :: 0 <= i < |subpaths| ==> subpaths[i] == full[..|full| - i]
  {
    subpaths := [full];
    var last := full;
    while DirName(last) != last
      invariant |subpaths| == |full| - |last| + 1 && last <= full
      invariant forall i :: 0 <= i < |subpaths| ==> subpaths[i] == full[..|full| - i]
      decreases |last|
    {
      last := DirName(last);
      subpaths := subpaths + [last];
    }
  }

  /** The directory part of an absolute path; the root is its own. */
  function DirName(p: Path): Path {
    if p == [] then p else Parent(p)
  }

  method CreateDirectoryAndGetError(fs: FileSystem, full: Path) returns (ok: bool, error: Option<FileError>)
    requires WellFormed(fs.tree) && PlainNames(full) && Straight(fs.tree, full)
    modifies fs
    ensures WellFormed(fs.tree)
    ensures ok <==> !Blocked(old(fs.tree), full)
    ensures ok ==> error == None && MadeDirs(old(fs.tree), fs.tree, full)
    ensures !ok ==> error == Some(EXISTS) && fs.tree == old(fs.tree)
  {
    hide WellFormed, MadeDirs, Blocked, PlainNames;
    ghost var t0 := fs.tree;
    var subpaths := SubPaths(full);
    RootIsMade(t0, full);
    var i := |subpaths| - 1;
    while i >= 0
      invariant -1 <= i <= |full| && WellFormed(fs.tree)
      invariant i == |full| ==> fs.tree == t0
      invariant i < |full| ==> MadeDirs(t0, fs.tree, full[..|full| - i - 1])
    {
      ghost var t, k := fs.tree, |full| - i;
      assert subpaths[i] == full[..k];
      if IsDir(fs.tree, subpaths[i]) {
        if k > 0 {
          AlreadyThere(t0, t, full, k - 1);
        }
      } else {
        if subpaths[i] in t {
          BlockedUnchanged(t0, t, full, k - 1);
        } else {
          MadeOneMore(t0, t, full, k - 1);
          PlainPrefix(full, k);
          MkdirWellFormed(t, full[..k]);
        }
        var made := fs.Mkdir(subpaths[i]);
        if !made && !IsDir(fs.tree, subpaths[i]) {
          return false, Some(EXISTS);
        }
      }
      i := i - 1;
    }
    assert full[..|full|] == full;
    MadeNotBlocked(t0, fs.tree, full);
    return true, None;
  }

  lemma PlainPrefix(p: Path, k: nat)
    requires PlainNames(p) && k <= |p|
    ensures PlainNames(p[..k])
  {
  }

  /** Of two paths at or above a third, one is at or above the other. */
  lemma PrefixesCompare(q: Path, r: Path, p: Path)
    requires q <= p && r <= p && !(q <= r) && q != []
    ensures r <= Parent(q)
  {
  }

  /** Deleting the topmost directory that had to be created undoes the creation. */
  lemma CreateThenDelete(t0: Tree, t: Tree, p: Path, q: Path)
    requires WellFormed(t0) && MadeDirs(t0, t, p)
    requires q <= p && q !in t0 && Parent(q) in t0
    ensures Deleted(t, t0, q, true, true)
  {
    forall r
      ensures r in t0 <==> r in Without(t, q)
    {
      if r in t0 && q <= r {
        PrefixPresent(t0, q, r);
        assert false;
      }
      if r <= p && !(q <= r) {
        PrefixesCompare(q, r, p);
        PrefixPresent(t0, r, Parent(q));
      }
    }
    assert t0 == Without(t, q);
  }

  /** What a node weighs. */
  lemma SizesOf(t: Tree, p: Path, n: nat, linkSize: nat)
    ensures SizeAt(t[p := File(n)], p) == n
    ensures SizeAt(t[p := Link(linkSize, ToFile(n))], p) == n
    ensures SizeAt(t[p := Link(linkSize, Nothing)], p) == 0
    ensures SizeAt(t[p := Directory], p) == 0
    ensures SumSizes(t[p := File(n)], {p}) == n
  {
    SumTakes(t[p := File(n)], {p}, p);
  }
}
