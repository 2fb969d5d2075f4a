/** Directory traversal (`base/file_enumerator`): a stack of directories still to list, and
    the batch of entries kept from the directory listed last. */
module FileEnumerators {
  import opened Bytes
  import opened FileTrees

  /** The bits of the file type that matter here, and whether to descend. */
  datatype Mode = Mode(recursive: bool, files: bool, directories: bool, showLinks: bool)

  predicate Wants(m: Mode, node: Node) {
    if node.Directory? then m.directories else m.files
  }

  function NodeAt(m: Mode, t: Tree, p: Path): Node
    requires p in t
  {
    Seen(t[p], m.showLinks)
  }

  predicate Skips(e: Entry) {
    e.name == SELF || e.name == UP
  }

  /** Listing `q`, and all that listing `q` leads to, comes past `p`. */
  predicate Reaches(m: Mode, q: Path, p: Path) {
    q < p && (m.recursive || |p| == |q| + 1)
  }

  ghost predicate Awaits(m: Mode, pending: seq<Path>, p: Path) {
    exists q :: q in pending && Reaches(m, q, p)
  }

  /** The nodes the traversal will return once the directories in `pending` are listed. */
  ghost function Below(m: Mode, t: Tree, pending: seq<Path>): set<Path> {
    set p | p in t && Wants(m, NodeAt(m, t, p)) && Awaits(m, pending, p)
  }

  function Full(root: Path, e: Entry): Path {
    root + [e.name]
  }

  /** The entries of the batch from index `from` on. */
  ghost function Batch(root: Path, entries: seq<Entry>, from: nat): set<Path> {
    set i | from <= i < |entries| :: Full(root, entries[i])
  }

  ghost predicate Distinct(entries: seq<Entry>) {
    forall i, j :: 0 <= i < j < |entries| ==> entries[i].name != entries[j].name
  }

  ghost predicate Antichain(pending: seq<Path>) {
    forall i, j :: 0 <= i < |pending| && 0 <= j < |pending| && i != j ==> !(pending[i] <= pending[j])
  }

  /** The batch describes wanted nodes as they are. */
  ghost predicate Accurate(m: Mode, t: Tree, root: Path, entries: seq<Entry>, from: nat) {
    forall i :: from <= i < |entries| ==>
      var p := Full(root, entries[i]);
      p in t && Wants(m, NodeAt(m, t, p)) && entries[i].node == NodeAt(m, t, p)
  }

  /** No directory still to list lies above an entry of the batch. */
  ghost predicate BatchFirst(pending: seq<Path>, root: Path, entries: seq<Entry>, from: nat) {
    forall i, q :: from <= i < |entries| && q in pending ==> !(q < Full(root, entries[i]))
  }

  /** The traversal keeps to the tree: links to directories, into which it would otherwise
      descend, are shown as links, or there are none. */
  ghost predicate LinksShown(m: Mode, t: Tree, pending: seq<Path>) {
    && (forall q :: q in pending ==> Straight(t, q))
    && (m.showLinks || !m.recursive || forall p :: p in t && Awaits(m, pending, p) ==> !IsDirLink(t[p]))
  }

  ghost predicate Sound(m: Mode, t: Tree, pending: seq<Path>, root: Path, entries: seq<Entry>, from: nat) {
    && Antichain(pending)
    && Distinct(entries)
    && Accurate(m, t, root, entries, from)
    && BatchFirst(pending, root, entries, from)
    && LinksShown(m, t, pending)
  }

  /** What is left to return. */
  ghost function Remaining(m: Mode, t: Tree, pending: seq<Path>, root: Path, entries: seq<Entry>, from: nat): set<Path> {
    Batch(root, entries, from) + Below(m, t, pending)
  }

  // What one listed directory adds to the batch and to the stack.

  function Kept(m: Mode, entries: seq<Entry>): seq<Entry> {
    if entries == [] then []
    else
      var e := entries[|entries| - 1];
      Kept(m, entries[..|entries| - 1]) + if !Skips(e) && Wants(m, e.node) then [e] else []
  }

  function Pushed(m: Mode, d: Path, entries: seq<Entry>): seq<Path> {
    if entries == [] then []
    else
      var e := entries[|entries| - 1];
      Pushed(m, d, entries[..|entries| - 1]) + if !Skips(e) && m.recursive && e.node.Directory? then [Full(d, e)] else []
  }

  lemma {:induction false} KeptAre(m: Mode, entries: seq<Entry>, e: Entry)
    ensures e in Kept(m, entries) <==> e in entries && !Skips(e) && Wants(m, e.node)
  {
    if entries != [] {
      KeptAre(m, entries[..|entries| - 1], e);
      assert entries == entries[..|entries| - 1] + [entries[|entries| - 1]];
    }
  }

  lemma {:induction false} KeptDistinct(m: Mode, entries: seq<Entry>)
    requires Distinct(entries)
    ensures Distinct(Kept(m, entries))
  {
    if entries != [] {
      var front := entries[..|entries| - 1];
      KeptDistinct(m, front);
      forall i | 0 <= i < |Kept(m, front)|
        ensures Kept(m, front)[i].name != entries[|entries| - 1].name
      {
        KeptAre(m, front, Kept(m, front)[i]);
      }
    }
  }

  lemma {:induction false} PushedAre(m: Mode, d: Path, entries: seq<Entry>, q: Path)
    ensures q in Pushed(m, d, entries) <==>
            m.recursive && exists e :: e in entries && !Skips(e) && e.node.Directory? && q == Full(d, e)
  {
    if entries != [] {
      PushedAre(m, d, entries[..|entries| - 1], q);
      assert entries == entries[..|entries| - 1] + [entries[|entries| - 1]];
    }
  }

  lemma PushedLevel(m: Mode, d: Path, entries: seq<Entry>, q: Path)
    requires q in Pushed(m, d, entries)
    ensures |q| == |d| + 1 && d < q
  {
    PushedAre(m, d, entries, q);
  }

  lemma NotPushed(m: Mode, d: Path, entries: seq<Entry>, e: Entry)
    requires forall i :: 0 <= i < |entries| ==> entries[i].name != e.name
    ensures Full(d, e) !in Pushed(m, d, entries)
  {
    PushedAre(m, d, entries, Full(d, e));
    assert Full(d, e)[|d|] == e.name;
    forall e' | e' in entries
      ensures Full(d, e') != Full(d, e)
    {
      assert Full(d, e')[|d|] == e'.name;
    }
  }

  ghost predicate NoTwice(s: seq<Path>) {
    forall i, j :: 0 <= i < j < |s| ==> s[i] != s[j]
  }

  lemma {:induction false} PushedOnce(m: Mode, d: Path, entries: seq<Entry>)
    requires Distinct(entries)
    ensures NoTwice(Pushed(m, d, entries))
  {
    hide Full;
    if entries != [] {
      PushedOnce(m, d, entries[..|entries| - 1]);
      NotPushed(m, d, entries[..|entries| - 1], entries[|entries| - 1]);
    }
  }

  /** Among distinct paths of one length, none is a prefix of another. */
  lemma OneLevel(s: seq<Path>, n: nat)
    requires forall q :: q in s ==> |q| == n
    requires NoTwice(s)
    ensures Antichain(s)
  {
    forall i, j | 0 <= i < |s| && 0 <= j < |s| && i != j
      ensures !(s[i] <= s[j])
    {
      assert s[i] in s && s[j] in s && s[i] != s[j];
    }
  }

  lemma PushedAntichain(m: Mode, d: Path, entries: seq<Entry>)
    requires Distinct(entries)
    ensures Antichain(Pushed(m, d, entries))
  {
    hide Pushed, NoTwice, Antichain, Distinct;
    forall q | q in Pushed(m, d, entries)
      ensures |q| == |d| + 1
    {
      PushedLevel(m, d, entries, q);
    }
    PushedOnce(m, d, entries);
    OneLevel(Pushed(m, d, entries), |d| + 1);
  }

  /** Replacing the path on top by paths right below it. */
  lemma AntichainGrows(rest: seq<Path>, d: Path, more: seq<Path>)
    requires Antichain(rest + [d]) && Antichain(more)
    requires forall q :: q in more ==> d <= q && |q| == |d| + 1
    ensures Antichain(rest + more)
  {
    var all := rest + [d];
    forall i | 0 <= i < |rest|
      ensures !(rest[i] <= d) && !(d <= rest[i])
    {
      assert all[i] == rest[i] && all[|rest|] == d;
    }
    forall i, j | 0 <= i < |rest| && 0 <= j < |rest| && i != j
      ensures !(rest[i] <= rest[j])
    {
      assert all[i] == rest[i] && all[j] == rest[j];
    }
    forall i, k | 0 <= i < |rest| && 0 <= k < |more|
      ensures !(rest[i] <= more[k]) && !(more[k] <= rest[i])
    {
      assert more[k] in more;
      NotBelowNeighbour(rest[i], d, more[k]);
    }
  }

  lemma NotBelowNeighbour(q: Path, d: Path, c: Path)
    requires !(q <= d) && !(d <= q) && d <= c && |c| == |d| + 1
    ensures !(q <= c) && !(c <= q)
  {
    assert c[..|d|] == d;
  }

  // Listing a directory exchanges it for the batch and the directories pushed.

  lemma ListedNode(m: Mode, t: Tree, d: Path, entries: seq<Entry>, e: Entry)
    requires WellFormed(t) && Lists(entries, t, d, m.showLinks)
    requires e in entries && !Skips(e)
    ensures Full(d, e) in t && NodeAt(m, t, Full(d, e)) == e.node
  {
    assert e.name in Children(t, d) + {SELF, UP};
    ChildrenAre(t, d, e.name);
  }

  function EntryFor(m: Mode, t: Tree, d: Path, p: Path): Entry
    requires p in t && |p| > |d|
  {
    Entry(p[|d|], NodeAt(m, t, p))
  }

  lemma NodeListed(m: Mode, t: Tree, d: Path, entries: seq<Entry>, p: Path)
    requires WellFormed(t) && Lists(entries, t, d, m.showLinks)
    requires p in t && d < p && |p| == |d| + 1
    ensures EntryFor(m, t, d, p) in entries && !Skips(EntryFor(m, t, d, p)) && Full(d, EntryFor(m, t, d, p)) == p
  {
    hide Lists;
    var n := p[|d|];
    assert n != SELF && n != UP by {
      assert p != [] && p[|p| - 1] == n;
    }
    hide WellFormed;
    assert p == d + [n];
    ListsChild(m, t, d, entries, n);
  }

  lemma ListsChild(m: Mode, t: Tree, d: Path, entries: seq<Entry>, n: Name)
    requires Lists(entries, t, d, m.showLinks) && d + [n] in t && n != SELF && n != UP
    ensures Entry(n, NodeAt(m, t, d + [n])) in entries
  {
    hide Children;
    ChildrenAre(t, d, n);
    assert n in Children(t, d) + {SELF, UP};
    var e :| e in entries && e.name == n;
  }

  lemma InBatch(root: Path, entries: seq<Entry>, p: Path)
    ensures p in Batch(root, entries, 0) <==> exists e :: e in entries && p == Full(root, e)
  {
    if e :| e in entries && p == Full(root, e) {
      var i :| 0 <= i < |entries| && entries[i] == e;
      assert p == Full(root, entries[i]);
    }
  }

  /** A wanted node below the listed directory is in the batch or below a pushed directory. */
  lemma ListedReaches(m: Mode, t: Tree, d: Path, entries: seq<Entry>, p: Path)
    requires WellFormed(t) && Lists(entries, t, d, m.showLinks)
    requires p in t && Wants(m, NodeAt(m, t, p)) && Reaches(m, d, p)
    ensures p in Batch(d, Kept(m, entries), 0) || Awaits(m, Pushed(m, d, entries), p)
  {
    hide Lists, WellFormed, Kept, Pushed, Batch;
    if |p| == |d| + 1 {
      NodeListed(m, t, d, entries, p);
      KeptAre(m, entries, EntryFor(m, t, d, p));
      InBatch(d, Kept(m, entries), p);
    } else {
      var c := p[..|d| + 1];
      OnlyBelowDirs(t, c, p);
      NodeListed(m, t, d, entries, c);
      PushedAre(m, d, entries, c);
      assert c in Pushed(m, d, entries) && Reaches(m, c, p);
    }
  }

  lemma BatchWithin(m: Mode, t: Tree, d: Path, entries: seq<Entry>, p: Path)
    requires WellFormed(t) && Lists(entries, t, d, m.showLinks)
    requires p in Batch(d, Kept(m, entries), 0)
    ensures p in t && Wants(m, NodeAt(m, t, p)) && Reaches(m, d, p)
  {
    hide Lists, WellFormed, Kept, Pushed, Batch;
    InBatch(d, Kept(m, entries), p);
    var e :| e in Kept(m, entries) && p == Full(d, e);
    KeptAre(m, entries, e);
    ListedNode(m, t, d, entries, e);
  }

  lemma PushedWithin(m: Mode, d: Path, entries: seq<Entry>, p: Path)
    requires Awaits(m, Pushed(m, d, entries), p)
    ensures Reaches(m, d, p)
  {
    var q :| q in Pushed(m, d, entries) && Reaches(m, q, p);
    PushedAre(m, d, entries, q);
    PushedLevel(m, d, entries, q);
    assert d == q[..|d|] == p[..|d|];
  }

  lemma AwaitsSplit(m: Mode, a: seq<Path>, b: seq<Path>, p: Path)
    ensures Awaits(m, a + b, p) <==> Awaits(m, a, p) || Awaits(m, b, p)
  {
    if q :| q in a + b && Reaches(m, q, p) {
      assert q in a || q in b;
    }
    if q :| q in a && Reaches(m, q, p) {
      assert q in a + b;
    }
    if q :| q in b && Reaches(m, q, p) {
      assert q in a + b;
    }
  }

  lemma AwaitsOne(m: Mode, d: Path, p: Path)
    ensures Awaits(m, [d], p) <==> Reaches(m, d, p)
  {
    assert d in [d];
  }

  lemma ListedNodeStays(m: Mode, t: Tree, rest: seq<Path>, d: Path, entries: seq<Entry>, p: Path)
    requires WellFormed(t) && Lists(entries, t, d, m.showLinks)
    ensures p in Remaining(m, t, rest + Pushed(m, d, entries), d, Kept(m, entries), 0) <==> p in Below(m, t, rest + [d])
  {
    hide Lists, WellFormed, Kept, Pushed, Batch, Awaits, Reaches;
    AwaitsSplit(m, rest, [d], p);
    AwaitsSplit(m, rest, Pushed(m, d, entries), p);
    AwaitsOne(m, d, p);
    if p in Batch(d, Kept(m, entries), 0) {
      BatchWithin(m, t, d, entries, p);
    }
    if Awaits(m, Pushed(m, d, entries), p) {
      PushedWithin(m, d, entries, p);
    }
    if p in t && Wants(m, NodeAt(m, t, p)) && Reaches(m, d, p) {
      ListedReaches(m, t, d, entries, p);
    }
  }

  /** Listing a directory changes nothing about what is left to return. */
  lemma ListedRemaining(m: Mode, t: Tree, rest: seq<Path>, d: Path, entries: seq<Entry>)
    requires WellFormed(t) && Lists(entries, t, d, m.showLinks)
    ensures Remaining(m, t, rest + Pushed(m, d, entries), d, Kept(m, entries), 0) == Below(m, t, rest + [d])
  {
    hide Lists, WellFormed, Kept, Pushed, Batch, Below, Remaining;
    forall p
      ensures p in Remaining(m, t, rest + Pushed(m, d, entries), d, Kept(m, entries), 0) <==> p in Below(m, t, rest + [d])
    {
      ListedNodeStays(m, t, rest, d, entries, p);
    }
  }

  /** Nothing lies below what cannot be listed. */
  lemma UnlistedRemaining(m: Mode, t: Tree, rest: seq<Path>, d: Path)
    requires WellFormed(t) && !IsDir(t, d)
    ensures Below(m, t, rest) == Below(m, t, rest + [d])
  {
    forall p
      ensures p in Below(m, t, rest) <==> p in Below(m, t, rest + [d])
    {
      hide WellFormed, Awaits, Reaches;
      AwaitsSplit(m, rest, [d], p);
      AwaitsOne(m, d, p);
      if p in t && Reaches(m, d, p) {
        assert d < p by { NotReachedUnlessDir(m, d, p); }
        OnlyBelowDirs(t, d, p);
      }
    }
  }

  lemma NotReachedUnlessDir(m: Mode, d: Path, p: Path)
    requires Reaches(m, d, p)
    ensures d < p
  {
  }

  // Listing a directory keeps the enumerator sound.

  lemma ListedAccurate(m: Mode, t: Tree, d: Path, entries: seq<Entry>)
    requires WellFormed(t) && Lists(entries, t, d, m.showLinks)
    ensures Accurate(m, t, d, Kept(m, entries), 0)
  {
    hide Lists, WellFormed, Kept;
    forall i | 0 <= i < |Kept(m, entries)|
      ensures var e := Kept(m, entries)[i];
              Full(d, e) in t && NodeAt(m, t, Full(d, e)) == e.node && Wants(m, e.node)
    {
      var e := Kept(m, entries)[i];
      KeptAre(m, entries, e);
      ListedNode(m, t, d, entries, e);
    }
  }

  lemma NotAboveListed(rest: seq<Path>, d: Path, q: Path, c: Path)
    requires Antichain(rest + [d]) && q in rest && d < c && |c| == |d| + 1
    ensures !(q < c)
  {
    var i :| 0 <= i < |rest| && rest[i] == q;
    assert (rest + [d])[i] == q && (rest + [d])[|rest|] == d;
    assert !(q <= d) && !(d <= q);
    NotBelowNeighbour(q, d, c);
  }

  lemma ListedBatchFirst(m: Mode, rest: seq<Path>, d: Path, entries: seq<Entry>)
    requires Antichain(rest + [d])
    ensures BatchFirst(rest + Pushed(m, d, entries), d, Kept(m, entries), 0)
  {
    hide Kept, Pushed, Antichain;
    forall i, q | 0 <= i < |Kept(m, entries)| && q in rest + Pushed(m, d, entries)
      ensures !(q < Full(d, Kept(m, entries)[i]))
    {
      if q in rest {
        NotAboveListed(rest, d, q, Full(d, Kept(m, entries)[i]));
      } else {
        PushedLevel(m, d, entries, q);
      }
    }
  }

  lemma ListedLinksShown(m: Mode, t: Tree, rest: seq<Path>, d: Path, entries: seq<Entry>)
    requires WellFormed(t) && Lists(entries, t, d, m.showLinks)
    requires LinksShown(m, t, rest + [d])
    ensures LinksShown(m, t, rest + Pushed(m, d, entries))
  {
    hide Pushed, Awaits, Reaches, Straight, WellFormed, Lists;
    forall p | p in t && Awaits(m, rest + Pushed(m, d, entries), p)
      ensures Awaits(m, rest + [d], p)
    {
      AwaitsSplit(m, rest, [d], p);
      AwaitsSplit(m, rest, Pushed(m, d, entries), p);
      AwaitsOne(m, d, p);
      if Awaits(m, Pushed(m, d, entries), p) {
        PushedWithin(m, d, entries, p);
      }
    }
    forall q | q in rest + Pushed(m, d, entries)
      ensures Straight(t, q)
    {
      if q in rest {
        assert q in rest + [d];
      } else {
        PushedIsDir(m, t, rest, d, entries, q);
        DirsAreStraight(t, q);
      }
    }
  }

  lemma PushedIsDir(m: Mode, t: Tree, rest: seq<Path>, d: Path, entries: seq<Entry>, q: Path)
    requires WellFormed(t) && Lists(entries, t, d, m.showLinks)
    requires LinksShown(m, t, rest + [d]) && q in Pushed(m, d, entries)
    ensures IsDir(t, q)
  {
    hide Pushed, WellFormed, Lists, Straight;
    PushedAre(m, d, entries, q);
    var e :| e in entries && !Skips(e) && e.node.Directory? && q == Full(d, e);
    ListedNode(m, t, d, entries, e);
    assert d in rest + [d] && Reaches(m, d, q);
    assert Awaits(m, rest + [d], q);
  }

  lemma ListedSound(m: Mode, t: Tree, rest: seq<Path>, d: Path, entries: seq<Entry>)
    requires WellFormed(t) && Lists(entries, t, d, m.showLinks)
    requires Antichain(rest + [d]) && LinksShown(m, t, rest + [d])
    ensures Sound(m, t, rest + Pushed(m, d, entries), d, Kept(m, entries), 0)
  {
    assert Distinct(entries);
    hide Lists, WellFormed, Kept, Pushed, Antichain, Distinct, LinksShown, Accurate, BatchFirst;
    forall q | q in Pushed(m, d, entries)
      ensures d <= q && |q| == |d| + 1
    {
      PushedLevel(m, d, entries, q);
    }
    PushedAntichain(m, d, entries);
    AntichainGrows(rest, d, Pushed(m, d, entries));
    KeptDistinct(m, entries);
    ListedAccurate(m, t, d, entries);
    ListedBatchFirst(m, rest, d, entries);
    ListedLinksShown(m, t, rest, d, entries);
  }

  lemma PoppedSound(m: Mode, t: Tree, rest: seq<Path>, d: Path)
    requires Antichain(rest + [d]) && LinksShown(m, t, rest + [d])
    ensures Antichain(rest) && LinksShown(m, t, rest)
  {
    forall i, j | 0 <= i < |rest| && 0 <= j < |rest| && i != j
      ensures !(rest[i] <= rest[j])
    {
      assert (rest + [d])[i] == rest[i] && (rest + [d])[j] == rest[j];
    }
    assert forall q :: q in rest ==> q in rest + [d];
    forall p | p in t && Awaits(m, rest, p)
      ensures Awaits(m, rest + [d], p)
    {
      AwaitsSplit(m, rest, [d], p);
    }
  }

  // Each directory listed leaves fewer nodes at or below the stack.

  ghost predicate Shadowed(pending: seq<Path>, p: Path) {
    exists q :: q in pending && q <= p
  }

  ghost function Shadow(t: Tree, pending: seq<Path>): set<Path> {
    set p | p in t && Shadowed(pending, p)
  }

  lemma PoppedShadow(t: Tree, rest: seq<Path>, d: Path)
    ensures Shadow(t, rest) <= Shadow(t, rest + [d])
  {
    forall p | Shadowed(rest, p)
      ensures Shadowed(rest + [d], p)
    {
      var q :| q in rest && q <= p;
      assert q in rest + [d];
    }
  }

  lemma ListedShadow(m: Mode, t: Tree, rest: seq<Path>, d: Path, entries: seq<Entry>)
    requires d in t && Antichain(rest + [d])
    ensures Shadow(t, rest + Pushed(m, d, entries)) < Shadow(t, rest + [d])
  {
    hide Pushed;
    var now, before := rest + Pushed(m, d, entries), rest + [d];
    forall p | Shadowed(now, p)
      ensures Shadowed(before, p)
    {
      var q :| q in now && q <= p;
      if q in rest {
        assert q in before;
      } else {
        PushedLevel(m, d, entries, q);
        assert d in before && d <= p;
      }
    }
    assert d in before;
    forall q | q in now
      ensures !(q <= d)
    {
      if q in rest {
        var i :| 0 <= i < |rest| && rest[i] == q;
        assert before[i] == q && before[|rest|] == d;
      } else {
        PushedLevel(m, d, entries, q);
      }
    }
    assert d in Shadow(t, before) && d !in Shadow(t, now);
  }

  // Returning an entry of the batch.

  lemma TakenSound(m: Mode, t: Tree, pending: seq<Path>, root: Path, entries: seq<Entry>, from: nat)
    requires Sound(m, t, pending, root, entries, from) && from < |entries|
    ensures Sound(m, t, pending, root, entries, from + 1)
  {
    hide Antichain, LinksShown;
  }

  lemma BatchTail(root: Path, entries: seq<Entry>, from: nat)
    requires Distinct(entries) && from < |entries|
    ensures Full(root, entries[from]) in Batch(root, entries, from)
    ensures Batch(root, entries, from + 1) == Batch(root, entries, from) - {Full(root, entries[from])}
  {
    var p := Full(root, entries[from]);
    forall i | from + 1 <= i < |entries|
      ensures Full(root, entries[i]) != p
    {
      assert Full(root, entries[i])[|root|] == entries[i].name;
      assert p[|root|] == entries[from].name;
    }
  }

  lemma TakenRemaining(m: Mode, t: Tree, pending: seq<Path>, root: Path, entries: seq<Entry>, from: nat)
    requires Sound(m, t, pending, root, entries, from) && from < |entries|
    ensures Full(root, entries[from]) in Remaining(m, t, pending, root, entries, from)
    ensures Remaining(m, t, pending, root, entries, from + 1) ==
            Remaining(m, t, pending, root, entries, from) - {Full(root, entries[from])}
  {
    hide Antichain, LinksShown, Accurate, Distinct, Batch;
    BatchTail(root, entries, from);
    assert !Awaits(m, pending, Full(root, entries[from]));
  }

  /** Directories come before their contents. */
  lemma DirectoriesFirst(m: Mode, t: Tree, pending: seq<Path>, root: Path, entries: seq<Entry>, from: nat, a: Path)
    requires Sound(m, t, pending, root, entries, from) && from < |entries|
    requires a < Full(root, entries[from])
    ensures a !in Remaining(m, t, pending, root, entries, from)
  {
    hide Antichain, LinksShown, Accurate, Distinct;
    assert !Awaits(m, pending, a);
  }

  /** Unlinking a node already returned disturbs nothing. */
  lemma UnlinkKeeps(m: Mode, t: Tree, pending: seq<Path>, root: Path, entries: seq<Entry>, from: nat, p: Path)
    requires Sound(m, t, pending, root, entries, from)
    requires p !in Remaining(m, t, pending, root, entries, from)
    ensures Sound(m, t - {p}, pending, root, entries, from)
    ensures Remaining(m, t - {p}, pending, root, entries, from) == Remaining(m, t, pending, root, entries, from)
  {
    hide Antichain, Awaits, Distinct, BatchFirst;
    forall i | from <= i < |entries|
      ensures Full(root, entries[i]) != p
    {
      assert Full(root, entries[i]) in Batch(root, entries, from);
    }
  }

  ghost predicate ParentsFirst(paths: seq<Path>) {
    forall i, j :: 0 <= i < j < |paths| ==> !(paths[j] < paths[i])
  }

  /** One more node, above which none is still to come. */
  lemma TakeNext(paths: seq<Path>, left: set<Path>, p: Path)
    requires NoTwice(paths) && ParentsFirst(paths) && p in left
    requires forall q :: q in paths ==> q !in left
    requires forall i, q :: 0 <= i < |paths| && q in left ==> !(q < paths[i])
    ensures NoTwice(paths + [p]) && ParentsFirst(paths + [p])
  {
    forall i | 0 <= i < |paths|
      ensures paths[i] != p
    {
      assert paths[i] in paths;
    }
  }

  class FileEnumerator {
    const mode: Mode
    var entries: seq<Entry>
    var current: nat
    var root: Path
    var pending: seq<Path>

    ghost predicate Valid(t: Tree)
      reads this
    {
      Sound(mode, t, pending, root, entries, current + 1)
    }

    /** The nodes not yet returned. */
    ghost function Todo(t: Tree): set<Path>
      reads this
    {
      Remaining(mode, t, pending, root, entries, current + 1)
    }

    constructor (path: Path, m: Mode)
      ensures mode == m
      ensures forall t :: LinksShown(m, t, [path]) ==> Valid(t)
      ensures forall t :: Todo(t) == Below(m, t, [path])
    {
      mode, entries, current, root, pending := m, [], 0, path, [path];
    }

    method Next(fs: FileSystem) returns (next: Option<Path>)
      requires WellFormed(fs.tree) && Valid(fs.tree)
      modifies this
      ensures Valid(fs.tree)
      ensures next.None? ==> old(Todo(fs.tree)) == {} && Todo(fs.tree) == {}
      ensures next.Some? ==> next.value in old(Todo(fs.tree)) && Todo(fs.tree) == old(Todo(fs.tree)) - {next.value}
      ensures next.Some? ==> forall a :: a < next.value ==> a !in Todo(fs.tree)
      ensures next.Some? ==> next.value in fs.tree && Wants(mode, NodeAt(mode, fs.tree, next.value))
      ensures next.Some? ==> current < |entries| && entries[current].node == NodeAt(mode, fs.tree, next.value)
    {
      ghost var t := fs.tree;
      current := current + 1;
      while current >= |entries|
        invariant fs.tree == t
        invariant Sound(mode, t, pending, root, entries, current)
        invariant Remaining(mode, t, pending, root, entries, current) == old(Todo(t))
        decreases Shadow(t, pending), |pending|
      {
        if pending == [] {
          return None;
        }
        ListTop(fs);
      }
      TakenSound(mode, t, pending, root, entries, current);
      TakenRemaining(mode, t, pending, root, entries, current);
      next := Some(Full(root, entries[current]));
      forall a | a < next.value
        ensures a !in Remaining(mode, t, pending, root, entries, current)
      {
        DirectoriesFirst(mode, t, pending, root, entries, current, a);
      }
    }

    /** The node returned last, as it was when its directory was listed. */
    function GetInfo(): Entry
      requires current < |entries|
      reads this
    {
      entries[current]
    }

    /** Lists the directory on top of the stack. */
    method ListTop(fs: FileSystem)
      requires WellFormed(fs.tree) && pending != []
      requires Sound(mode, fs.tree, pending, root, entries, current) && |entries| <= current
      modifies this
      ensures Sound(mode, fs.tree, pending, root, entries, current)
      ensures Remaining(mode, fs.tree, pending, root, entries, current) ==
              old(Remaining(mode, fs.tree, pending, root, entries, current))
      ensures old(Shadow(fs.tree, pending)) > Shadow(fs.tree, pending)
              || (old(Shadow(fs.tree, pending)) == Shadow(fs.tree, pending) && old(|pending|) > |pending|)
    {
      ghost var t := fs.tree;
      ghost var rest := pending[..|pending| - 1];
      root := pending[|pending| - 1];
      assert pending == rest + [root];
      pending := pending[..|pending| - 1];
      assert root in rest + [root];
      PoppedSound(mode, t, rest, root);
      PoppedShadow(t, rest, root);
      var ok, found := fs.ReadDirectory(root, mode.showLinks);
      if !ok {
        UnlistedRemaining(mode, t, rest, root);
        return;
      }
      Sift(found);
      ListedSound(mode, t, rest, root, found);
      ListedRemaining(mode, t, rest, root, found);
      ListedShadow(mode, t, rest, root, found);
    }

    method Sift(found: seq<Entry>)
      modifies this
      ensures entries == Kept(mode, found)
      ensures pending == old(pending) + Pushed(mode, root, found)
      ensures current == 0 && root == old(root)
    {
      entries, current := [], 0;
      var i := 0;
      while i < |found|
        invariant 0 <= i <= |found|
        invariant entries == Kept(mode, found[..i])
        invariant pending == old(pending) + Pushed(mode, root, found[..i])
        invariant current == 0 && root == old(root)
      {
        var e := found[i];
        assert found[..i + 1][..i] == found[..i];
        i := i + 1;
        if Skips(e) {
          continue;
        }
        if mode.recursive && e.node.Directory? {
          pending := pending + [Full(root, e)];
        }
        if (e.node.Directory? && mode.directories) || (!e.node.Directory? && mode.files) {
          entries := entries + [e];
        }
      }
      assert found[..i] == found;
    }
  }

  /** Main result: drained as its callers drain it, an enumerator returns every wanted node
      below the path exactly once, and every directory before what lies in it. */
  method Enumerate(fs: FileSystem, path: Path, m: Mode) returns (paths: seq<Path>)
    requires WellFormed(fs.tree) && LinksShown(m, fs.tree, [path])
    ensures NoTwice(paths) && ParentsFirst(paths)
    ensures forall p :: p in paths <==> p in Below(m, fs.tree, [path])
  {
    hide WellFormed, LinksShown, Sound, Remaining, Below, NoTwice, ParentsFirst;
    ghost var t := fs.tree;
    paths := [];
    NothingYet();
    var files := new FileEnumerator(path, m);
    ghost var all := Below(m, t, [path]);
    ghost var left := all;
    var next := files.Next(fs);
    while next.Some?
      invariant fs.tree == t && files.mode == m && files.Valid(t)
      invariant NoTwice(paths) && ParentsFirst(paths)
      invariant left <= all && forall p :: p in paths <==> p in all - left
      invariant forall i, q :: 0 <= i < |paths| && q in left ==> !(q < paths[i])
      invariant next.Some? ==> next.value in left && files.Todo(t) == left - {next.value}
      invariant next.Some? ==> forall a :: a < next.value ==> a !in left - {next.value}
      invariant next.None? ==> left == {}
      decreases left
    {
      TakeNext(paths, left, next.value);
      paths := paths + [next.value];
      left := left - {next.value};
      next := files.Next(fs);
    }
  }

  lemma NothingYet()
    ensures NoTwice([]) && ParentsFirst([])
  {
  }

  // What the bits of the file type select.

  /** Directories alone, at any depth. */
  lemma DirectoriesBelow(t: Tree, d: Path, showLinks: bool)
    ensures Below(Mode(true, false, true, showLinks), t, [d]) ==
            set p | p in t && d < p && Seen(t[p], showLinks).Directory?
  {
    BelowOne(Mode(true, false, true, showLinks), t, d);
  }

  /** Files alone, and whatever is not a directory. */
  lemma FilesBelowOnly(t: Tree, d: Path, showLinks: bool)
    ensures Below(Mode(true, true, false, showLinks), t, [d]) ==
            set p | p in t && d < p && !Seen(t[p], showLinks).Directory?
  {
    BelowOne(Mode(true, true, false, showLinks), t, d);
  }

  /** Without descending, the entries of one directory. */
  lemma EntriesOf(t: Tree, d: Path, showLinks: bool)
    ensures Below(Mode(false, true, true, showLinks), t, [d]) ==
            set p | p in t && d < p && |p| == |d| + 1
  {
    BelowOne(Mode(false, true, true, showLinks), t, d);
  }

  lemma NeitherKind(t: Tree, d: Path, recursive: bool, showLinks: bool)
    ensures Below(Mode(recursive, false, false, showLinks), t, [d]) == {}
  {
  }

  lemma BelowOne(m: Mode, t: Tree, d: Path)
    ensures forall p :: p in Below(m, t, [d]) <==> p in t && Wants(m, NodeAt(m, t, p)) && Reaches(m, d, p)
  {
    forall p
      ensures Awaits(m, [d], p) <==> Reaches(m, d, p)
    {
      AwaitsOne(m, d, p);
    }
  }
}
