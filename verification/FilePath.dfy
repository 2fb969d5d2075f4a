/** The `FilePath` class of `base/file_path`: strings edited in place, with the position
    arithmetic of the source, proved to compute the path algebra. */
module FilePaths {
  import opened Bytes
  import opened PathAlgebra
  import opened PathLaws

  const NPOS: nat := TWO_64 - 1
  const NUL := '\0'

  /** `size_t` addition, which the drive-letter arithmetic relies on to wrap. */
  function Plus(a: nat, b: nat): nat {
    (a + b) % TWO_64
  }

  lemma PlusNpos()
    ensures Plus(NPOS, 1) == 0 && Plus(NPOS, 2) == 1 && Plus(NPOS, 3) == 2
  {
  }

  /** No path has a drive letter on POSIX systems, so the branches that keep one are left out. */
  function FindDriveLetter(path: string): nat {
    NPOS
  }

  /** `find_last_of` and `rfind` over a whole string. */
  function FindLast(s: string, c: char): (pos: nat)
    requires |s| < NPOS
  {
    if LastOf(s, c) < 0 then NPOS else LastOf(s, c)
  }

  function BeforeNul(s: string): (r: string)
    ensures r <= s && NUL !in r
    ensures NUL !in s ==> r == s
    ensures |r| < |s| ==> s[|r|] == NUL
  {
    if s == "" then ""
    else if s[0] == NUL then ""
    else [s[0]] + BeforeNul(s[1..])
  }

  class FilePath {
    var path: string

    ghost predicate Valid()
      reads this
    {
      NUL !in path && |path| < NPOS
    }

    constructor (s: string)
      requires |s| < NPOS
      ensures Valid() && path == BeforeNul(s)
    {
      path := BeforeNul(s);
    }

    /** Strips separators from the end, but not the first character, and not the second of
        a path that is "//". */
    method StripTrailingSeparatorsInternal()
      requires Valid()
      modifies this
      ensures Valid() && path == Strip(old(path))
    {
      ghost var original := path;
      var start := Plus(FindDriveLetter(path), 2);
      var lastStripped := NPOS;
      var pos := |path|;
      while pos > start && IsSep(path[pos - 1])
        invariant start == 1 && 0 <= pos <= |original|
        invariant if original == "//" then path == original else path == original[..pos]
        invariant TrimEnd(original) == TrimEnd(original[..pos])
        invariant path == original ==> lastStripped == NPOS
        invariant pos < |original| && path != original ==> lastStripped == pos + 1
      {
        if pos != start + 1 || lastStripped == start + 2 || !IsSep(path[start - 1]) {
          path := path[..pos - 1];
          lastStripped := pos;
          assert original[..pos][..pos - 1] == original[..pos - 1];
        }
        pos := pos - 1;
      }
    }

    method DirName() returns (d: FilePath)
      requires Valid()
      ensures fresh(d) && d.Valid() && d.path == Dir(path)
    {
      PlusNpos();
      hide Strip, LastOf, Plus;
      d := new FilePath(path);
      d.StripTrailingSeparatorsInternal();
      var letter := FindDriveLetter(d.path);
      var lastSeparator := FindLast(d.path, SEPARATOR);
      if lastSeparator == NPOS {
        d.path := d.path[..Plus(letter, 1)];
      } else if lastSeparator == Plus(letter, 1) {
        d.path := d.path[..Plus(letter, 2)];
      } else if lastSeparator == Plus(letter, 2) && IsSep(d.path[Plus(letter, 1)]) {
        d.path := d.path[..Plus(letter, 3)];
      } else if lastSeparator != 0 {
        d.path := d.path[..lastSeparator];
      }
      d.StripTrailingSeparatorsInternal();
      if d.path == "" {
        d.path := CURRENT;
      }
    }

    method BaseName() returns (b: FilePath)
      requires Valid()
      ensures fresh(b) && b.Valid() && b.path == Base(path)
    {
      hide Strip, LastOf, BeforeNul;
      b := new FilePath(path);
      b.StripTrailingSeparatorsInternal();
      var lastSeparator := FindLast(b.path, SEPARATOR);
      if lastSeparator != NPOS && lastSeparator < |b.path| - 1 {
        b.path := b.path[lastSeparator + 1..];
      }
    }

    /** Walks up to where the parent no longer changes, collecting base names. */
    method GetComponents() returns (c: seq<string>)
      requires Valid()
      ensures c == Components(path)
    {
      hide Strip, Dir, Base, Height, BeforeNul;
      if path == "" {
        return [];
      }
      var retVal := [];
      var current: FilePath := new FilePath(path);
      var parent := current.DirName();
      while current.path != parent.path
        invariant current.Valid() && parent.Valid() && current.path != "" && parent.path == Dir(current.path)
        invariant Walk(path) == Walk(current.path) + Reverse(retVal)
        decreases Height(current.path)
      {
        var base := current.BaseName();
        if !AllSep(base.path) {
          ReverseLast(retVal, base.path);
          retVal := retVal + [base.path];
        }
        WalkStep(current.path);
        DirIsLower(current.path);
        current := parent;
        parent := current.DirName();
      }
      var base := current.BaseName();
      if base.path != "" && base.path != CURRENT {
        ReverseLast(retVal, base.path);
        retVal := retVal + [base.path];
      }
      WalkStep(current.path);
      c := Reverse(retVal);
    }

    method ReferencesParent() returns (r: bool)
      requires Valid()
      ensures r <==> HasRun(path, PARENT)
    {
      hide Components, HasRun;
      ReferencesParentIff(path);
      var components := GetComponents();
      for i := 0 to |components|
        invariant PARENT !in components[..i]
      {
        if components[i] == PARENT {
          return true;
        }
      }
      assert components[..|components|] == components;
      r := false;
    }

    /** Joins a component, cut at its first NUL, which must not be absolute. */
    method AppendComponent(component: string) returns (r: FilePath)
      requires Valid() && |path| + |component| + 1 < NPOS
      requires !Absolute(BeforeNul(component))
      ensures fresh(r) && r.Valid() && r.path == Append(path, BeforeNul(component))
    {
      PlusNpos();
      hide Strip, BeforeNul, Plus;
      var appended := BeforeNul(component);
      if path == CURRENT {
        r := new FilePath(appended);
        return;
      }
      r := new FilePath(path);
      r.StripTrailingSeparatorsInternal();
      if appended != "" && r.path != "" {
        if !IsSep(r.path[|r.path| - 1]) {
          if Plus(FindDriveLetter(r.path), 1) != |r.path| {
            r.path := r.path + [SEPARATOR];
          }
        }
      }
      r.path := r.path + appended;
    }

    /** Whether `child` lies below this path; if so, and a target is given, the components
        in between are joined to it. */
    method AppendRelativePath(child: FilePath, target: FilePath?) returns (ok: bool)
      requires Valid() && child.Valid() && (target != null ==> target.Valid())
      requires target != null ==> |target.path| + Extent(Components(child.path)) + 1 < NPOS
      modifies target
      ensures ok <==> IsParent(old(path), old(child.path))
      ensures ok && target != null ==>
                target.path == AppendAll(old(target.path), Components(old(child.path))[|Components(old(path))|..])
      ensures !ok && target != null ==> target.path == old(target.path)
      ensures ok && target != null && (old(target.path) == "" || old(target.path) == CURRENT) ==>
                && !Absolute(target.path)
                && Runs(target.path) == WithoutLeadingDots(Components(old(child.path))[|Components(old(path))|..])
      ensures ok && target != null && old(target.path) != "" && old(target.path) != CURRENT ==>
                && (Absolute(target.path) <==> Absolute(old(target.path)))
                && Runs(target.path) == Runs(old(target.path)) + Components(old(child.path))[|Components(old(path))|..]
    {
      hide Components, AppendAll, BeforeNul, Runs, Absolute, WithoutLeadingDots, AllProper;
      var parentComponents := GetComponents();
      var childComponents := child.GetComponents();
      if |parentComponents| >= |childComponents| || |parentComponents| == 0 {
        return false;
      }
      var i := 0;
      while i < |parentComponents|
        invariant 0 <= i <= |parentComponents|
        invariant parentComponents[..i] == childComponents[..i]
      {
        if parentComponents[i] != childComponents[i] {
          return false;
        }
        i := i + 1;
      }
      ok := true;
      if target != null {
        LaterComponentsProper(child.path);
        AllComponentsHaveNoNul(child.path);
        ExtentDrop(childComponents, i);
        LaterAreProper(childComponents, i);
        JoinedRuns(target.path, childComponents[i..]);
        target.AppendEach(childComponents[i..]);
      }
    }

    /** Joins components one after another, replacing the path each time. */
    method AppendEach(components: seq<string>)
      requires Valid() && AllProper(components) && forall i :: 0 <= i < |components| ==> NUL !in components[i]
      requires |path| + Extent(components) + 1 < NPOS
      modifies this
      ensures Valid() && path == AppendAll(old(path), components)
    {
      ghost var start := path;
      var rest := components;
      while rest != []
        invariant Valid() && AllProper(rest) && forall i :: 0 <= i < |rest| ==> NUL !in rest[i]
        invariant |path| + Extent(rest) + 1 < NPOS
        invariant AppendAll(start, components) == AppendAll(path, rest)
        decreases |rest|
      {
        AppendLength(path, rest[0]);
        var joined := AppendComponent(rest[0]);
        path := joined.path;
        rest := rest[1..];
      }
    }
  }

  lemma LaterAreProper(cs: seq<string>, i: nat)
    requires 1 <= i < |cs| && forall k :: 1 <= k < |cs| ==> cs[k] != "" && SepFree(cs[k])
    ensures AllProper(cs[i..]) && cs[i..] != []
  {
    hide SepFree;
  }

  /** What joining components to a path does to its runs. */
  lemma JoinedRuns(p: string, cs: seq<string>)
    requires AllProper(cs) && cs != []
    ensures p == "" || p == CURRENT ==> !Absolute(AppendAll(p, cs)) && Runs(AppendAll(p, cs)) == WithoutLeadingDots(cs)
    ensures p != "" && p != CURRENT ==>
              (Absolute(AppendAll(p, cs)) <==> Absolute(p)) && Runs(AppendAll(p, cs)) == Runs(p) + cs
  {
    hide Runs, AppendAll, AllProper, Absolute, WithoutLeadingDots;
    if p == "" {
      AppendAllToEmpty(cs);
    } else if p == CURRENT {
      AppendAllToDot(cs);
      AppendAllToEmpty(cs);
    } else {
      AppendAllRuns(p, cs);
    }
  }

  lemma AllComponentsHaveNoNul(p: string)
    requires NUL !in p
    ensures forall n :: 0 <= n < |Components(p)| ==> NUL !in Components(p)[n]
  {
    forall n | 0 <= n < |Components(p)|
      ensures NUL !in Components(p)[n]
    {
      ComponentsHaveNoNul(p, n);
    }
  }

  lemma WalkStep(p: string)
    requires p != ""
    ensures Dir(p) != p ==> Walk(p) == Walk(Dir(p)) + (if AllSep(Base(p)) then [] else [Base(p)])
    ensures Dir(p) == p ==> Walk(p) == if Base(p) != "" && Base(p) != CURRENT then [Base(p)] else []
  {
  }

  /** Room that joining the components can take. */
  function Extent(cs: seq<string>): nat {
    if cs == [] then 0 else |cs[0]| + 1 + Extent(cs[1..])
  }

  lemma AppendLength(p: string, c: string)
    ensures |Append(p, c)| <= |p| + |c| + 1
  {
  }

  lemma {:induction false} ExtentDrop(cs: seq<string>, k: nat)
    requires k <= |cs|
    ensures Extent(cs[k..]) <= Extent(cs)
  {
    if k > 0 {
      ExtentDrop(cs[1..], k - 1);
      assert cs[1..][k - 1..] == cs[k..];
    } else {
      assert cs[0..] == cs;
    }
  }

  lemma {:induction false} ComponentsHaveNoNul(p: string, n: nat)
    requires NUL !in p && n < |Components(p)|
    ensures NUL !in Components(p)[n]
  {
    if p != "" {
      WalkHasNoNul(p);
    }
  }

  lemma {:induction false} WalkHasNoNul(p: string)
    requires NUL !in p && p != ""
    ensures forall c :: c in Walk(p) ==> NUL !in c
    decreases Height(p)
  {
    BaseAndDirHaveNoNul(p);
    WalkStep(p);
    hide Dir, Base, Walk;
    if Dir(p) != p {
      DirIsLower(p);
      WalkHasNoNul(Dir(p));
    }
  }

  lemma BaseAndDirHaveNoNul(p: string)
    requires NUL !in p
    ensures NUL !in Base(p) && NUL !in Dir(p)
  {
    hide Strip, LastOf;
    assert NUL !in Strip(p) && NUL !in Cut(Strip(p));
  }
}
