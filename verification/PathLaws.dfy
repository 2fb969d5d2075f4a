/** The laws of `base/file_path`: components, joining and its inverses, extensions. */
module PathLaws {
  import opened PathAlgebra

  // ------------------------------------------------------------- components

  /** The components of a path in terms of its runs: an absolute path starts with its root;
      a leading "." run is dropped unless it is all there is behind the final separators. */
  function ComponentsByRuns(p: string): seq<string> {
    if p == "" || p == CURRENT then []
    else if Absolute(p) then [Root(p)] + Runs(p)
    else if |Runs(p)| > 1 && Runs(p)[0] == CURRENT then Runs(p)[1..]
    else Runs(p)
  }

  lemma RelativeHasRun(p: string)
    requires p != "" && !Absolute(p)
    ensures !AllSep(p) && Runs(p) != []
  {
    RunsEmptyIff(p);
  }

  /** Main result: walking up through parents collects exactly the components by runs. */
  lemma {:induction false} WalkIsByRuns(p: string)
    requires p != ""
    ensures Walk(p) == ComponentsByRuns(p)
    decreases Height(p)
  {
    DirFixedIff(p);
    if Dir(p) == p {
      WalkAtTop(p);
    } else {
      DirIsLower(p);
      WalkIsByRuns(Dir(p));
      if Absolute(p) {
        AbsoluteStep(p);
      } else {
        RelativeStep(p);
      }
    }
  }

  lemma WalkAtTop(p: string)
    requires Stopped(p)
    ensures Dir(p) == p && p != ""
    ensures ComponentsByRuns(p) == if Base(p) != "" && Base(p) != CURRENT then [Base(p)] else []
  {
    DirFixedIff(p);
    if p == CURRENT {
      BaseOfCurrent();
    } else {
      RootAlone(p);
    }
  }

  lemma BaseOfCurrent()
    ensures Base(CURRENT) == CURRENT
  {
    StripFixed(CURRENT);
    LastSepIs(CURRENT, -1);
  }

  lemma RootAlone(p: string)
    requires p == "/" || p == "//"
    ensures Base(p) == p && ComponentsByRuns(p) == [p] && p != CURRENT
  {
    hide Runs, Dir, Strip, Base, LastSep, Lead;
    assert AllSep(p);
    DirOfSeparators(p);
    RunsEmptyIff(p);
    LeadUnique(p, |p|);
  }

  lemma AbsoluteStep(p: string)
    requires Absolute(p) && Dir(p) != p
    ensures ComponentsByRuns(p) == ComponentsByRuns(Dir(p)) + (if AllSep(Base(p)) then [] else [Base(p)])
  {
    hide Runs, Dir, Strip, Base, Root, Lead, LastSep, Bare;
    RootOfDir(p);
    if AllSep(p) {
      DirOfSeparators(p);
      RunsEmptyIff(p);
      RunsEmptyIff(Dir(p));
    } else {
      DirStep(p);
      assert [Root(p)] + (Runs(Dir(p)) + [Base(p)]) == ([Root(p)] + Runs(Dir(p))) + [Base(p)];
      NotAllSep(Base(p));
    }
  }

  lemma NotAllSep(r: string)
    requires r != "" && SepFree(r)
    ensures !AllSep(r)
  {
    assert !IsSep(r[0]);
  }

  lemma RelativeStep(p: string)
    requires p != "" && !Absolute(p) && Dir(p) != p
    ensures ComponentsByRuns(p) == ComponentsByRuns(Dir(p)) + (if AllSep(Base(p)) then [] else [Base(p)])
  {
    RelativeHasRun(p);
    DirStep(p);
    NotAllSep(Base(p));
    assert p != CURRENT by { DirFixedIff(CURRENT); }
    if !Bare(p) {
      RelativeHasRun(Dir(p));
      DotParent(p);
    }
    hide Runs, Dir, Strip, Base, Bare;
    RelativeByRuns(p, Dir(p), Base(p), Bare(p));
  }

  lemma RelativeByRuns(p: string, d: string, b: string, bare: bool)
    requires p != "" && p != CURRENT && !Absolute(p) && d != "" && !Absolute(d)
    requires bare ==> d == CURRENT && Runs(p) == [b]
    requires !bare ==> Runs(p) == Runs(d) + [b] && Runs(d) != [] && (Runs(d) == [CURRENT] <==> d == CURRENT)
    ensures ComponentsByRuns(p) == ComponentsByRuns(d) + [b]
  {
    hide Runs, Absolute;
    if !bare && |Runs(d)| > 0 {
      assert (Runs(d) + [b])[1..] == Runs(d)[1..] + [b];
    }
  }

  /** A parent whose only run is "." is ".". */
  lemma DotParent(p: string)
    requires p != "" && !Absolute(p) && !Bare(p)
    ensures Dir(p) != "" && !Absolute(Dir(p))
    ensures Runs(Dir(p)) == [CURRENT] <==> Dir(p) == CURRENT
  {
    hide Dir, Strip, Bare, Runs, LastSep;
    RelativeHasRun(p);
    DirEndsInRun(p);
    RunsOfSepFree(CURRENT);
    OneRunNoSep(Dir(p));
  }

  lemma DirEndsInRun(p: string)
    requires p != "" && !Absolute(p) && !Bare(p) && !AllSep(p)
    ensures Dir(p) != "" && !IsSep(Dir(p)[0]) && !IsSep(Dir(p)[|Dir(p)| - 1])
  {
    DirInside(p);
    hide Runs;
    var d := Dir(p);
    assert d[0] == p[0];
    assert d != "//";
  }

  lemma OneRunNoSep(d: string)
    requires d != "" && !IsSep(d[0]) && !IsSep(d[|d| - 1])
    ensures |Runs(d)| == 1 ==> Runs(d) == [d]
  {
    hide Runs, LastSep;
    LastRun(d);
    RunsInTwo(d, LastSep(d));
  }

  lemma RunsInTwo(d: string, i: int)
    requires d != "" && !IsSep(d[0]) && -1 <= i < |d| && (i >= 0 ==> IsSep(d[i]))
    requires i < 0 ==> Runs(d) == [d[0..]]
    requires i >= 0 ==> |Runs(d)| == |Runs(d[..i])| + 1
    ensures |Runs(d)| == 1 ==> Runs(d) == [d]
  {
    hide Runs;
    if i >= 0 {
      FrontHasRun(d, i);
    } else {
      assert d[0..] == d;
    }
  }

  lemma FrontHasRun(d: string, i: int)
    requires 0 < i < |d| && !IsSep(d[0])
    ensures Runs(d[..i]) != []
  {
    hide Runs;
    RunsEmptyIff(d[..i]);
    assert d[..i][0] == d[0];
  }

  /** The path climbs out of its directory: some maximal run is "..". */
  predicate ReferencesParent(p: string) {
    PARENT in Components(p)
  }

  /** Main result: the check is true exactly when ".." occurs as a maximal run. */
  lemma ReferencesParentIff(p: string)
    ensures ReferencesParent(p) <==> HasRun(p, PARENT)
  {
    RunsAreMaximal(p, PARENT);
    if p == "" {
      RunsOfSepFree(p);
    } else {
      WalkIsByRuns(p);
      if p == CURRENT {
        RunsOfSepFree(CURRENT);
      }
      hide Runs, Walk, HasRun;
      ParentInRuns(p);
    }
  }

  lemma ParentInRuns(p: string)
    requires p != "" && (p == CURRENT ==> Runs(p) == [CURRENT])
    ensures PARENT in ComponentsByRuns(p) <==> PARENT in Runs(p)
  {
    hide Runs, Lead, Absolute;
    if |Runs(p)| > 1 {
      assert Runs(p) == [Runs(p)[0]] + Runs(p)[1..];
    }
  }

  // ---------------------------------------------------------------- joining

  /** `Append` of a component without NULs. */
  function Append(p: string, c: string): string {
    if p == CURRENT then c
    else
      var s := Strip(p);
      (if c != "" && s != "" && !IsSep(s[|s| - 1]) then s + "/" else s) + c
  }

  /** What joining a real component to a path other than "." gives, split at its last separator. */
  lemma AppendShape(p: string, c: string)
    requires p != "" && p != CURRENT && c != "" && SepFree(c)
    ensures var r := Append(p, c);
            var s := Strip(p);
            && r != "" && !IsSep(r[|r| - 1]) && Strip(r) == r && LastSep(r) == |r| - |c| - 1
            && r[LastSep(r) + 1..] == c
            && (if IsSep(s[|s| - 1]) then r == s + c && (s == "/" || s == "//") else r == s + "/" + c)
  {
    hide Runs, LastSep;
    var s, r := Strip(p), Append(p, c);
    if IsSep(s[|s| - 1]) {
      assert s == "/" || s == "//";
      var front := s[..|s| - 1];
      assert s + c == front + "/" + c;
      RunsJoin(front, c);
      JoinEnds(front + "/", c);
    } else {
      RunsJoin(s, c);
      JoinEnds(s + "/", c);
    }
    StripFixed(r);
  }

  lemma JoinEnds(x: string, c: string)
    requires c != "" && SepFree(c)
    ensures !IsSep((x + c)[|x + c| - 1]) && (x + c)[|x|..] == c
  {
  }

  /** Main result: base name and parent undo joining. */
  lemma BaseAndDirUndoAppend(p: string, c: string)
    requires p != "" && c != "" && SepFree(c)
    ensures Base(Append(p, c)) == c
    ensures Dir(Append(p, c)) == Strip(p)
  {
    if p == CURRENT {
      StripFixed(c);
      StripFixed(CURRENT);
      LastSepIs(c, -1);
      assert Cut(c) == "" && Strip("") == "";
    } else {
      AppendShape(p, c);
      CutOfJoin(Strip(p), Append(p, c), c);
      StripTwice(p);
    }
  }

  lemma StripTwice(p: string)
    ensures Strip(Strip(p)) == Strip(p)
  {
    StripFixed(Strip(p));
  }

  lemma CutOfJoin(s: string, r: string, c: string)
    requires s != "" && c != "" && SepFree(c) && LastSep(r) == |r| - |c| - 1
    requires if IsSep(s[|s| - 1]) then r == s + c && (s == "/" || s == "//") else r == s + "/" + c
    ensures Cut(r) == s
  {
    var i := LastSep(r);
    if IsSep(s[|s| - 1]) {
      assert r[..|s|] == s;
    } else {
      assert i == |s| && r[..|s|] == s;
      assert r[|s| - 1] == s[|s| - 1];
      assert !(i == 1 && IsSep(r[0]));
    }
  }

  /** The runs of a join. */
  lemma AppendRuns(p: string, c: string)
    requires p != "" && p != CURRENT && c != "" && SepFree(c)
    ensures Runs(Append(p, c)) == Runs(p) + [c]
  {
    hide Runs, Append, Strip, LastSep;
    AppendShape(p, c);
    var s := Strip(p);
    StripRuns(p);
    if IsSep(s[|s| - 1]) {
      var front := s[..|s| - 1];
      SeparatorsBefore(s);
      assert s + c == front + "/" + c;
      RunsJoin(front, c);
    } else {
      RunsJoin(s, c);
    }
  }

  lemma SeparatorsBefore(s: string)
    requires s == "/" || s == "//"
    ensures s == s[..|s| - 1] + "/" && Runs(s) == [] && Runs(s[..|s| - 1]) == []
  {
    hide Runs;
    if s == "/" {
      assert s[..0] == "";
    } else {
      assert s[..1] == "/";
    }
    RunsEmptyIff(s);
    RunsEmptyIff(s[..|s| - 1]);
  }

  lemma AppendRoot(p: string, c: string)
    requires Absolute(p) && c != "" && SepFree(c)
    ensures Absolute(Append(p, c)) && Root(Append(p, c)) == Root(p)
  {
    var s, r := Strip(p), Append(p, c);
    AppendShape(p, c);
    assert s[0] == p[0] && r[0] == s[0];
    if IsSep(s[|s| - 1]) {
      StrippedSeparators(p);
      LeadUnique(p, |p|);
      assert r[|s|] == c[0];
      LeadUnique(r, |s|);
      assert !AllSep(r);
    } else {
      assert !AllSep(s);
      assert s <= r;
      hide Lead;
      LeadOfPrefix(s, p);
      LeadOfPrefix(s, r);
    }
  }

  lemma StrippedSeparators(p: string)
    requires Absolute(p) && IsSep(Strip(p)[|Strip(p)| - 1])
    ensures AllSep(p) && Strip(p) == if |p| == 2 then "//" else "/"
  {
    var s := Strip(p);
    assert forall k :: 0 <= k < |s| ==> s[k] == p[k];
    assert AllSep(s);
    StripDropsSeparators(p);
    assert AllSep(p);
    StripOfSeparators(p);
  }

  /** Joining adds one component, except to "./" and the like, whose "." then vanishes. */
  lemma AppendComponents(p: string, c: string)
    requires p != "" && c != "" && SepFree(c) && Strip(p) != CURRENT
    ensures Components(Append(p, c)) == Components(p) + [c]
    ensures Append(p, c) != "" && Strip(Append(p, c)) != CURRENT
  {
    hide Runs, Walk, Strip, Append, Root, LastOf, ComponentsByRuns, SepFree, Absolute;
    var r := Append(p, c);
    AppendedPath(p, c);
    AppendedRuns(p, c);
    WalkIsByRuns(p);
    WalkIsByRuns(r);
    JoinByRuns(p, r, c);
  }

  /** A join is never ".", and starts as the path it is made from. */
  lemma AppendedPath(p: string, c: string)
    requires p != "" && c != "" && SepFree(c) && Strip(p) != CURRENT
    ensures p != CURRENT
    ensures var r := Append(p, c);
            r != "" && r != CURRENT && Strip(r) != CURRENT && (Absolute(p) <==> Absolute(r))
  {
    hide Runs, Walk, SepFree;
    StripFixed(CURRENT);
    AppendShape(p, c);
    assert LastSep(CURRENT) < 0;
    hide LastOf, Append;
    assert Strip(p)[0] == p[0] == Append(p, c)[0];
  }

  lemma AppendedRuns(p: string, c: string)
    requires p != "" && c != "" && SepFree(c) && Strip(p) != CURRENT
    ensures var r := Append(p, c);
            && Runs(r) == Runs(p) + [c]
            && (Absolute(p) ==> Root(r) == Root(p))
            && (!Absolute(p) ==> Runs(p) != [] && Runs(p) != [CURRENT])
  {
    AppendedPath(p, c);
    hide Runs, Walk, Strip, Append, Root, LastOf, SepFree;
    AppendRuns(p, c);
    if Absolute(p) {
      AppendRoot(p, c);
    } else {
      RelativeHasRun(p);
      DotRunAlone(p);
    }
  }

  lemma JoinByRuns(p: string, r: string, c: string)
    requires p != "" && p != CURRENT && r != "" && r != CURRENT && (Absolute(p) <==> Absolute(r))
    requires Runs(r) == Runs(p) + [c]
    requires Absolute(p) ==> Root(r) == Root(p)
    requires !Absolute(p) ==> Runs(p) != [] && Runs(p) != [CURRENT]
    ensures ComponentsByRuns(r) == ComponentsByRuns(p) + [c]
  {
    hide Runs, Root, Absolute;
    if Absolute(p) {
      assert [Root(p)] + (Runs(p) + [c]) == ([Root(p)] + Runs(p)) + [c];
    } else {
      assert (Runs(p) + [c])[1..] == Runs(p)[1..] + [c];
    }
  }

  lemma DotRunAlone(p: string)
    requires p != "" && !Absolute(p)
    ensures Runs(p) == [CURRENT] ==> Strip(p) == CURRENT
  {
    RelativeHasRun(p);
    StripRuns(p);
    StripOfRun(p);
    assert Strip(p)[0] == p[0];
    OneRunNoSep(Strip(p));
  }

  // --------------------------------------------------------- relative paths

  /** `IsParent`: the parent's components are a non-empty proper prefix of the child's. */
  predicate IsParent(p: string, child: string) {
    Components(p) != [] && |Components(p)| < |Components(child)| && Components(p) <= Components(child)
  }

  function AppendAll(p: string, cs: seq<string>): string
    decreases |cs|
  {
    if cs == [] then p else AppendAll(Append(p, cs[0]), cs[1..])
  }

  predicate AllProper(cs: seq<string>) {
    forall i :: 0 <= i < |cs| ==> cs[i] != "" && SepFree(cs[i])
  }

  /** Every component but the first is a run. */
  lemma LaterComponentsProper(p: string)
    ensures forall i :: 1 <= i < |Components(p)| ==> Components(p)[i] != "" && SepFree(Components(p)[i])
  {
    forall i | 1 <= i < |Components(p)|
      ensures Components(p)[i] != "" && SepFree(Components(p)[i])
    {
      WalkIsByRuns(p);
      LaterByRuns(p, i);
      RunsProper(p);
    }
  }

  lemma LaterByRuns(p: string, i: nat)
    requires 1 <= i < |ComponentsByRuns(p)|
    ensures ComponentsByRuns(p)[i] in Runs(p)
  {
    hide Runs, Root, Absolute;
  }

  lemma {:induction false} AppendAllComponents(p: string, cs: seq<string>)
    requires p != "" && Strip(p) != CURRENT && AllProper(cs)
    ensures Components(AppendAll(p, cs)) == Components(p) + cs
    decreases |cs|
  {
    hide Components, Strip, Append;
    if cs != [] {
      AppendComponents(p, cs[0]);
      AppendAllComponents(Append(p, cs[0]), cs[1..]);
      assert cs == [cs[0]] + cs[1..];
    }
  }

  /** Joining onto "./" loses the ".". */
  lemma AppendToDotSlash(p: string, c: string)
    requires Strip(p) == CURRENT && p != CURRENT && c != "" && SepFree(c)
    ensures Components(p) == [CURRENT] && Components(Append(p, c)) == [c]
    ensures Append(p, c) != "" && Strip(Append(p, c)) != CURRENT
  {
    hide Runs, LastSep, Walk;
    var r := Append(p, c);
    AppendShape(p, c);
    AppendRuns(p, c);
    StripRuns(p);
    RunsOfSepFree(CURRENT);
    assert p[0] == Strip(p)[0] == DOT && r == "./" + c;
    hide Strip, Append;
    WalkIsByRuns(p);
    WalkIsByRuns(r);
    DotComponents(p, r, c);
  }

  lemma DotComponents(p: string, r: string, c: string)
    requires p != "" && p != CURRENT && p[0] == DOT && r != "" && r != CURRENT && r[0] == DOT
    requires Runs(p) == [CURRENT] && Runs(r) == [CURRENT] + [c]
    ensures ComponentsByRuns(p) == [CURRENT] && ComponentsByRuns(r) == [c]
  {
    hide Runs, Root;
    assert ([CURRENT] + [c])[1..] == [c];
  }

  /** Main result: appending the relative path from the parent to the parent itself gives
      the child's components exactly when the parent is not "." behind its separators. */
  lemma AppendRelativeIff(p: string, child: string)
    requires IsParent(p, child)
    ensures Components(AppendAll(p, Components(child)[|Components(p)|..])) == Components(child)
       <==> Strip(p) != CURRENT
  {
    hide IsParent, Components, Strip, Append, AppendAll, AllProper;
    RelativeRest(p, child);
    var rest := Components(child)[|Components(p)|..];
    if Strip(p) != CURRENT {
      AppendAllComponents(p, rest);
    } else {
      AppendAllToDotSlash(p, rest);
    }
  }

  /** What is left of the child's components behind those of the parent. */
  lemma RelativeRest(p: string, child: string)
    requires IsParent(p, child)
    ensures p != "" && p != CURRENT
    ensures 0 < |Components(p)| < |Components(child)|
    ensures var rest := Components(child)[|Components(p)|..];
            rest != [] && AllProper(rest) && Components(p) + rest == Components(child)
  {
    LaterComponentsProper(child);
    DotHasNoComponents();
    assert Components("") == [];
    var cc, pc := Components(child), Components(p);
    hide Components, SepFree;
    ProperRest(pc, cc);
  }

  lemma ProperRest(pc: seq<string>, cc: seq<string>)
    requires pc != [] && |pc| < |cc| && pc <= cc
    requires forall i :: 1 <= i < |cc| ==> cc[i] != "" && SepFree(cc[i])
    ensures cc[|pc|..] != [] && AllProper(cc[|pc|..]) && pc + cc[|pc|..] == cc
  {
    hide SepFree;
    assert cc[..|pc|] == pc;
  }

  lemma DotHasNoComponents()
    ensures Components(CURRENT) == []
  {
    WalkIsByRuns(CURRENT);
  }

  lemma AppendAllToDotSlash(p: string, cs: seq<string>)
    requires p != CURRENT && Strip(p) == CURRENT && cs != [] && AllProper(cs)
    ensures |Components(p)| == 1 && |Components(AppendAll(p, cs))| == |cs|
  {
    hide Components, Strip, Append;
    AppendToDotSlash(p, cs[0]);
    AppendAllComponents(Append(p, cs[0]), cs[1..]);
  }

  /** "././a" lies below "./", and joining "a" to "./" gives the components of "./a" instead. */
  lemma DotSlashLosesComponent()
    ensures IsParent("./", "././a") && Strip("./") == CURRENT
    ensures Components("./") == [CURRENT] && Components("././a") == [CURRENT, "a"]
    ensures Components(AppendAll("./", ["a"])) == ["a"]
  {
    hide Components, Strip, Append, Runs, LastOf;
    StripDotSlash();
    AppendToDotSlash("./", "a");
    ChildOfDotSlash();
    assert [CURRENT, "a"][..1] == [CURRENT];
    assert AppendAll("./", ["a"]) == AppendAll(Append("./", "a"), []);
  }

  lemma StripDotSlash()
    ensures Strip("./") == CURRENT
  {
    assert "./"[..1] == ".";
    assert TrimEnd(".") == ".";
  }

  lemma ChildOfDotSlash()
    ensures Components("././a") == [CURRENT, "a"]
  {
    hide Walk, Runs, LastOf, Strip;
    WalkIsByRuns("././a");
    RunsOfChild();
    assert [CURRENT, CURRENT, "a"][1..] == [CURRENT, "a"];
  }

  lemma RunsOfChild()
    ensures Runs("././a") == [CURRENT, CURRENT, "a"]
  {
    hide Walk, Runs, LastOf, Strip;
    RunsOfSepFree(CURRENT);
    RunsJoin(CURRENT, CURRENT);
    RunsJoin("./.", "a");
    assert CURRENT + "/" + CURRENT == "./.";
    assert "./." + "/" + "a" == "././a";
    assert [CURRENT] + [CURRENT] + ["a"] == [CURRENT, CURRENT, "a"];
  }

  // -------------------------------------------------- joining to an empty path

  /** Nothing is put in front of what is joined to an empty path. */
  lemma AppendToEmpty(c: string)
    ensures Append("", c) == c
  {
  }

  /** Joining to any other path than "." adds runs. */
  lemma {:induction false} AppendAllRuns(p: string, cs: seq<string>)
    requires p != "" && p != CURRENT && AllProper(cs)
    ensures var r := AppendAll(p, cs);
            r != "" && r != CURRENT && (Absolute(r) <==> Absolute(p)) && Runs(r) == Runs(p) + cs
    decreases |cs|
  {
    hide Runs, Append, LastOf, Strip, Absolute, SepFree;
    if cs != [] {
      AppendedAlike(p, cs[0]);
      AppendRuns(p, cs[0]);
      AppendAllRuns(Append(p, cs[0]), cs[1..]);
      assert cs == [cs[0]] + cs[1..];
    }
  }

  lemma AppendedAlike(p: string, c: string)
    requires p != "" && p != CURRENT && c != "" && SepFree(c)
    ensures var r := Append(p, c);
            r != "" && r != CURRENT && (Absolute(r) <==> Absolute(p))
  {
    hide Runs, SepFree;
    AppendShape(p, c);
    assert LastSep(CURRENT) < 0;
    hide LastOf, Append;
    assert Strip(p)[0] == p[0] == Append(p, c)[0];
  }

  /** Joining to "." replaces it, so leading "."s vanish, but for a last one. */
  function WithoutLeadingDots(cs: seq<string>): seq<string> {
    if |cs| > 1 && cs[0] == CURRENT then WithoutLeadingDots(cs[1..]) else cs
  }

  lemma {:induction false} LeadingDotsOnly(cs: seq<string>)
    ensures |WithoutLeadingDots(cs)| <= |cs|
    ensures WithoutLeadingDots(cs) == cs <==> |cs| <= 1 || cs[0] != CURRENT
  {
    if |cs| > 1 && cs[0] == CURRENT {
      LeadingDotsOnly(cs[1..]);
    }
  }

  lemma AppendAllToDot(cs: seq<string>)
    requires cs != []
    ensures AppendAll(CURRENT, cs) == AppendAll("", cs)
  {
    AppendToEmpty(cs[0]);
  }

  /** Main result on an empty target: joining components to it gives a relative path with just
      those runs, unless the first of several is ".". */
  lemma {:induction false} AppendAllToEmpty(cs: seq<string>)
    requires cs != [] && AllProper(cs)
    ensures var r := AppendAll("", cs);
            r != "" && !Absolute(r) && Runs(r) == WithoutLeadingDots(cs)
    decreases |cs|
  {
    hide Runs, LastOf, Strip;
    var c := cs[0];
    AppendToEmpty(c);
    assert AppendAll("", cs) == AppendAll(c, cs[1..]);
    RunsOfSepFree(c);
    if c != CURRENT {
      AppendAllRuns(c, cs[1..]);
      assert [c] + cs[1..] == cs;
    } else if |cs| > 1 {
      assert Append(CURRENT, cs[1]) == cs[1] == Append("", cs[1]);
      assert AppendAll(CURRENT, cs[1..]) == AppendAll(cs[1], cs[2..]) == AppendAll("", cs[1..]) by {
        assert cs[1..][1..] == cs[2..];
      }
      AppendAllToEmpty(cs[1..]);
    }
  }
}
