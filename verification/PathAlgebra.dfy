/** What the operations of `base/file_path` compute, as functions on path strings, and the
    laws that connect them. */
module PathAlgebra {

  const SEPARATOR := '/'
  const DOT := '.'
  const CURRENT := "."
  const PARENT := ".."

  predicate IsSep(c: char) { c == SEPARATOR }

  predicate AllSep(p: string) {
    forall i :: 0 <= i < |p| ==> IsSep(p[i])
  }

  predicate SepFree(p: string) {
    forall i :: 0 <= i < |p| ==> !IsSep(p[i])
  }

  /** Index of the last `c`, or -1. */
  function LastOf(p: string, c: char): (i: int)
    ensures -1 <= i < |p|
    ensures i >= 0 ==> p[i] == c
  {
    if p == "" then -1
    else if p[|p| - 1] == c then |p| - 1
    else LastOf(p[..|p| - 1], c)
  }

  function LastSep(p: string): (i: int)
    ensures -1 <= i < |p|
    ensures i >= 0 ==> IsSep(p[i])
  {
    LastOf(p, SEPARATOR)
  }

  lemma {:induction false} NoneBehindLastOf(p: string, c: char)
    ensures forall k :: LastOf(p, c) < k < |p| ==> p[k] != c
    decreases |p|
  {
    if p != "" && p[|p| - 1] != c {
      NoneBehindLastOf(p[..|p| - 1], c);
      assert forall k :: 0 <= k < |p| - 1 ==> p[..|p| - 1][k] == p[k];
    }
  }

  lemma LastSepIs(p: string, i: int)
    requires -1 <= i < |p| && (i >= 0 ==> IsSep(p[i]))
    requires forall k :: i < k < |p| ==> !IsSep(p[k])
    ensures LastSep(p) == i
  {
    NoneBehindLastOf(p, SEPARATOR);
  }

  /** Trailing separators go, but one character stays. */
  function TrimEnd(p: string): (r: string)
    ensures r <= p
    ensures p != "" ==> r != ""
    ensures |r| <= 1 || !IsSep(r[|r| - 1])
  {
    if |p| > 1 && IsSep(p[|p| - 1]) then TrimEnd(p[..|p| - 1]) else p
  }

  /** Two separators alone are kept; three become one. */
  function Strip(p: string): (r: string)
    ensures r <= p
    ensures p != "" ==> r != ""
    ensures |r| <= 1 || r == "//" || !IsSep(r[|r| - 1])
  {
    if p == "//" then p else TrimEnd(p)
  }

  lemma {:induction false} TrimEndDropsSeparators(p: string)
    ensures forall k :: |TrimEnd(p)| <= k < |p| ==> IsSep(p[k])
    decreases |p|
  {
    if |p| > 1 && IsSep(p[|p| - 1]) {
      TrimEndDropsSeparators(p[..|p| - 1]);
      assert forall k :: 0 <= k < |p| - 1 ==> p[..|p| - 1][k] == p[k];
    }
  }

  lemma StripDropsSeparators(p: string)
    ensures forall k :: |Strip(p)| <= k < |p| ==> IsSep(p[k])
  {
    TrimEndDropsSeparators(p);
  }

  function Base(p: string): string {
    var s := Strip(p);
    var i := LastSep(s);
    if 0 <= i < |s| - 1 then s[i + 1..] else s
  }

  /** The stripped path cut before its last separator; a leading one or two stay. */
  function Cut(s: string): string {
    var i := LastSep(s);
    if i < 0 then ""
    else if i == 0 then s[..1]
    else if i == 1 && IsSep(s[0]) then s[..2]
    else s[..i]
  }

  function Dir(p: string): (d: string)
    ensures d != ""
  {
    var t := Strip(Cut(Strip(p)));
    if t == "" then CURRENT else t
  }

  // ------------------------------------------------------------------- runs

  /** The maximal separator-free runs, in order. */
  function Runs(p: string): seq<string>
    decreases |p|
  {
    var i := LastSep(p);
    var tail := p[i + 1..];
    var front := if i < 0 then [] else Runs(p[..i]);
    if tail == "" then front else front + [tail]
  }

  /** `p[i..j]` is a separator-free run that neither side extends. */
  predicate IsRun(p: string, i: int, j: int) {
    && 0 <= i < j <= |p|
    && SepFree(p[i..j])
    && (i == 0 || IsSep(p[i - 1]))
    && (j == |p| || IsSep(p[j]))
  }

  ghost predicate HasRun(p: string, r: string) {
    exists i, j :: IsRun(p, i, j) && p[i..j] == r
  }

  /** `Runs` lists exactly the maximal runs. */
  lemma {:induction false} RunsAreMaximal(p: string, r: string)
    ensures r in Runs(p) <==> HasRun(p, r)
    decreases |p|
  {
    var c := LastSep(p);
    RunAtEnd(p, r);
    if c >= 0 {
      RunsAreMaximal(p[..c], r);
    }
  }

  /** The runs of `p` are those before its last separator and the one behind it. */
  lemma RunAtEnd(p: string, r: string)
    ensures var c := LastSep(p);
            HasRun(p, r) <==> (c >= 0 && HasRun(p[..c], r)) || (r == p[c + 1..] && r != "")
  {
    var c := LastSep(p);
    if c >= 0 && HasRun(p[..c], r) {
      var i, j :| IsRun(p[..c], i, j) && p[..c][i..j] == r;
      SliceOfPrefix(p, c, i, j);
      assert IsRun(p, i, j);
    }
    NoneBehindLastOf(p, SEPARATOR);
    if r == p[c + 1..] && r != "" {
      assert IsRun(p, c + 1, |p|);
    }
    if HasRun(p, r) {
      var i, j :| IsRun(p, i, j) && p[i..j] == r;
      if i <= c {
        RunBeforeCut(p, c, i, j);
      } else {
        RunBehindCut(p, c, i, j);
      }
    }
  }

  lemma SliceOfPrefix(p: string, c: int, i: int, j: int)
    requires 0 <= i <= j <= c <= |p|
    ensures p[..c][i..j] == p[i..j]
  {
  }

  lemma RunBeforeCut(p: string, c: int, i: int, j: int)
    requires 0 <= i <= c < |p| && IsSep(p[c]) && IsRun(p, i, j)
    ensures j <= c && IsRun(p[..c], i, j) && p[..c][i..j] == p[i..j]
  {
    if c < j {
      assert false;
    }
    SliceOfPrefix(p, c, i, j);
  }

  lemma RunBehindCut(p: string, c: int, i: int, j: int)
    requires c == LastSep(p) && c < i && IsRun(p, i, j)
    ensures i == c + 1 && j == |p|
  {
    NoneBehindLastOf(p, SEPARATOR);
  }

  lemma {:induction false} RunsProper(p: string)
    ensures forall r :: r in Runs(p) ==> r != "" && SepFree(r)
    decreases |p|
  {
    NoneBehindLastOf(p, SEPARATOR);
    if LastSep(p) >= 0 {
      RunsProper(p[..LastSep(p)]);
    }
  }

  lemma RunsOfSepFree(c: string)
    requires SepFree(c)
    ensures Runs(c) == if c == "" then [] else [c]
  {
    assert c[0..] == c;
  }

  /** A separator more at the end makes no run. */
  lemma RunsSepEnd(p: string)
    ensures Runs(p + "/") == Runs(p)
  {
    var q := p + "/";
    assert LastSep(q) == |p| && q[..|p|] == p && q[|p| + 1..] == "";
  }

  lemma {:induction false} RunsPadded(p: string, q: string)
    requires p <= q && forall k :: |p| <= k < |q| ==> IsSep(q[k])
    ensures Runs(q) == Runs(p)
    decreases |q|
  {
    if |q| > |p| {
      RunsPadded(p, q[..|q| - 1]);
      RunsSepEnd(q[..|q| - 1]);
      assert q == q[..|q| - 1] + "/";
    } else {
      assert p == q;
    }
  }

  lemma StripRuns(p: string)
    ensures Runs(Strip(p)) == Runs(p)
  {
    StripDropsSeparators(p);
    RunsPadded(Strip(p), p);
  }

  lemma {:induction false} RunsEmptyIff(p: string)
    ensures Runs(p) == [] <==> AllSep(p)
    decreases |p|
  {
    NoneBehindLastOf(p, SEPARATOR);
    var i := LastSep(p);
    if i >= 0 && i == |p| - 1 {
      RunsEmptyIff(p[..i]);
      assert AllSep(p) <==> AllSep(p[..i]);
    } else if i < |p| - 1 {
      assert p[i + 1..] != "" && !IsSep(p[|p| - 1]);
    }
  }

  lemma StripFixed(p: string)
    requires p == "" || p == "/" || p == "//" || !IsSep(p[|p| - 1])
    ensures Strip(p) == p
  {
  }

  /** Joining a separator-free component adds it as the last run. */
  lemma RunsJoin(s: string, c: string)
    requires c != "" && SepFree(c)
    ensures LastSep(s + "/" + c) == |s|
    ensures Runs(s + "/" + c) == Runs(s) + [c]
  {
    var q := s + "/" + c;
    assert IsSep(q[|s|]);
    assert q[|s| + 1..] == c;
    forall k | |s| < k < |q|
      ensures !IsSep(q[k])
    {
      assert q[k] == c[k - |s| - 1];
    }
    assert q[..|s|] == s;
    LastSepIs(q, |s|);
  }

  // --------------------------------------------------------- parent and base

  /** Whether repeated `Dir` has stopped. */
  predicate Stopped(p: string) {
    p == "/" || p == "//" || p == CURRENT
  }

  /** A stripped path that does not end in a separator ends in its last run. */
  lemma LastRun(s: string)
    requires s != "" && !IsSep(s[|s| - 1])
    ensures var i := LastSep(s);
            && s[i + 1..] != "" && SepFree(s[i + 1..])
            && Runs(s) == (if i < 0 then [] else Runs(s[..i])) + [s[i + 1..]]
  {
    NoneBehindLastOf(s, SEPARATOR);
  }

  lemma StripOfRun(p: string)
    requires !AllSep(p)
    ensures Strip(p) != "" && !IsSep(Strip(p)[|Strip(p)| - 1]) && !AllSep(Strip(p))
  {
    StripDropsSeparators(p);
    var k :| 0 <= k < |p| && !IsSep(p[k]);
    assert k < |Strip(p)| && !IsSep(Strip(p)[k]);
  }

  /** Main result on one step: taking the parent stops only at "/", "//" and "."; else it
      removes exactly the last run, which is the base name. */
  lemma DirTakesLastRun(p: string)
    requires p != ""
    ensures Dir(p) == p <==> Stopped(p)
    ensures AllSep(p) ==> Dir(p) == Base(p) == Strip(p)
    ensures !AllSep(p) ==> SepFree(Base(p)) && Base(p) != "" && Runs(p) != [] && Base(p) == Runs(p)[|Runs(p)| - 1]
    ensures LastSep(Strip(p)) >= 0 ==> Dir(p) <= p
    ensures !AllSep(p) && LastSep(Strip(p)) >= 0 ==> Runs(Dir(p)) == Runs(p)[..|Runs(p)| - 1]
    ensures LastSep(Strip(p)) < 0 ==> Dir(p) == CURRENT && Runs(p) == [Strip(p)] && SepFree(Strip(p))
  {
    DirFixedIff(p);
    if AllSep(p) {
      DirOfSeparators(p);
    } else if LastSep(Strip(p)) < 0 {
      DirOfBareName(p);
    } else {
      BaseIsLastRun(p);
      DirInside(p);
    }
  }

  lemma DirFixedIff(p: string)
    requires p != ""
    ensures Dir(p) == p <==> Stopped(p)
  {
    hide Runs;
    if AllSep(p) {
      DirOfSeparators(p);
    } else if LastSep(Strip(p)) < 0 {
      DirOfBareName(p);
    } else {
      DirInside(p);
      assert Strip(CURRENT) == CURRENT;
    }
  }

  lemma BaseIsLastRun(p: string)
    requires !AllSep(p) && LastSep(Strip(p)) >= 0
    ensures SepFree(Base(p)) && Base(p) != "" && Runs(p) != [] && Base(p) == Runs(p)[|Runs(p)| - 1]
  {
    hide Runs, Strip, LastSep, SepFree, AllSep, Base;
    StripOfRun(p);
    StripRuns(p);
    var s := Strip(p);
    LastRun(s);
    BaseBehindSep(p);
    LastOfJoined(Runs(s[..LastSep(s)]), Base(p));
  }

  lemma BaseBehindSep(p: string)
    requires LastSep(Strip(p)) >= 0 && !IsSep(Strip(p)[|Strip(p)| - 1])
    ensures Base(p) == Strip(p)[LastSep(Strip(p)) + 1..]
  {
    hide Strip, LastOf;
  }

  lemma LastOfJoined<T>(s: seq<T>, x: T)
    ensures s + [x] != [] && (s + [x])[|s + [x]| - 1] == x
  {
  }

  lemma DirOfBareName(p: string)
    requires !AllSep(p) && LastSep(Strip(p)) < 0
    ensures Dir(p) == CURRENT && Base(p) == Strip(p) && Runs(p) == [Strip(p)] && SepFree(Strip(p))
  {
    StripRuns(p);
    StripOfRun(p);
    LastRun(Strip(p));
    assert Strip(p)[0..] == Strip(p);
    assert Strip("") == "";
  }

  lemma DirOfSeparators(p: string)
    requires p != "" && AllSep(p)
    ensures Strip(p) == if |p| == 2 then "//" else "/"
    ensures Dir(p) == Base(p) == Strip(p)
    ensures LastSep(Strip(p)) >= 0
  {
    StripOfSeparators(p);
    var s := Strip(p);
    assert LastSep(s) == |s| - 1;
    assert Cut(s) == s;
    StripFixed(s);
  }

  lemma StripOfSeparators(p: string)
    requires p != "" && AllSep(p)
    ensures Strip(p) == if |p| == 2 then "//" else "/"
  {
    if |p| == 2 {
      assert p == "//";
    } else {
      var t := TrimEnd(p);
      assert |t| == 1 && t[0] == p[0];
    }
  }

  /** Cutting before the last run leaves the other runs. */
  lemma CutRuns(s: string)
    requires s != "" && !IsSep(s[|s| - 1]) && LastSep(s) >= 0
    ensures Cut(s) <= s && 0 < |Cut(s)| < |s|
    ensures Runs(s) != [] && Runs(Cut(s)) == Runs(s)[..|Runs(s)| - 1] == Runs(s[..LastSep(s)])
  {
    var i := LastSep(s);
    LastRun(s);
    ShortCut(s);
  }

  lemma ShortCut(s: string)
    requires LastSep(s) >= 0
    ensures Cut(s) <= s && Cut(s) != "" && |Cut(s)| <= LastSep(s) + 1
    ensures Runs(Cut(s)) == Runs(s[..LastSep(s)])
  {
    var i := LastSep(s);
    hide Runs;
    if i == 0 {
      RunsPadded("", s[..1]);
      assert s[..0] == "";
    } else if i == 1 && IsSep(s[0]) {
      RunsPadded(s[..1], s[..2]);
    }
  }

  /** The parent of a path with a run behind a separator. */
  lemma DirInside(p: string)
    requires p != "" && !AllSep(p) && LastSep(Strip(p)) >= 0
    ensures Dir(p) == Strip(Cut(Strip(p))) <= p && |Dir(p)| < |p|
    ensures Base(p) == Strip(p)[LastSep(Strip(p)) + 1..] != ""
    ensures Runs(p) != [] && Runs(Dir(p)) == Runs(p)[..|Runs(p)| - 1]
  {
    hide Runs;
    var s := Strip(p);
    StripOfRun(p);
    StripRuns(p);
    CutRuns(s);
    StripRuns(Cut(s));
  }

  /** Whether the parent is "." for want of a separator. */
  predicate Bare(p: string) {
    LastSep(Strip(p)) < 0
  }

  /** One step up, in terms of runs only. */
  lemma DirStep(p: string)
    requires !AllSep(p)
    ensures Base(p) != "" && SepFree(Base(p))
    ensures Bare(p) ==> Dir(p) == CURRENT && Runs(p) == [Base(p)]
    ensures !Bare(p) ==> Runs(p) == Runs(Dir(p)) + [Base(p)] && Dir(p) <= p
    ensures Absolute(p) ==> !Bare(p)
  {
    hide Runs, Strip, LastOf, SepFree, AllSep, Dir, Base;
    AbsoluteNotBare(p);
    if Bare(p) {
      StripOfRun(p);
      DirOfBareName(p);
    } else {
      BaseIsLastRun(p);
      DirInside(p);
      assert Runs(p) == Runs(p)[..|Runs(p)| - 1] + [Runs(p)[|Runs(p)| - 1]];
    }
  }

  lemma AbsoluteNotBare(p: string)
    ensures Absolute(p) ==> !Bare(p)
  {
    if Absolute(p) {
      FirstOfStripped(p);
    }
  }

  /** Termination of walking up: 0 at ".", else the length. */
  function Height(p: string): nat {
    if p == CURRENT then 0 else |p|
  }

  lemma DirIsLower(p: string)
    requires p != "" && Dir(p) != p
    ensures Height(Dir(p)) < Height(p)
  {
    DirTakesLastRun(p);
    if AllSep(p) {
      DirOfSeparators(p);
    } else if LastSep(Strip(p)) >= 0 {
      DirInside(p);
    }
  }

  /** Components by walking up to where the parent no longer changes, as `GetComponents` does. */
  function Components(p: string): seq<string> {
    if p == "" then [] else Walk(p)
  }

  function Walk(p: string): seq<string>
    requires p != ""
    decreases Height(p)
  {
    if Dir(p) == p then
      if Base(p) != "" && Base(p) != CURRENT then [Base(p)] else []
    else
      DirIsLower(p);
      Walk(Dir(p)) + (if AllSep(Base(p)) then [] else [Base(p)])
  }

  /** The root component of an absolute path: "//" after exactly two leading separators, and
      after three if something follows them. */
  function Lead(p: string): (k: nat)
    ensures k <= |p| && (forall i :: 0 <= i < k ==> IsSep(p[i])) && (k < |p| ==> !IsSep(p[k]))
  {
    if p == "" || !IsSep(p[0]) then 0 else Lead(p[1..]) + 1
  }

  function Root(p: string): string {
    if Lead(p) == 2 || (Lead(p) == 3 && !AllSep(p)) then "//" else "/"
  }

  predicate Absolute(p: string) {
    p != "" && IsSep(p[0])
  }

  lemma LeadUnique(p: string, k: nat)
    requires k <= |p| && (forall i :: 0 <= i < k ==> IsSep(p[i])) && (k < |p| ==> !IsSep(p[k]))
    ensures Lead(p) == k
  {
  }

  lemma LeadOfPrefix(q: string, p: string)
    requires q <= p && !AllSep(q)
    ensures Lead(q) == Lead(p) && !AllSep(p)
  {
    var l := Lead(q);
    assert forall i :: 0 <= i < |q| ==> q[i] == p[i];
    assert l < |q|;
    LeadUnique(p, l);
  }

  /** The root does not change on the way up. */
  lemma RootOfDir(p: string)
    requires Absolute(p)
    ensures Absolute(Dir(p)) && Root(Dir(p)) == Root(p)
  {
    if AllSep(p) {
      DirOfSeparators(p);
      hide Runs, Dir, Strip, Cut;
      LeadUnique(p, |p|);
      LeadUnique(Dir(p), |Dir(p)|);
    } else {
      FirstOfStripped(p);
      DirInside(p);
      hide Runs, Dir, Strip, Cut;
      if AllSep(Dir(p)) {
        RootOfTopRun(p);
      } else {
        LeadOfPrefix(Dir(p), p);
      }
    }
  }

  lemma FirstOfStripped(p: string)
    requires Absolute(p)
    ensures LastSep(Strip(p)) >= 0
  {
    assert Strip(p)[0] == p[0];
    NoneBehindLastOf(Strip(p), SEPARATOR);
  }

  /** A single run directly under the root. */
  lemma RootOfTopRun(p: string)
    requires Absolute(p) && !AllSep(p) && LastSep(Strip(p)) >= 0 && AllSep(Dir(p))
    ensures Root(Dir(p)) == Root(p)
  {
    TopRunCut(p);
    var i := LastSep(Strip(p));
    assert Dir(p) == if i == 1 || i == 2 then "//" else "/";
    hide Runs, Dir, Strip, Cut;
    LeadUnique(p, i + 1);
    LeadUnique(Dir(p), |Dir(p)|);
  }

  lemma TopRunCut(p: string)
    requires Absolute(p) && !AllSep(p) && LastSep(Strip(p)) >= 0 && AllSep(Dir(p))
    ensures var i := LastSep(Strip(p));
            && i + 1 < |p| && !IsSep(p[i + 1])
            && (forall k :: 0 <= k <= i ==> IsSep(p[k]))
            && Dir(p) == if i == 1 || i == 2 then "//" else "/"
  {
    hide Dir, Strip, Runs, Cut;
    var s := Strip(p);
    StripOfRun(p);
    DirInside(p);
    TopCutOf(s);
    assert p[LastSep(s) + 1] == s[LastSep(s) + 1];
    assert forall k :: 0 <= k <= LastSep(s) ==> p[k] == s[k];
  }

  lemma TopCutOf(s: string)
    requires s != "" && !IsSep(s[|s| - 1]) && LastSep(s) >= 0 && AllSep(Strip(Cut(s)))
    ensures var i := LastSep(s);
            && i + 1 < |s| && !IsSep(s[i + 1])
            && (forall k :: 0 <= k <= i ==> IsSep(s[k]))
            && Strip(Cut(s)) == if i == 1 || i == 2 then "//" else "/"
  {
    hide Strip, Runs, Cut;
    NoneBehindLastOf(s, SEPARATOR);
    StripRuns(Cut(s));
    RunsEmptyIff(Strip(Cut(s)));
    ShortCut(s);
    OnlySeparatorsBefore(s);
    TopCut(s);
    StripOfSeparators(Cut(s));
  }

  lemma OnlySeparatorsBefore(s: string)
    requires LastSep(s) >= 0 && Runs(s[..LastSep(s)]) == []
    ensures forall k :: 0 <= k <= LastSep(s) ==> IsSep(s[k])
  {
    var front := s[..LastSep(s)];
    RunsEmptyIff(front);
    hide Runs;
    assert forall k :: 0 <= k < |front| ==> s[k] == front[k];
  }

  lemma TopCut(s: string)
    requires LastSep(s) >= 0 && forall k :: 0 <= k <= LastSep(s) ==> IsSep(s[k])
    ensures Cut(s) != "" && AllSep(Cut(s)) && (|Cut(s)| == 2 <==> LastSep(s) == 1 || LastSep(s) == 2)
  {
  }
}
