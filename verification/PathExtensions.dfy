/** Extensions in `base/file_path`: where they start, and removing and adding them back. */
module PathExtensions {
  import opened PathAlgebra

  function ToLower(c: char): char {
    if 'A' <= c <= 'Z' then c - 'A' + 'a' else c
  }

  predicate LowerEquals(s: string, lower: string) {
    |s| == |lower| && forall i :: 0 <= i < |s| ==> ToLower(s[i]) == lower[i]
  }

  predicate IsCommonDouble(ext: string) {
    LowerEquals(ext, "gz") || LowerEquals(ext, "z") || LowerEquals(ext, "bz2")
  }

  /** `ExtensionSeparatorPosition`, or -1 for none: the last dot, or the one before it for
      extensions like ".tar.gz". */
  function ExtPos(p: string): (i: int)
    ensures -1 <= i < |p|
  {
    if p == CURRENT || p == PARENT then -1
    else
      var d := LastOf(p, DOT);
      if d <= 0 then d
      else if !IsCommonDouble(p[d + 1..]) then d
      else
        var penultimate := LastOf(p[..d], DOT);
        var separator := LastSep(p[..d]);
        if penultimate >= 0 && (separator < 0 || penultimate > separator) && 1 < d - penultimate <= 5
        then penultimate else d
  }

  function Extension(p: string): string {
    var b := Base(p);
    var d := ExtPos(b);
    if d < 0 then "" else b[d..]
  }

  function RemoveExtension(p: string): string {
    if Extension(p) == "" then p
    else
      var d := ExtPos(p);
      if d < 0 then p else p[..d]
  }

  lemma LastOfIs(p: string, c: char, i: int)
    requires -1 <= i < |p| && (i >= 0 ==> p[i] == c)
    requires forall k :: i < k < |p| ==> p[k] != c
    ensures LastOf(p, c) == i
  {
    NoneBehindLastOf(p, c);
  }

  /** The last dot of a path, searched from a cut inside its base name. */
  lemma LastDotShifted(p: string, j: int, n: int)
    requires 0 <= j <= j + n <= |p|
    ensures var b := p[j..];
            && (LastOf(b[..n], DOT) >= 0 ==> LastOf(p[..j + n], DOT) == j + LastOf(b[..n], DOT))
            && (LastOf(b[..n], DOT) < 0 ==> LastOf(p[..j + n], DOT) < j)
  {
    var b := p[j..];
    var front, whole := b[..n], p[..j + n];
    NoneBehindLastOf(front, DOT);
    NoneBehindLastOf(whole, DOT);
    assert forall k :: 0 <= k < n ==> front[k] == whole[j + k];
    if LastOf(front, DOT) >= 0 {
      var i := j + LastOf(front, DOT);
      assert forall k :: i < k < |whole| ==> whole[k] == front[k - j];
      LastOfIs(whole, DOT, i);
    }
  }

  lemma LastSepShifted(p: string, j: int, n: int)
    requires 0 <= j <= j + n <= |p| && j == LastSep(p) + 1
    ensures LastSep(p[j..][..n]) == -1
    ensures LastSep(p[..j + n]) == j - 1
  {
    NoneBehindLastOf(p, SEPARATOR);
    var front, whole := p[j..][..n], p[..j + n];
    assert forall k :: 0 <= k < n ==> front[k] == p[j + k];
    LastSepIs(front, -1);
    LastSepIs(whole, j - 1);
  }

  /** The dot found in the whole path is the dot found in its base name. */
  lemma ExtPosShifted(p: string)
    requires ExtPos(p[LastSep(p) + 1..]) >= 0
    ensures ExtPos(p) == LastSep(p) + 1 + ExtPos(p[LastSep(p) + 1..])
  {
    var j := LastSep(p) + 1;
    var b := p[j..];
    var d := LastOf(b, DOT);
    assert b[..|b|] == b && p[..|p|] == p;
    LastDotShifted(p, j, |b|);
    NotDots(p);
    assert LastOf(p, DOT) == j + d;
    LastDotShifted(p, j, d);
    LastSepShifted(p, j, d);
    assert p[j + d + 1..] == b[d + 1..];
    hide LastOf, LastSep, IsCommonDouble;
    PenultimateAgrees(p, b, j, d);
  }

  /** "." and ".." are their own base names, and have no extension. */
  lemma NotDots(p: string)
    ensures (p == CURRENT || p == PARENT) ==> ExtPos(p[LastSep(p) + 1..]) < 0
  {
    if p == CURRENT || p == PARENT {
      LastSepIs(p, -1);
      assert p[0..] == p;
    }
  }

  lemma PenultimateAgrees(p: string, b: string, j: int, d: int)
    requires 0 <= j && |p| == j + |b| && 0 <= d < |b|
    requires p != CURRENT && p != PARENT && b != CURRENT && b != PARENT
    requires LastOf(b, DOT) == d && LastOf(p, DOT) == j + d && p[j + d + 1..] == b[d + 1..]
    requires LastSep(b[..d]) == -1 && LastSep(p[..j + d]) == j - 1
    requires LastOf(b[..d], DOT) >= 0 ==> LastOf(p[..j + d], DOT) == j + LastOf(b[..d], DOT)
    requires LastOf(b[..d], DOT) < 0 ==> LastOf(p[..j + d], DOT) < j
    ensures ExtPos(p) == j + ExtPos(b)
  {
    hide LastOf, IsCommonDouble;
  }

  /** Main result: removing the extension and adding it back is the identity exactly on
      paths without trailing separators or without an extension. */
  lemma RemoveThenAddExtensionIff(p: string)
    ensures RemoveExtension(p) + Extension(p) == p <==> Strip(p) == p || Extension(p) == ""
  {
    hide Strip, Base, Extension, RemoveExtension, ExtPos;
    if Extension(p) == "" {
      NothingToRemove(p);
    } else if Strip(p) == p {
      RemovedFromTail(p);
    } else {
      TrailingSeparatorLost(p);
    }
  }

  lemma NothingToRemove(p: string)
    requires Extension(p) == ""
    ensures RemoveExtension(p) + Extension(p) == p
  {
  }

  lemma RemovedFromTail(p: string)
    requires Extension(p) != "" && Strip(p) == p
    ensures RemoveExtension(p) + Extension(p) == p
  {
    hide ExtPos, LastSep, Strip, Base;
    BaseWithDot(p);
    ExtPosShifted(p);
    SplitInTail(p, LastSep(p) + 1, ExtPos(Base(p)));
  }

  lemma TrailingSeparatorLost(p: string)
    requires Extension(p) != "" && Strip(p) != p
    ensures RemoveExtension(p) + Extension(p) != p
  {
    hide Strip, Base, Extension, RemoveExtension, ExtPos;
    BaseWithDot(p);
    EndsInSeparator(p);
    EndsDiffer(p, RemoveExtension(p), Extension(p));
  }

  lemma EndsInSeparator(p: string)
    requires Strip(p) != p
    ensures p != "" && IsSep(p[|p| - 1])
  {
    StripDropsSeparators(p);
    hide Strip;
    assert |Strip(p)| < |p|;
  }

  lemma SplitInTail(p: string, j: int, d: int)
    requires 0 <= j && 0 <= d && j + d <= |p|
    ensures p[..j + d] + p[j..][d..] == p
  {
  }

  lemma EndsDiffer(p: string, front: string, e: string)
    requires p != "" && IsSep(p[|p| - 1]) && e != "" && !IsSep(e[|e| - 1])
    ensures front + e != p
  {
    assert (front + e)[|front + e| - 1] == e[|e| - 1];
  }

  /** A base name with an extension is the last run, and ends in no separator. */
  lemma BaseWithDot(p: string)
    requires Extension(p) != ""
    ensures var s := Strip(p);
            && Base(p) == s[LastSep(s) + 1..] && ExtPos(Base(p)) >= 0
            && Base(p) != "" && !IsSep(Base(p)[|Base(p)| - 1]) && !IsSep(Extension(p)[|Extension(p)| - 1])
  {
    if AllSep(p) {
      if p == "" {
        LastOfIs(Base(p), DOT, -1);
      } else {
        DirOfSeparators(p);
        LastOfIs(Base(p), DOT, -1);
      }
    } else {
      NameWithDot(p);
    }
  }

  lemma NameWithDot(p: string)
    requires Extension(p) != "" && !AllSep(p)
    ensures var s := Strip(p);
            && Base(p) == s[LastSep(s) + 1..] && ExtPos(Base(p)) >= 0
            && Base(p) != "" && !IsSep(Base(p)[|Base(p)| - 1]) && !IsSep(Extension(p)[|Extension(p)| - 1])
  {
    hide Runs, Strip, LastOf, ExtPos, AllSep;
    StripOfRun(p);
    var s := Strip(p);
    LastRun(s);
    assert s[0..] == s;
  }

  /** "a.b/" comes back as "a.b". */
  lemma SlashIsLost()
    ensures RemoveExtension("a.b/") + Extension("a.b/") != "a.b/"
  {
    assert Strip("a.b/") == "a.b" by {
      assert "a.b/"[..3] == "a.b";
      assert TrimEnd("a.b") == "a.b";
    }
    assert Base("a.b/") == "a.b" by {
      LastSepIs("a.b", -1);
    }
    assert ExtPos("a.b") == 1 by {
      LastOfIs("a.b", DOT, 1);
      assert "a.b"[..1] == "a";
      LastOfIs("a", DOT, -1);
    }
    RemoveThenAddExtensionIff("a.b/");
  }

  // Which dot starts the extension of a name.

  predicate Plain(s: string) {
    DOT !in s && SEPARATOR !in s
  }

  /** The suffixes that make an extension double, in any case. */
  lemma DoublesAre(ext: string)
    ensures IsCommonDouble(ext) <==>
            || ext == "gz" || ext == "gZ" || ext == "Gz" || ext == "GZ" || ext == "z" || ext == "Z"
            || ext == "bz2" || ext == "bZ2" || ext == "Bz2" || ext == "BZ2"
  {
  }

  lemma NoExtension(name: string)
    requires DOT !in name || name == CURRENT || name == PARENT
    ensures ExtPos(name) == -1
  {
    if DOT !in name {
      LastOfIs(name, DOT, -1);
    }
  }

  lemma LastDotOf(stem: string, ext: string)
    requires DOT !in ext
    ensures LastOf(stem + "." + ext, DOT) == |stem| && (stem + "." + ext)[|stem| + 1..] == ext
    ensures (stem + "." + ext)[..|stem|] == stem
  {
    LastOfIs(stem + "." + ext, DOT, |stem|);
  }

  /** An ordinary extension starts at the last dot. */
  lemma OrdinaryExtension(stem: string, ext: string)
    requires Plain(ext) && !IsCommonDouble(ext) && stem + "." + ext != CURRENT && stem + "." + ext != PARENT
    ensures ExtPos(stem + "." + ext) == |stem|
  {
    LastDotOf(stem, ext);
    hide LastOf, IsCommonDouble;
  }

  /** So does a compressed one with no extension before it. */
  lemma CompressedOnly(stem: string, ext: string)
    requires Plain(ext) && IsCommonDouble(ext) && DOT !in stem
    ensures ExtPos(stem + "." + ext) == |stem|
  {
    LastDotOf(stem, ext);
    LastOfIs(stem, DOT, -1);
    hide LastOf;
  }

  lemma SepBefore(stem: string, inner: string)
    requires SEPARATOR !in inner
    ensures LastSep(stem + "." + inner) < |stem|
  {
    var s := stem + "." + inner;
    forall k | |stem| <= k < |s|
      ensures s[k] != SEPARATOR
    {
      assert k > |stem| ==> s[k] in inner;
    }
  }

  /** A compressed extension takes the one before it along if that has one to four characters. */
  lemma DoubleExtension(stem: string, inner: string, ext: string)
    requires Plain(inner) && Plain(ext) && IsCommonDouble(ext)
    ensures ExtPos(stem + "." + inner + "." + ext) == if 1 <= |inner| <= 4 then |stem| else |stem| + 1 + |inner|
  {
    var front := stem + "." + inner;
    LastDotOf(front, ext);
    LastDotOf(stem, inner);
    assert LastSep(front) <= |stem| by {
      SepBefore(stem, inner);
    }
    assert |front + "." + ext| > 2 || ext == "z" || ext == "Z";
    hide LastOf;
  }
}
