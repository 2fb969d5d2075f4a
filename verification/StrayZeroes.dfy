/** When stripping leading zeroes leaves the base-10 reading of a text as it was
    (`ConsumeStrayLeadingZeroes` in `base/numbers`): not always. */
module StrayZeroes {
  import opened Bytes
  import opened Numerals
  import opened Numbers

  predicate OnlyZeroes(s: string) {
    forall i :: 0 <= i < |s| ==> s[i] == '0'
  }

  lemma {:induction false} ZeroesSplit(s: string)
    ensures OnlyZeroes(s[..Zeroes(s)])
    ensures Zeroes(s) < |s| ==> s[Zeroes(s)] != '0'
  {
    if s != "" && s[0] == '0' {
      ZeroesSplit(s[1..]);
      var n := Zeroes(s[1..]);
      forall i | 0 <= i < n + 1
        ensures s[i] == '0'
      {
        assert i > 0 ==> s[i] == s[1..][..n][i - 1];
      }
    }
  }

  lemma {:induction false} ZeroesAddNothing(z: string, u: string, base: nat)
    requires OnlyZeroes(z)
    ensures Value(z + u, base) == Value(u, base)
    decreases |u|, |z|
  {
    if u != "" {
      assert (z + u)[..|z + u| - 1] == z + u[..|u| - 1];
      ZeroesAddNothing(z, u[..|u| - 1], base);
    } else if z != "" {
      assert z + u == z;
      assert z[..|z| - 1] + "" == z[..|z| - 1];
      ZeroesAddNothing(z[..|z| - 1], "", base);
    } else {
      assert z + u == u;
    }
  }

  lemma RunAfterZeroes(z: string, u: string, base: nat)
    requires OnlyZeroes(z) && base >= 2
    ensures DigitRun(z + u, base) == |z| + DigitRun(u, base)
  {
    var n := |z| + DigitRun(u, base);
    forall i | 0 <= i < n
      ensures Digit((z + u)[i]) < base
    {
      assert i >= |z| ==> (z + u)[i] == u[..DigitRun(u, base)][i - |z|];
    }
    RunIsUnique(z + u, base, n);
  }

  lemma DigitsAfterZeroes(z: string, u: string, negative: bool, w: Width)
    requires OnlyZeroes(z)
    ensures ParseDigits(z + u, 10, negative, w) == ParseDigits(u, 10, negative, w)
  {
    RunAfterZeroes(z, u, 10);
    var n := DigitRun(u, 10);
    assert (z + u)[..|z| + n] == z + u[..n];
    ZeroesAddNothing(z, u[..n], 10);
  }

  lemma {:induction false} TrimRightAfter(a: string, b: string)
    requires a != "" && !IsSpace(a[|a| - 1])
    ensures TrimRight(a + b) == a + TrimRight(b)
  {
    if b != "" {
      assert (a + b)[..|a + b| - 1] == a + b[..|b| - 1];
      TrimRightAfter(a, b[..|b| - 1]);
    } else {
      assert a + b == a;
    }
  }

  /** A text read after zeroes is read as the digits of a number without a sign. */
  lemma AfterZeroes(z: string, u: string, w: Width)
    requires z != "" && OnlyZeroes(z)
    ensures Parse(z + u, 10, w) == ParseDigits(TrimRight(u), 10, false, w)
  {
    hide ParseDigits, Value, DigitRun;
    TrimRightAfter(z, u);
    DigitsAfterZeroes(z, TrimRight(u), false, w);
    assert Trim(z + u) == z + TrimRight(u);
  }

  /** A text that starts with neither a space nor a sign is read likewise. */
  lemma PlainText(u: string, w: Width)
    requires u != "" && !IsSpace(u[0]) && !IsSign(u[0])
    ensures Parse(u, 10, w) == ParseDigits(TrimRight(u), 10, false, w)
  {
    hide ParseDigits;
    assert [u[0]] + u[1..] == u;
    TrimRightAfter([u[0]], u[1..]);
  }

  lemma {:induction false} TrimRightAllSpace(u: string)
    ensures TrimRight(u) == "" <==> AllSpace(u)
  {
    if u != "" && IsSpace(u[|u| - 1]) {
      TrimRightAllSpace(u[..|u| - 1]);
      assert u == u[..|u| - 1] + [u[|u| - 1]];
    }
  }

  lemma TrimRightHead(u: string)
    requires TrimRight(u) != ""
    ensures u != "" && TrimRight(u)[0] == u[0]
  {
    var trail := TrimRightIsPrefix(u);
  }

  lemma TrimAllSpace(u: string)
    ensures Trim(u) == "" <==> AllSpace(u)
  {
    TrimRightAllSpace(TrimLeft(u));
    var lead := TrimLeftIsSuffix(u);
    assert TrimLeft(u) == u[|lead|..];
    assert AllSpace(u) ==> AllSpace(TrimLeft(u));
  }

  /** What starts with no digit is refused with value 0. */
  lemma JunkFirst(s: string, w: Width)
    requires w.Lawful() && s != "" && Digit(s[0]) >= 10
    ensures ParseDigits(s, 10, false, w) == Parsed(false, 0)
  {
    RunIsUnique(s, 10, 0);
  }

  predicate ZeroesThenJunk(s: string) {
    var n := Zeroes(s);
    n < |s| && Digit(s[n]) >= 10
  }

  lemma {:induction false} ZeroValue(s: string)
    requires AllDigits(s, 10)
    ensures Value(s, 10) == 0 <==> OnlyZeroes(s)
  {
    if s != "" {
      var front, last := s[..|s| - 1], s[|s| - 1];
      ZeroValue(front);
      assert s == front + [last];
      assert Digit(last) == 0 <==> last == '0';
    }
  }

  /** Digits are refused with value 0 exactly if they are zeroes followed by something else. */
  lemma RefusedAsZero(s: string, negative: bool, w: Width)
    requires w.Lawful() && (negative ==> w.Signed())
    ensures ParseDigits(s, 10, negative, w) == Parsed(false, 0) <==> ZeroesThenJunk(s)
  {
    var n := DigitRun(s, 10);
    ZeroValue(s[..n]);
    ZeroesSplit(s);
    RunOfZeroes(s);
  }

  lemma RunOfZeroes(s: string)
    ensures OnlyZeroes(s[..DigitRun(s, 10)]) && DigitRun(s, 10) < |s| <==> ZeroesThenJunk(s)
  {
    var n, z := DigitRun(s, 10), Zeroes(s);
    ZeroesSplit(s);
    if ZeroesThenJunk(s) {
      forall i | 0 <= i < z
        ensures Digit(s[i]) < 10
      {
        assert s[..z][i] == '0';
      }
      RunIsUnique(s, 10, z);
    }
    if OnlyZeroes(s[..n]) && n < |s| {
      forall i | 0 <= i < n
        ensures s[i] == '0'
      {
        assert s[..n][i] == '0';
      }
      ZeroesAre(s, n);
    }
  }

  /** The zeroes at the front can go: nothing but digits counts after them anyway. What must not
      follow them is a space or a sign that, once in front, no longer makes the text malformed. */
  predicate CanStrip(s: string, signed: bool) {
    var n := Zeroes(s);
    || n == 0
    || n == |s|
    || !(IsSpace(s[n]) || IsSign(s[n]))
    || (!AllSpace(s[n..]) && StillMalformed(Trim(s[n..]), signed))
  }

  predicate StillMalformed(t: string, signed: bool) {
    t != "" &&
    var d := if IsSign(t[0]) then t[1..] else t;
    d == "" || (t[0] == '-' && !signed) || ZeroesThenJunk(d)
  }

  lemma SignOrSpaceFirst(u: string, w: Width)
    requires w.Lawful() && u != "" && (IsSpace(u[0]) || IsSign(u[0])) && !AllSpace(u)
    ensures ParseDigits(TrimRight(u), 10, false, w) == Parsed(false, 0)
    ensures Parse(u, 10, w) == Parsed(false, 0) <==> StillMalformed(Trim(u), w.Signed())
  {
    TrimRightAllSpace(u);
    TrimRightHead(u);
    JunkFirst(TrimRight(u), w);
    TrimAllSpace(u);
    hide Trim, TrimRight, AllSpace, ParseDigits;
    var t := Trim(u);
    var d := if IsSign(t[0]) then t[1..] else t;
    if d != "" && !(t[0] == '-' && !w.Signed()) {
      RefusedAsZero(d, t[0] == '-', w);
    }
  }

  /** Stripping the leading zeroes leaves the base-10 reading of `s` unchanged if and only if
      they are not followed by a space or a sign, or the rest is malformed by itself. */
  lemma StrippingIsHarmlessIff(s: string, w: Width)
    requires w.Lawful()
    ensures Parse(WithoutZeroes(s), 10, w) == Parse(s, 10, w) <==> CanStrip(s, w.Signed())
  {
    var n := Zeroes(s);
    var z, u := s[..n], s[n..];
    ZeroesSplit(s);
    assert s == z + u;
    hide Parse, ParseDigits, Trim, TrimRight, StillMalformed, Zeroes;
    if n == 0 {
      assert s[0..] == s;
    } else if n == |s| {
      AfterZeroes(z, u, w);
      assert "0" + u == "0";
      AfterZeroes("0", u, w);
    } else {
      AfterZeroes(z, u, w);
      StrippedRest(u, w);
    }
  }

  lemma StrippedRest(u: string, w: Width)
    requires w.Lawful() && u != ""
    ensures Parse(u, 10, w) == ParseDigits(TrimRight(u), 10, false, w) <==>
            || !(IsSpace(u[0]) || IsSign(u[0]))
            || (!AllSpace(u) && StillMalformed(Trim(u), w.Signed()))
  {
    if !(IsSpace(u[0]) || IsSign(u[0])) {
      PlainText(u, w);
    } else if AllSpace(u) {
      TrimRightAllSpace(u);
      TrimAllSpace(u);
    } else {
      hide Parse, ParseDigits, Trim, TrimRight, StillMalformed, AllSpace;
      SignOrSpaceFirst(u, w);
    }
  }

  /** "0-5" is refused, and "-5" is not. */
  lemma StrippingCanChange()
    ensures Parse("0-5", 10, INT32) != Parse(WithoutZeroes("0-5"), 10, INT32)
    ensures Parse("0  ", 10, INT32) != Parse(WithoutZeroes("0  "), 10, INT32)
  {
    hide Parse;
    StrippingIsHarmlessIff("0-5", INT32);
    StrippingIsHarmlessIff("0  ", INT32);
    ZeroesAre("0-5", 1);
    ZeroesAre("0  ", 1);
    assert "0-5"[1..] == "-5" && "0  "[1..] == "  ";
    assert TrimLeft("-5") == "-5" && TrimRight("-5") == "-5";
    assert "-5"[1..] == "5" && Zeroes("5") == 0;
  }
}
