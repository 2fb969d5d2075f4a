/** The integer parsers of `base/numbers`, with every intermediate result in range. */
module Numbers {
  import opened Bytes
  import opened Numerals

  /** Division as in C++: the quotient is truncated toward zero. */
  function TruncDiv(a: int, b: int): int
    requires b > 0
  {
    if a >= 0 then a / b else -(-a / b)
  }

  /** The remainder as in C++: it has the sign of the dividend. */
  function TruncMod(a: int, b: int): int
    requires b > 0
  {
    a - TruncDiv(a, b) * b
  }

  // Arithmetic in the integer type: the operands' callers show that nothing overflows.

  function Mul(w: Width, a: int, b: int): int
    requires w.Fits(a * b)
  {
    a * b
  }

  function Add(w: Width, a: int, b: int): int
    requires w.Fits(a + b)
  {
    a + b
  }

  function Sub(w: Width, a: int, b: int): int
    requires w.Fits(a - b)
  {
    a - b
  }

  lemma QuotientBound(x: int, y: int, b: int)
    requires b > 0 && x >= 0 && y >= 0
    ensures y <= x / b <==> y * b <= x
  {
    if y <= x / b {
      MulLe(y, x / b, b);
    } else {
      MulLe(x / b + 1, y, b);
    }
  }

  lemma MulLe(x: int, y: int, b: int)
    requires b >= 0 && x <= y
    ensures x * b <= y * b
  {
  }

  /** The quotient of a negative number, and the adjustment that never happens. */
  lemma NegativeQuotient(x: int, y: int, b: int)
    requires b > 0 && x <= 0 && y >= 0
    ensures TruncMod(x, b) <= 0
    ensures -y < TruncDiv(x, b) <==> -y * b < x
  {
    QuotientBound(-x, y, b);
    if x < 0 {
      assert -x == (-x / b) * b + (-x) % b;
    }
  }

  /** Once the digits read so far no longer fit, all of them do not. */
  lemma TooBig(s: string, base: nat, i: nat, w: Width)
    requires w.Lawful() && base >= 1 && i < |s| && i < DigitRun(s, base)
    requires Value(s[..i], base) * base + Digit(s[i]) > w.vmax
    ensures ParseDigits(s, base, false, w) == Parsed(false, w.vmax)
  {
    ValueStep(s, base, i);
    ValueGrows(s, base, i + 1, DigitRun(s, base));
  }

  lemma TooSmall(s: string, base: nat, i: nat, w: Width)
    requires w.Lawful() && base >= 1 && i < |s| && i < DigitRun(s, base)
    requires -(Value(s[..i], base) * base) - Digit(s[i]) < w.vmin
    ensures ParseDigits(s, base, true, w) == Parsed(false, w.vmin)
  {
    ValueStep(s, base, i);
    ValueGrows(s, base, i + 1, DigitRun(s, base));
  }

  lemma AllDigitsSoFar(s: string, base: nat, i: nat)
    requires i <= |s| && AllDigits(s[..i], base)
    ensures i < |s| && Digit(s[i]) < base ==> AllDigits(s[..i + 1], base) && i < DigitRun(s, base)
    ensures i == |s| || Digit(s[i]) >= base ==> i == DigitRun(s, base)
  {
    if i < |s| && Digit(s[i]) < base {
      forall k | 0 <= k < i
        ensures Digit(s[k]) < base
      {
        assert s[..i][k] == s[k];
      }
      var n := DigitRun(s, base);
      assert n < |s| ==> Digit(s[n]) >= base;
    } else {
      RunIsUnique(s, base, i);
    }
  }

  method SafeParsePositiveInt(text: string, base: nat, w: Width) returns (ok: bool, value: int)
    requires w.Lawful() && 2 <= base <= 36
    ensures Parsed(ok, value) == ParseDigits(text, base, false, w)
  {
    value := 0;
    var vmaxOverBase := w.vmax / base;
    var start := 0;
    while start < |text|
      invariant 0 <= start <= |text| && AllDigits(text[..start], base)
      invariant value == Value(text[..start], base) && w.Fits(value)
    {
      hide AllDigits, Value, ParseDigits, DigitRun;
      var digit := Digit(text[start]);
      AllDigitsSoFar(text, base, start);
      if digit >= base {
        PositiveStops(text, base, start, w);
        return false, value;
      }
      PositiveRound(text, base, start, w);
      if value > vmaxOverBase {
        return false, w.vmax;
      }
      value := Mul(w, value, base);
      if value > Sub(w, w.vmax, digit) {
        return false, w.vmax;
      }
      value := Add(w, value, digit);
      start := start + 1;
    }
    AllDigitsSoFar(text, base, start);
    PositiveStops(text, base, start, w);
    return true, value;
  }

  /** One more digit: the number is refused at once, or after the product, exactly when it no
      longer fits, and else nothing overflows. */
  lemma PositiveRound(s: string, base: nat, i: nat, w: Width)
    requires w.Lawful() && 2 <= base <= 36 && i < |s| && i < DigitRun(s, base) && Digit(s[i]) < base
    ensures var value: int := Value(s[..i], base);
            && w.Fits(w.vmax - Digit(s[i]))
            && (value > w.vmax / base ==> ParseDigits(s, base, false, w) == Parsed(false, w.vmax))
            && (value <= w.vmax / base ==>
                  && w.Fits(value * base)
                  && (value * base > w.vmax - Digit(s[i]) ==> ParseDigits(s, base, false, w) == Parsed(false, w.vmax))
                  && (value * base <= w.vmax - Digit(s[i]) ==>
                        && w.Fits(value * base + Digit(s[i]))
                        && value * base + Digit(s[i]) == Value(s[..i + 1], base)))
  {
    hide AllDigits, Value, ParseDigits, DigitRun;
    var v: int := Value(s[..i], base);
    ValueStep(s, base, i);
    QuotientBound(w.vmax, v, base);
    MulLe(0, v, base);
    if v * base + Digit(s[i]) > w.vmax {
      TooBig(s, base, i, w);
    }
  }

  lemma PositiveStops(s: string, base: nat, n: nat, w: Width)
    requires w.Lawful() && n == DigitRun(s, base) && w.Fits(Value(s[..n], base))
    ensures ParseDigits(s, base, false, w) == Parsed(n == |s|, Value(s[..n], base))
  {
  }

  method SafeParseNegativeInt(text: string, base: nat, w: Width) returns (ok: bool, value: int)
    requires w.Lawful() && w.Signed() && 2 <= base <= 36
    ensures Parsed(ok, value) == ParseDigits(text, base, true, w)
  {
    value := 0;
    var vminOverBase := TruncDiv(w.vmin, base);
    NegativeQuotient(w.vmin, 0, base);
    hide TruncDiv;
    if TruncMod(w.vmin, base) > 0 {
      vminOverBase := vminOverBase + 1;
    }
    var start := 0;
    while start < |text|
      invariant 0 <= start <= |text| && AllDigits(text[..start], base)
      invariant value == -(Value(text[..start], base) as int) && w.Fits(value)
    {
      hide AllDigits, Value, ParseDigits, DigitRun, TruncDiv;
      var digit := Digit(text[start]);
      AllDigitsSoFar(text, base, start);
      if digit >= base {
        NegativeStops(text, base, start, w);
        return false, value;
      }
      NegativeRound(text, base, start, w);
      if value < vminOverBase {
        return false, w.vmin;
      }
      value := Mul(w, value, base);
      if value < Add(w, w.vmin, digit) {
        return false, w.vmin;
      }
      value := Sub(w, value, digit);
      start := start + 1;
    }
    AllDigitsSoFar(text, base, start);
    NegativeStops(text, base, start, w);
    return true, value;
  }

  /** One more digit of a negative number: it is refused at once, or after the product, exactly
      when it no longer fits, and else nothing overflows. */
  lemma NegativeRound(s: string, base: nat, i: nat, w: Width)
    requires w.Lawful() && 2 <= base <= 36 && i < |s| && i < DigitRun(s, base) && Digit(s[i]) < base
    ensures var value := -(Value(s[..i], base) as int);
            && w.Fits(w.vmin + Digit(s[i]))
            && (value < TruncDiv(w.vmin, base) ==> ParseDigits(s, base, true, w) == Parsed(false, w.vmin))
            && (value >= TruncDiv(w.vmin, base) ==>
                  && w.Fits(value * base)
                  && (value * base < w.vmin + Digit(s[i]) ==> ParseDigits(s, base, true, w) == Parsed(false, w.vmin))
                  && (value * base >= w.vmin + Digit(s[i]) ==>
                        && w.Fits(value * base - Digit(s[i]))
                        && value * base - Digit(s[i]) == -(Value(s[..i + 1], base) as int)))
  {
    hide AllDigits, Value, ParseDigits, DigitRun, TruncDiv;
    var v: int := Value(s[..i], base);
    ValueStep(s, base, i);
    NegativeQuotient(w.vmin, v, base);
    NegatedProduct(v, base);
    if v * base + Digit(s[i]) > -w.vmin {
      TooSmall(s, base, i, w);
    }
  }

  lemma NegatedProduct(x: int, y: int)
    ensures -x * y == -(x * y)
  {
  }

  lemma NegativeStops(s: string, base: nat, n: nat, w: Width)
    requires w.Lawful() && n == DigitRun(s, base) && w.Fits(-(Value(s[..n], base) as int))
    ensures ParseDigits(s, base, true, w) == Parsed(n == |s|, -(Value(s[..n], base) as int))
  {
  }

  // Spaces, sign and base

  lemma TrimLeftStep(s: string, i: nat)
    requires i < |s|
    ensures TrimLeft(s[i..]) == if IsSpace(s[i]) then TrimLeft(s[i + 1..]) else s[i..]
  {
    assert s[i..][1..] == s[i + 1..];
  }

  lemma TrimRightStep(s: string, i: nat, j: nat)
    requires i < j <= |s|
    ensures TrimRight(s[i..j]) == if IsSpace(s[j - 1]) then TrimRight(s[i..j - 1]) else s[i..j]
  {
    assert s[i..j][..j - i - 1] == s[i..j - 1];
  }

  method TrimBounds(text: string) returns (start: nat, end: nat)
    ensures start <= end <= |text| && text[start..end] == Trim(text)
  {
    hide TrimLeft, TrimRight;
    start, end := 0, |text|;
    assert text[0..] == text;
    while start < end && IsSpace(text[start])
      invariant 0 <= start <= end && TrimLeft(text[start..]) == TrimLeft(text)
      decreases end - start
    {
      TrimLeftStep(text, start);
      start := start + 1;
    }
    TrimEnds(text, start);
    assert text[start..end] == text[start..];
    while start < end && IsSpace(text[end - 1])
      invariant start <= end <= |text| && TrimRight(text[start..end]) == TrimRight(text[start..])
      decreases end - start
    {
      TrimRightStep(text, start, end);
      end := end - 1;
    }
    if start < end {
      TrimRightStep(text, start, end);
    } else {
      TrimEmpty(text, start);
    }
  }

  lemma TrimEnds(s: string, i: nat)
    requires i <= |s| && (i < |s| ==> !IsSpace(s[i]))
    ensures TrimLeft(s[i..]) == s[i..]
  {
  }

  lemma TrimEmpty(s: string, i: nat)
    requires i <= |s|
    ensures TrimRight(s[i..i]) == s[i..i]
  {
  }

  /** The digits left of the text, the base settled on and the sign. */
  method SafeParseSignAndBase(text: string, requested: int) returns (ok: bool, digits: string, base: int, negative: bool)
    ensures ok <==> Split(text, requested).Some?
    ensures ok ==> base >= 0 && Split(text, requested) == Some(Numeral(negative, base, digits))
  {
    hide Trim;
    ok, digits, base, negative := false, text, requested, false;
    var start, end := TrimBounds(text);
    ghost var t := text[start..end];
    if start >= end {
      return;
    }
    negative := text[start] == '-';
    assert t[0] == text[start] && t[1..] == text[start + 1..end];
    if negative || text[start] == '+' {
      start := start + 1;
      if start >= end {
        return;
      }
    }
    ghost var u := text[start..end];
    assert u == if IsSign(t[0]) then t[1..] else t;
    SignAndBaseRest(text, start, end);
    if base == 0 {
      if end - start >= 2 && text[start] == '0' && (text[start + 1] == 'x' || text[start + 1] == 'X') {
        base := 16;
        start := start + 2;
        if start >= end {
          return;
        }
      } else if end - start >= 1 && text[start] == '0' {
        base := 8;
        start := start + 1;
      } else {
        base := 10;
      }
    } else if base == 16 {
      if end - start >= 2 && text[start] == '0' && (text[start + 1] == 'x' || text[start + 1] == 'X') {
        start := start + 2;
        if start >= end {
          return;
        }
      }
    } else if 2 <= base && base <= 36 {
    } else {
      return;
    }
    ok, digits := true, text[start..end];
  }

  lemma SignAndBaseRest(text: string, start: nat, end: nat)
    requires start < end <= |text|
    ensures var u := text[start..end];
            && u[0] == text[start] && u[1..] == text[start + 1..end]
            && (end - start >= 2 ==> u[1] == text[start + 1] && u[2..] == text[start + 2..end])
  {
  }

  method SafeIntInternal(text: string, base: int, w: Width) returns (ok: bool, value: int)
    requires w.Lawful() && w.Signed()
    ensures Parsed(ok, value) == Parse(text, base, w)
  {
    hide Split, ParseDigits;
    value := 0;
    var found, digits, b, negative := SafeParseSignAndBase(text, base);
    if !found {
      return false, value;
    }
    if !negative {
      ok, value := SafeParsePositiveInt(digits, b, w);
    } else {
      ok, value := SafeParseNegativeInt(digits, b, w);
    }
  }

  method SafeUintInternal(text: string, base: int, w: Width) returns (ok: bool, value: int)
    requires w.Lawful() && !w.Signed()
    ensures Parsed(ok, value) == Parse(text, base, w)
  {
    hide Split, ParseDigits;
    value := 0;
    var found, digits, b, negative := SafeParseSignAndBase(text, base);
    if !found || negative {
      return false, value;
    }
    ok, value := SafeParsePositiveInt(digits, b, w);
  }

  // Stray leading zeroes

  /** How many zeroes a text starts with. */
  function Zeroes(s: string): (n: nat)
    ensures n <= |s|
  {
    if s == "" || s[0] != '0' then 0 else 1 + Zeroes(s[1..])
  }

  /** The text without its leading zeroes, of which one stays if there is nothing else. */
  function WithoutZeroes(s: string): string {
    if s != "" && Zeroes(s) == |s| then "0" else s[Zeroes(s)..]
  }

  lemma {:induction false} ZeroesAre(s: string, k: nat)
    requires k <= |s| && forall i :: 0 <= i < k ==> s[i] == '0'
    ensures Zeroes(s) == k + Zeroes(s[k..])
  {
    if k > 0 {
      ZeroesAre(s[1..], k - 1);
      assert s[1..][k - 1..] == s[k..];
    } else {
      assert s[0..] == s;
    }
  }

  method ConsumeStrayLeadingZeroes(str: string) returns (r: string)
    ensures r == WithoutZeroes(str)
    ensures |r| <= 1 || r[0] != '0'
    ensures |r| <= |str| && r == str[|str| - |r|..] && forall i :: 0 <= i < |str| - |r| ==> str[i] == '0'
    ensures r == "" <==> str == ""
  {
    r := str;
    var len := |str|;
    if len > 1 && str[0] == '0' {
      var ptr := 1;
      while ptr != len && str[ptr] == '0'
        invariant 1 <= ptr <= len && forall i :: 0 <= i < ptr ==> str[i] == '0'
        decreases len - ptr
      {
        ptr := ptr + 1;
      }
      ZeroesAre(str, ptr);
      assert Zeroes(str) == ptr;
      var remove := ptr;
      if remove == len {
        remove := remove - 1;
      }
      r := str[remove..];
      assert remove == len - 1 ==> r == [str[len - 1]];
    }
  }
}
