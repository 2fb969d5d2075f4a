/** What an integer text denotes, and what the parsers of `base/numbers` make of it. */
module Numerals {
  import opened Bytes

  /** The range of the integer type parsed into. */
  datatype Width = Width(vmin: int, vmax: int) {
    /** A two's-complement or an unsigned type with room for any digit and base. */
    predicate Lawful() {
      vmax >= 36 && (vmin == 0 || vmin == -vmax - 1)
    }

    predicate Signed() {
      vmin < 0
    }

    predicate Fits(v: int) {
      vmin <= v <= vmax
    }
  }

  const INT32 := Width(-0x8000_0000, 0x7fff_ffff)
  const INT64 := Width(-0x8000_0000_0000_0000, 0x7fff_ffff_ffff_ffff)
  const UINT32 := Width(0, 0xffff_ffff)
  const UINT64 := Width(0, 0xffff_ffff_ffff_ffff)

  /** The types the parsers are instantiated with, and their ranges. */
  lemma WidthsInUse(v: int)
    ensures INT32.Lawful() && INT64.Lawful() && UINT32.Lawful() && UINT64.Lawful()
    ensures INT32.Signed() && INT64.Signed() && !UINT32.Signed() && !UINT64.Signed()
    ensures UINT32.Fits(v) ==> INT64.Fits(v)
    ensures INT32.Fits(v) && UINT32.Fits(v) <==> 0 <= v < 0x8000_0000
  {
  }

  predicate IsSpace(c: char) {
    c == ' ' || 9 as char <= c <= 13 as char
  }

  predicate IsSign(c: char) {
    c == '-' || c == '+'
  }

  /** The digit value of a character in bases up to 36; 36 for what is no digit. */
  function Digit(c: char): (d: int)
    ensures 0 <= d <= 36
  {
    if '0' <= c <= '9' then c as int - '0' as int
    else if 'A' <= c <= 'Z' then c as int - 'A' as int + 10
    else if 'a' <= c <= 'z' then c as int - 'a' as int + 10
    else 36
  }

  predicate AllDigits(s: string, base: int) {
    forall i :: 0 <= i < |s| ==> Digit(s[i]) < base
  }

  /** The value of a digit string, most significant digit first. */
  function Value(s: string, base: nat): nat {
    if s == "" then 0 else Value(s[..|s| - 1], base) * base + Digit(s[|s| - 1])
  }

  /** How many characters are digits before the first that is not. */
  function DigitRun(s: string, base: int): (n: nat)
    ensures n <= |s| && AllDigits(s[..n], base)
    ensures n < |s| ==> Digit(s[n]) >= base
  {
    if s == "" || Digit(s[0]) >= base then 0
    else
      var n := 1 + DigitRun(s[1..], base);
      assert s[..n] == [s[0]] + s[1..][..n - 1];
      n
  }

  lemma RunIsUnique(s: string, base: int, n: nat)
    requires n <= |s| && AllDigits(s[..n], base)
    requires n < |s| ==> Digit(s[n]) >= base
    ensures n == DigitRun(s, base)
  {
  }

  lemma ValueStep(s: string, base: nat, i: nat)
    requires i < |s|
    ensures Value(s[..i + 1], base) == Value(s[..i], base) * base + Digit(s[i])
  {
    assert s[..i + 1][..i] == s[..i];
  }

  lemma {:induction false} ValueGrows(s: string, base: nat, i: nat, j: nat)
    requires i <= j <= |s| && base >= 1
    ensures Value(s[..i], base) <= Value(s[..j], base)
    decreases j
  {
    if i < j {
      ValueGrows(s, base, i, j - 1);
      ValueStep(s, base, j - 1);
      TimesAtLeast(Value(s[..j - 1], base), base);
    }
  }

  lemma TimesAtLeast(x: nat, b: nat)
    requires b >= 1
    ensures x * b >= x
  {
  }

  datatype Parsed = Parsed(ok: bool, value: int)

  /** Parsing digits of a number with the given sign: the value of the digits before the first
      character that is none, unless it does not fit. */
  function ParseDigits(s: string, base: nat, negative: bool, w: Width): Parsed {
    var n := DigitRun(s, base);
    var v: int := Value(s[..n], base);
    if negative then
      if -v < w.vmin then Parsed(false, w.vmin) else Parsed(n == |s|, -v)
    else
      if v > w.vmax then Parsed(false, w.vmax) else Parsed(n == |s|, v)
  }

  // Spaces, sign and base

  function TrimLeft(s: string): string {
    if s != "" && IsSpace(s[0]) then TrimLeft(s[1..]) else s
  }

  function TrimRight(s: string): string {
    if s != "" && IsSpace(s[|s| - 1]) then TrimRight(s[..|s| - 1]) else s
  }

  function Trim(s: string): string {
    TrimRight(TrimLeft(s))
  }

  predicate AllSpace(s: string) {
    forall i :: 0 <= i < |s| ==> IsSpace(s[i])
  }

  datatype Numeral = Numeral(negative: bool, base: nat, digits: string)

  predicate HexMark(s: string) {
    |s| >= 2 && s[0] == '0' && (s[1] == 'x' || s[1] == 'X')
  }

  /** Sign, base and digits of a text; none if the text or the base is malformed. */
  function Split(text: string, base: int): (n: Option<Numeral>)
    ensures n.Some? ==> 2 <= n.value.base <= 36
  {
    var t := Trim(text);
    if t == "" then None
    else
      var u := if IsSign(t[0]) then t[1..] else t;
      if u == "" then None else SplitBase(u, t[0] == '-', base)
  }

  function SplitBase(u: string, negative: bool, base: int): (n: Option<Numeral>)
    requires u != ""
    ensures n.Some? ==> 2 <= n.value.base <= 36
  {
    if (base == 0 || base == 16) && HexMark(u) then
      if |u| == 2 then None else Some(Numeral(negative, 16, u[2..]))
    else if base == 0 then
      if u[0] == '0' then Some(Numeral(negative, 8, u[1..])) else Some(Numeral(negative, 10, u))
    else if 2 <= base <= 36 then Some(Numeral(negative, base, u))
    else None
  }

  function Parse(text: string, base: int, w: Width): Parsed {
    match Split(text, base)
    case None => Parsed(false, 0)
    case Some(n) => if n.negative && !w.Signed() then Parsed(false, 0) else ParseDigits(n.digits, n.base, n.negative, w)
  }

  // The same as a grammar: which texts denote which numbers.

  /** `prefix` announces `digits` to be in base `b`, when base `base` is asked for. */
  predicate Announces(base: int, prefix: string, b: int, digits: string) {
    || ((base == 0 || base == 16) && (prefix == "0x" || prefix == "0X") && b == 16 && digits != "")
    || (base == 0 && prefix == "0" && b == 8)
    || (base == 0 && prefix == "" && b == 10 && digits != "" && digits[0] != '0')
    || (2 <= base <= 36 && prefix == "" && b == base && digits != "")
  }

  function SignOf(sign: string): int {
    if sign == "-" then -1 else 1
  }

  ghost predicate Reads(text: string, lead: string, sign: string, prefix: string, digits: string, trail: string) {
    text == lead + (sign + (prefix + digits)) + trail && AllSpace(lead) && AllSpace(trail)
  }

  /** `text` denotes `v`: spaces, an optional sign, an announced base, digits, spaces. A minus
      sign is not part of an unsigned number. */
  ghost predicate Denotes(text: string, base: int, signed: bool, v: int) {
    exists lead, sign, prefix, digits, trail, b: nat ::
      && Reads(text, lead, sign, prefix, digits, trail)
      && (sign == "" || sign == "+" || (sign == "-" && signed))
      && Announces(base, prefix, b, digits)
      && AllDigits(digits, b)
      && v == SignOf(sign) * Value(digits, b)
  }

  // Trimming

  lemma {:induction false} TrimLeftSkips(lead: string, s: string)
    requires AllSpace(lead) && (s == "" || !IsSpace(s[0]))
    ensures TrimLeft(lead + s) == s
  {
    if lead == "" {
      assert lead + s == s;
    } else {
      assert (lead + s)[1..] == lead[1..] + s;
      TrimLeftSkips(lead[1..], s);
    }
  }

  lemma {:induction false} TrimRightSkips(s: string, trail: string)
    requires AllSpace(trail) && (s == "" || !IsSpace(s[|s| - 1]))
    ensures TrimRight(s + trail) == s
  {
    if trail == "" {
      assert s + trail == s;
    } else {
      assert (s + trail)[..|s + trail| - 1] == s + trail[..|trail| - 1];
      TrimRightSkips(s, trail[..|trail| - 1]);
    }
  }

  lemma {:induction false} TrimLeftIsSuffix(s: string) returns (lead: string)
    ensures AllSpace(lead) && s == lead + TrimLeft(s)
    ensures TrimLeft(s) == "" || !IsSpace(TrimLeft(s)[0])
  {
    lead := "";
    if s != "" && IsSpace(s[0]) {
      lead := TrimLeftIsSuffix(s[1..]);
      lead := [s[0]] + lead;
    }
  }

  lemma {:induction false} TrimRightIsPrefix(s: string) returns (trail: string)
    ensures AllSpace(trail) && s == TrimRight(s) + trail
    ensures TrimRight(s) == "" || !IsSpace(TrimRight(s)[|TrimRight(s)| - 1])
  {
    trail := "";
    if s != "" && IsSpace(s[|s| - 1]) {
      trail := TrimRightIsPrefix(s[..|s| - 1]);
      trail := trail + [s[|s| - 1]];
    }
  }

  lemma TrimFinds(lead: string, core: string, trail: string)
    requires AllSpace(lead) && AllSpace(trail)
    requires core != "" && !IsSpace(core[0]) && !IsSpace(core[|core| - 1])
    ensures Trim(lead + core + trail) == core
  {
    assert lead + core + trail == lead + (core + trail);
    TrimLeftSkips(lead, core + trail);
    TrimRightSkips(core, trail);
  }

  lemma TrimSplits(s: string) returns (lead: string, trail: string)
    ensures AllSpace(lead) && AllSpace(trail) && s == lead + Trim(s) + trail
    ensures Trim(s) != "" ==> !IsSpace(Trim(s)[0]) && !IsSpace(Trim(s)[|Trim(s)| - 1])
  {
    lead := TrimLeftIsSuffix(s);
    trail := TrimRightIsPrefix(TrimLeft(s));
    assert Trim(s) + trail == TrimLeft(s);
    assert Trim(s) != "" ==> TrimLeft(s)[0] == Trim(s)[0];
    assert lead + (Trim(s) + trail) == lead + Trim(s) + trail;
  }

  // The grammar and the parser agree.

  lemma DigitsAreDense(c: char, b: int)
    requires Digit(c) < b <= 36
    ensures !IsSpace(c) && !IsSign(c)
  {
  }

  /** The announced base is the one the parser finds. */
  lemma AnnouncedIsFound(base: int, prefix: string, b: nat, digits: string, negative: bool)
    requires Announces(base, prefix, b, digits) && AllDigits(digits, b)
    ensures prefix + digits != ""
    ensures SplitBase(prefix + digits, negative, base) == Some(Numeral(negative, b, digits))
  {
    var u := prefix + digits;
    assert |prefix| == 2 ==> u[2..] == digits;
    assert |prefix| == 1 ==> u[1..] == digits;
    assert |prefix| == 0 ==> u == digits;
    assert |u| >= 2 && |prefix| == 1 ==> u[1] == digits[0];
    assert HexMark(u) ==> |prefix| == 2 || b > 33 || b == base;
  }

  lemma FoundIsAnnounced(base: int, u: string, negative: bool) returns (prefix: string)
    requires u != "" && SplitBase(u, negative, base).Some?
    ensures var n := SplitBase(u, negative, base).value;
            u == prefix + n.digits && n.negative == negative && Announces(base, prefix, n.base, n.digits)
  {
    var n := SplitBase(u, negative, base).value;
    prefix := u[..|u| - |n.digits|];
    if |prefix| == 2 {
      assert prefix == [u[0], u[1]];
    }
  }

  /** An announced numeral neither starts nor ends with a space, nor starts with a sign. */
  lemma NumeralEnds(base: int, prefix: string, b: nat, digits: string)
    requires Announces(base, prefix, b, digits) && AllDigits(digits, b)
    ensures var u := prefix + digits;
            u != "" && !IsSpace(u[0]) && !IsSign(u[0]) && !IsSpace(u[|u| - 1])
  {
    if prefix == "" {
      DigitsAreDense(digits[0], b);
    }
    if digits != "" {
      DigitsAreDense(digits[|digits| - 1], b);
    }
  }

  lemma SplitNumeral(base: int, lead: string, sign: string, prefix: string, b: nat, digits: string, trail: string)
    requires AllSpace(lead) && AllSpace(trail) && (sign == "" || sign == "+" || sign == "-")
    requires Announces(base, prefix, b, digits) && AllDigits(digits, b)
    ensures Split(lead + (sign + (prefix + digits)) + trail, base) == Some(Numeral(sign == "-", b, digits))
  {
    NumeralEnds(base, prefix, b, digits);
    AnnouncedIsFound(base, prefix, b, digits, sign == "-");
    hide SplitBase, Announces, AllDigits, Trim;
    SplitSigned(base, lead, sign, prefix + digits, trail);
  }

  /** A sign is taken off, and the rest split by its base. */
  lemma SplitSigned(base: int, lead: string, sign: string, u: string, trail: string)
    requires AllSpace(lead) && AllSpace(trail) && (sign == "" || sign == "+" || sign == "-")
    requires u != "" && !IsSpace(u[0]) && !IsSign(u[0]) && !IsSpace(u[|u| - 1])
    ensures Split(lead + (sign + u) + trail, base) == SplitBase(u, sign == "-", base)
  {
    hide SplitBase, Trim, AllSpace;
    var core := sign + u;
    if sign == "" {
      assert core == u;
    } else {
      assert core[1..] == u && core[0] == sign[0] && core[|core| - 1] == u[|u| - 1];
    }
    TrimFinds(lead, core, trail);
  }

  lemma WholeRun(s: string, base: nat)
    requires AllDigits(s, base)
    ensures DigitRun(s, base) == |s| && s[..DigitRun(s, base)] == s
  {
    assert s[..|s|] == s;
    RunIsUnique(s, base, |s|);
  }

  function Clamp(w: Width, v: int): int {
    if v < w.vmin then w.vmin else if v > w.vmax then w.vmax else v
  }

  /** A text that denotes a number is parsed as that number if it fits, and otherwise refused
      with the nearest number that does. */
  lemma DenotedIsParsed(text: string, base: int, w: Width, v: int)
    requires w.Lawful() && Denotes(text, base, w.Signed(), v)
    ensures Parse(text, base, w) == Parsed(w.Fits(v), Clamp(w, v))
  {
    var lead, sign, prefix, digits, trail, b: nat :|
      && Reads(text, lead, sign, prefix, digits, trail)
      && (sign == "" || sign == "+" || (sign == "-" && w.Signed()))
      && Announces(base, prefix, b, digits)
      && AllDigits(digits, b)
      && v == SignOf(sign) * Value(digits, b);
    SplitNumeral(base, lead, sign, prefix, b, digits, trail);
    WholeRun(digits, b);
    hide Split, Announces, AllDigits, Value;
    assert Parse(text, base, w) == ParseDigits(digits, b, sign == "-", w);
  }

  /** A split text can be put together again. */
  lemma SplitReads(text: string, base: int) returns (lead: string, sign: string, prefix: string, trail: string)
    requires Split(text, base).Some?
    ensures var n := Split(text, base).value;
            && Reads(text, lead, sign, prefix, n.digits, trail) && Announces(base, prefix, n.base, n.digits)
            && sign == (if n.negative then "-" else sign) && (sign == "" || sign == "+" || n.negative)
  {
    lead, trail := TrimSplits(text);
    var t := Trim(text);
    hide Trim, Announces;
    sign := if IsSign(t[0]) then [t[0]] else "";
    var u := if IsSign(t[0]) then t[1..] else t;
    prefix := FoundIsAnnounced(base, u, t[0] == '-');
    hide SplitBase;
    assert t == sign + u;
  }

  function WithSign(negative: bool, v: int): int {
    if negative then -v else v
  }

  lemma AcceptedDigits(s: string, base: nat, negative: bool, w: Width)
    requires w.Lawful() && ParseDigits(s, base, negative, w).ok
    ensures AllDigits(s, base)
    ensures ParseDigits(s, base, negative, w).value == WithSign(negative, Value(s, base))
    ensures w.Fits(ParseDigits(s, base, negative, w).value) || (negative && !w.Signed())
  {
    hide AllDigits, Value, DigitRun;
    assert DigitRun(s, base) == |s|;
    assert s[..|s|] == s;
  }

  /** What is parsed successfully is denoted by the text, and fits. */
  lemma ParsedIsDenoted(text: string, base: int, w: Width)
    requires w.Lawful() && Parse(text, base, w).ok
    ensures w.Fits(Parse(text, base, w).value)
    ensures Denotes(text, base, w.Signed(), Parse(text, base, w).value)
  {
    var n := Split(text, base).value;
    var lead, sign, prefix, trail := SplitReads(text, base);
    AcceptedDigits(n.digits, n.base, n.negative, w);
    hide Split, Reads, Announces, AllDigits, Value, ParseDigits;
    assert Parse(text, base, w) == ParseDigits(n.digits, n.base, n.negative, w);
    assert Reads(text, lead, sign, prefix, n.digits, trail) && Announces(base, prefix, n.base, n.digits);
  }

  // The tables of the source.

  const DECIMALS := "0123456789"
  const CAPITALS := "ABCDEFGHIJKLMNOPQRSTUVWXYZ"
  const SMALLS := "abcdefghijklmnopqrstuvwxyz"

  /** The digits in their order, and the letters, in either case, behind them. */
  lemma DecimalAt(d: nat)
    requires d < 10
    ensures Digit(DECIMALS[d]) == d
  {
  }

  lemma CapitalAt(d: nat)
    requires d < 26
    ensures Digit(CAPITALS[d]) == 10 + d
  {
  }

  lemma SmallAt(d: nat)
    requires d < 26
    ensures Digit(SMALLS[d]) == 10 + d
  {
  }

  /** No other character is a digit. */
  lemma OnlyDigits(c: char)
    ensures Digit(c) < 36 <==> '0' <= c <= '9' || 'A' <= c <= 'Z' || 'a' <= c <= 'z'
  {
  }

  lemma SpacesAre(c: char)
    ensures IsSpace(c) <==> c in " \t\n\U{0B}\U{0C}\r"
  {
  }

  function Gap(a: int, b: int): nat {
    if a < b then b - a else a - b
  }

  /** What does not fit is replaced with the number nearest to it that does. */
  lemma ClampIsNearest(w: Width, v: int, u: int)
    requires w.Lawful() && w.Fits(u)
    ensures w.Fits(Clamp(w, v))
    ensures Gap(Clamp(w, v), v) <= Gap(u, v)
  {
  }

  /** The first error decides: digits in front of a character that is none give their value, if
      it fits, and the nearest limit if it does not, whatever comes after. */
  lemma FirstErrorDecides(digits: string, bad: char, rest: string, base: nat, negative: bool, w: Width)
    requires w.Lawful() && 2 <= base <= 36 && AllDigits(digits, base) && Digit(bad) >= base && (negative ==> w.Signed())
    ensures var v := WithSign(negative, Value(digits, base));
            ParseDigits(digits + [bad] + rest, base, negative, w) == Parsed(false, Clamp(w, v))
  {
    var s := digits + [bad] + rest;
    assert s[..|digits|] == digits && s[|digits|] == bad;
    RunIsUnique(s, base, |digits|);
    hide AllDigits, Value, DigitRun;
  }

  /** Texts with nothing between their spaces, with only a sign, or in an impossible base give 0. */
  lemma NothingToParse(lead: string, sign: string, trail: string, base: int, w: Width)
    requires AllSpace(lead) && AllSpace(trail) && (sign == "" || sign == "+" || sign == "-")
    ensures Parse(lead + sign + trail, base, w) == Parsed(false, 0)
  {
    hide ParseDigits, SplitBase;
    if sign == "" {
      assert lead + sign + trail == (lead + trail) + "";
      assert AllSpace(lead + trail);
      TrimLeftSkips(lead + trail, "");
      assert Trim(lead + sign + trail) == "";
    } else {
      TrimFinds(lead, sign, trail);
    }
  }

  lemma ImpossibleBase(text: string, base: int, w: Width)
    requires base != 0 && !(2 <= base <= 36)
    ensures Parse(text, base, w) == Parsed(false, 0)
  {
  }

  /** The announced base is found also when not all behind it are digits, unless the text reads
      as a hexadecimal mark. */
  lemma MalformedIsFound(base: int, prefix: string, b: nat, s: string, negative: bool)
    requires Announces(base, prefix, b, s)
    requires (base == 0 || base == 16) && |prefix| < 2 ==> !HexMark(prefix + s)
    ensures prefix + s != "" && SplitBase(prefix + s, negative, base) == Some(Numeral(negative, b, s))
  {
    var u := prefix + s;
    assert |prefix| == 2 ==> u[2..] == s;
    assert |prefix| == 1 ==> u[1..] == s;
    assert |prefix| == 0 ==> u == s;
  }

  /** Main result on malformed numbers: behind spaces, sign and announced base, the digits before
      the first character that is none give the value left, as far as it fits. */
  lemma MalformedIsParsed(lead: string, sign: string, prefix: string, digits: string, bad: char, rest: string,
                          trail: string, base: int, b: nat, w: Width)
    requires w.Lawful() && AllSpace(lead) && AllSpace(trail) && (sign == "" || sign == "+" || sign == "-")
    requires var s := digits + [bad] + rest;
             && Announces(base, prefix, b, s) && ((base == 0 || base == 16) && |prefix| < 2 ==> !HexMark(prefix + s))
             && !IsSpace((prefix + s)[0]) && !IsSign((prefix + s)[0]) && !IsSpace(s[|s| - 1])
    requires AllDigits(digits, b) && Digit(bad) >= b
    ensures Parse(lead + (sign + (prefix + (digits + [bad] + rest))) + trail, base, w) ==
            if sign == "-" && !w.Signed() then Parsed(false, 0)
            else Parsed(false, Clamp(w, WithSign(sign == "-", Value(digits, b))))
  {
    hide Trim, AllSpace, AllDigits, Value, ParseDigits, SplitBase, Announces, HexMark;
    var s := digits + [bad] + rest;
    MalformedIsFound(base, prefix, b, s, sign == "-");
    assert (prefix + s)[|prefix + s| - 1] == s[|s| - 1];
    SplitSigned(base, lead, sign, prefix + s, trail);
    FoundBase(base, prefix + s, sign == "-");
    if !(sign == "-" && !w.Signed()) {
      FirstErrorDecides(digits, bad, rest, b, sign == "-", w);
    }
  }

  lemma FoundBase(base: int, u: string, negative: bool)
    requires u != "" && SplitBase(u, negative, base).Some?
    ensures 2 <= SplitBase(u, negative, base).value.base <= 36
  {
  }

  /** A hexadecimal mark with nothing behind it is no number. */
  lemma MarkAlone(lead: string, sign: string, mark: string, trail: string, base: int, w: Width)
    requires AllSpace(lead) && AllSpace(trail) && (sign == "" || sign == "+" || sign == "-")
    requires (mark == "0x" || mark == "0X") && (base == 0 || base == 16)
    ensures Parse(lead + (sign + mark) + trail, base, w) == Parsed(false, 0)
  {
    hide Trim, AllSpace, ParseDigits;
    SplitSigned(base, lead, sign, mark, trail);
  }
}
