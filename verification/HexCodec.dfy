/** The hexadecimal codec of `base/string_encode`, writing into a caller's buffer. A delimiter
    of 0 means none. */
module HexCodec {
  import opened Bytes

  const NUL: byte := 0

  function HexDigit(v: byte): byte
    requires v < 16
  {
    if v < 10 then '0' as int + v else 'A' as int + v - 10
  }

  /** The value of a digit or letter. Letters past F count too, up to 35. */
  function DigitValue(c: byte): (v: Option<byte>)
    ensures v.Some? ==> v.value < 36
  {
    if '0' as int <= c <= '9' as int then Some(c - '0' as int)
    else if 'A' as int <= c <= 'Z' as int then Some(c - 'A' as int + 10)
    else if 'a' as int <= c <= 'z' as int then Some(c - 'a' as int + 10)
    else None
  }

  /** Bitwise or of `x` with a number below 4. */
  function OrLow(x: nat, y: nat): nat
    requires y < 4
  {
    x - x % 4 + if x % 4 == y || y == 0 then x % 4 else if x % 4 == 0 then y else 3
  }

  /** `(hi << 4) | lo`, cut down to a byte. */
  function Combine(hi: byte, lo: byte): byte
    requires hi < 36 && lo < 36
  {
    (16 * OrLow(hi, lo / 16) + lo % 16) % 256
  }

  /** `Combine` is the shift and the bitwise or of the code, on the eight bits that are kept. */
  lemma CombineIsShiftOr(hi: bv8, lo: bv8)
    requires hi < 36 && lo < 36
    ensures ((hi << 4) | lo) as int == Combine(hi as int, lo as int)
  {
    hide OrLow;
    var top := hi | (lo >> 4);
    SplitShiftOr(hi, lo);
    OrIsOr(hi, lo >> 4);
    HighBits(lo);
    LowBits(lo);
    ShiftUp(top);
    AddApart(top << 4, lo & 15);
  }

  lemma SplitShiftOr(hi: bv8, lo: bv8)
    requires hi < 36 && lo < 36
    ensures (hi << 4) | lo == ((hi | (lo >> 4)) << 4) + (lo & 15)
    ensures hi | (lo >> 4) < 64 && lo >> 4 < 4
    ensures (hi | (lo >> 4)) << 4 <= 240 && lo & 15 <= 15
  {
  }

  lemma HighBits(x: bv8)
    ensures (x >> 4) as int == x as int / 16
  {
  }

  lemma LowBits(x: bv8)
    ensures (x & 15) as int == x as int % 16
  {
  }

  lemma ShiftUp(x: bv8)
    requires x < 64
    ensures (x << 4) as int == 16 * (x as int) % 256
  {
  }

  lemma AddApart(x: bv8, y: bv8)
    requires x <= 240 && y <= 15
    ensures (x + y) as int == x as int + y as int
  {
    assert x as int <= 240 && y as int <= 15;
  }

  lemma OrIsOr(x: bv8, y: bv8)
    requires x < 64 && y < 4
    ensures (x | y) as int == OrLow(x as int, y as int)
  {
  }

  function HexPair(b: byte): seq<byte> {
    [HexDigit(b / 16), HexDigit(b % 16)]
  }

  /** The text of `src`: two digits a byte, with the delimiter between bytes. */
  function HexText(src: seq<byte>, delimiter: byte): seq<byte> {
    if src == [] then []
    else if |src| == 1 || delimiter == NUL then HexPair(src[0]) + HexText(src[1..], delimiter)
    else HexPair(src[0]) + [delimiter] + HexText(src[1..], delimiter)
  }

  /** What follows the first pair of digits, and the delimiter if there is room for a pair. */
  function AfterPair(src: seq<byte>, delimiter: byte): (rest: Option<seq<byte>>)
    requires |src| >= 2
    ensures rest.Some? ==> |rest.value| < |src|
  {
    if delimiter != NUL && |src| > 3 then
      if src[2] == delimiter then Some(src[3..]) else None
    else Some(src[2..])
  }

  function FirstByte(src: seq<byte>): Option<byte>
    requires |src| >= 2
  {
    match (DigitValue(src[0]), DigitValue(src[1]))
    case (Some(hi), Some(lo)) => Some(Combine(hi, lo))
    case _ => None
  }

  function HexBytes(src: seq<byte>, delimiter: byte): Option<seq<byte>>
    decreases |src|
  {
    if src == [] then Some([])
    else if |src| < 2 then None
    else
      match (FirstByte(src), AfterPair(src, delimiter))
      case (Some(b), Some(rest)) =>
        (match HexBytes(rest, delimiter)
         case Some(bytes) => Some([b] + bytes)
         case None => None)
      case _ => None
  }

  /** One round of decoding. */
  lemma DecodeStep(src: seq<byte>, delimiter: byte)
    requires |src| >= 2
    ensures HexBytes(src, delimiter).Some? <==>
            || (&& FirstByte(src).Some? && AfterPair(src, delimiter).Some?
                && HexBytes(AfterPair(src, delimiter).value, delimiter).Some?)
    ensures HexBytes(src, delimiter).Some? ==>
              HexBytes(src, delimiter).value ==
              [FirstByte(src).value] + HexBytes(AfterPair(src, delimiter).value, delimiter).value
  {
    hide FirstByte, AfterPair;
  }

  // Round trip

  lemma PairRoundTrip(b: byte)
    ensures DigitValue(HexDigit(b / 16)) == Some(b / 16) && DigitValue(HexDigit(b % 16)) == Some(b % 16)
    ensures Combine(b / 16, b % 16) == b
  {
  }

  lemma PairThenRest(b: byte, delimiter: byte, tail: seq<byte>)
    requires delimiter == NUL || |tail| != 1
    ensures var sep := if tail == [] || delimiter == NUL then [] else [delimiter];
            var text := HexPair(b) + sep + tail;
            FirstByte(text) == Some(b) && AfterPair(text, delimiter) == Some(tail)
  {
    PairRoundTrip(b);
    hide Combine, DigitValue, HexDigit;
    var sep := if tail == [] || delimiter == NUL then [] else [delimiter];
    var text := HexPair(b) + sep + tail;
    assert text[0] == HexDigit(b / 16) && text[1] == HexDigit(b % 16);
    assert text[|sep| + 2..] == tail;
  }

  lemma {:induction false} HexTextLength(src: seq<byte>, delimiter: byte)
    ensures |HexText(src, delimiter)| == if delimiter == NUL then 2 * |src| else if src == [] then 0 else 3 * |src| - 1
  {
    if src != [] {
      HexTextLength(src[1..], delimiter);
    }
  }

  lemma TextParts(src: seq<byte>, delimiter: byte)
    requires src != []
    ensures var tail := HexText(src[1..], delimiter);
            var sep := if tail == [] || delimiter == NUL then [] else [delimiter];
            HexText(src, delimiter) == HexPair(src[0]) + sep + tail
  {
    HexTextLength(src[1..], delimiter);
    hide HexPair;
    assert HexPair(src[0]) + [] == HexPair(src[0]);
  }

  /** Decoding inverts encoding, whatever the delimiter. */
  lemma {:induction false} DecodeEncode(src: seq<byte>, delimiter: byte)
    ensures HexBytes(HexText(src, delimiter), delimiter) == Some(src)
  {
    if src != [] {
      hide FirstByte, AfterPair, HexText, HexBytes;
      DecodeEncode(src[1..], delimiter);
      PairThenText(src, delimiter);
      DecodeStep(HexText(src, delimiter), delimiter);
      assert [src[0]] + src[1..] == src;
    } else {
      NothingEncoded(delimiter);
    }
  }

  lemma NothingEncoded(delimiter: byte)
    ensures HexBytes(HexText([], delimiter), delimiter) == Some([])
  {
  }

  /** A text begins with the pair of the first byte, behind which comes the text of the rest. */
  lemma PairThenText(src: seq<byte>, delimiter: byte)
    requires src != []
    ensures var text := HexText(src, delimiter);
            |text| >= 2 && FirstByte(text) == Some(src[0])
            && AfterPair(text, delimiter) == Some(HexText(src[1..], delimiter))
  {
    HexTextLength(src[1..], delimiter);
    TextParts(src, delimiter);
    hide FirstByte, AfterPair, HexText;
    PairThenRest(src[0], delimiter, HexText(src[1..], delimiter));
  }

  /** Different bytes have different texts. */
  lemma EncodingIsInjective(a: seq<byte>, b: seq<byte>, delimiter: byte)
    requires HexText(a, delimiter) == HexText(b, delimiter)
    ensures a == b
  {
    DecodeEncode(a, delimiter);
    DecodeEncode(b, delimiter);
  }

  // What is accepted

  function Stride(delimiter: byte): (n: nat)
    ensures n == 2 || n == 3
  {
    if delimiter == NUL then 2 else 3
  }

  /** Position `i` holds a digit or letter, or the delimiter in its place. */
  predicate PlaceOk(src: seq<byte>, delimiter: byte, i: nat)
    requires i < |src|
  {
    if i % Stride(delimiter) == 2 then src[i] == delimiter else DigitValue(src[i]).Some?
  }

  predicate Acceptable(src: seq<byte>, delimiter: byte) {
    && (src == [] || |src| % Stride(delimiter) == 2 % Stride(delimiter))
    && forall i :: 0 <= i < |src| ==> PlaceOk(src, delimiter, i)
  }

  lemma PlaceShift(src: seq<byte>, delimiter: byte, i: nat)
    requires Stride(delimiter) <= |src| && i < |src| - Stride(delimiter)
    ensures PlaceOk(src[Stride(delimiter)..], delimiter, i) <==> PlaceOk(src, delimiter, i + Stride(delimiter))
  {
  }

  lemma SameRemainder(k: nat, delimiter: byte)
    requires Stride(delimiter) < k
    ensures (k - Stride(delimiter)) % Stride(delimiter) == k % Stride(delimiter)
  {
  }

  lemma AcceptableShift(src: seq<byte>, delimiter: byte)
    requires Stride(delimiter) < |src|
    ensures Acceptable(src, delimiter) <==>
            || (&& Acceptable(src[Stride(delimiter)..], delimiter)
                && forall i :: 0 <= i < Stride(delimiter) ==> PlaceOk(src, delimiter, i))
  {
    var n := Stride(delimiter);
    hide PlaceOk, Stride;
    SameRemainder(|src|, delimiter);
    forall i | 0 <= i < |src| - n
      ensures PlaceOk(src[n..], delimiter, i) <==> PlaceOk(src, delimiter, i + n)
    {
      PlaceShift(src, delimiter, i);
    }
    if Acceptable(src[n..], delimiter) && forall i :: 0 <= i < n ==> PlaceOk(src, delimiter, i) {
      forall i | 0 <= i < |src|
        ensures PlaceOk(src, delimiter, i)
      {
        assert i >= n ==> PlaceOk(src[n..], delimiter, i - n);
      }
    }
  }

  /** A text is decoded exactly if it is pairs of digits or letters, with the delimiter between
      them. */
  lemma {:induction false} DecodesIff(src: seq<byte>, delimiter: byte)
    ensures HexBytes(src, delimiter).Some? <==> Acceptable(src, delimiter)
    decreases |src|
  {
    var n := Stride(delimiter);
    if |src| <= n {
      ShortDecodes(src, delimiter);
    } else {
      DecodesIff(src[n..], delimiter);
      AcceptableShift(src, delimiter);
      LongDecodes(src, delimiter);
    }
  }

  lemma ShortDecodes(src: seq<byte>, delimiter: byte)
    requires |src| <= Stride(delimiter)
    ensures HexBytes(src, delimiter).Some? <==> Acceptable(src, delimiter)
  {
    hide Combine, DigitValue;
    if |src| == 2 {
      assert src[2..] == [];
      assert PlaceOk(src, delimiter, 0) <==> DigitValue(src[0]).Some?;
      assert PlaceOk(src, delimiter, 1) <==> DigitValue(src[1]).Some?;
    }
  }

  lemma LongDecodes(src: seq<byte>, delimiter: byte)
    requires |src| > Stride(delimiter)
    ensures HexBytes(src, delimiter).Some? <==>
            || (&& HexBytes(src[Stride(delimiter)..], delimiter).Some?
                && forall i :: 0 <= i < Stride(delimiter) ==> PlaceOk(src, delimiter, i))
  {
    hide Combine, DigitValue, HexBytes;
    DecodeStep(src, delimiter);
    assert PlaceOk(src, delimiter, 0) <==> DigitValue(src[0]).Some?;
    assert PlaceOk(src, delimiter, 1) <==> DigitValue(src[1]).Some?;
    assert delimiter != NUL ==> (PlaceOk(src, delimiter, 2) <==> src[2] == delimiter);
  }

  // The buffer versions

  function EncodeNeeded(n: nat, delimiter: byte): nat {
    if delimiter != NUL then n * 3 else n * 2 + 1
  }

  function DecodeNeeded(n: nat, delimiter: byte): nat {
    if delimiter != NUL then (n + 1) / 3 else n / 2
  }

  /** The text and the NUL after it fit in what is computed to be needed, unless nothing is
      encoded with a delimiter: then nothing is needed and the NUL is written all the same. */
  lemma EncodeWithinNeededIff(src: seq<byte>, delimiter: byte)
    ensures |HexText(src, delimiter)| + 1 <= EncodeNeeded(|src|, delimiter) <==> src != [] || delimiter == NUL
    ensures src != [] || delimiter == NUL ==> |HexText(src, delimiter)| + 1 == EncodeNeeded(|src|, delimiter)
  {
    HexTextLength(src, delimiter);
  }

  lemma EncodeFits(src: seq<byte>, delimiter: byte, length: nat)
    requires length > 0 && length >= EncodeNeeded(|src|, delimiter)
    ensures |HexText(src, delimiter)| < length
  {
    HexTextLength(src, delimiter);
  }

  /** The text from byte `i` on begins with the digits of that byte. */
  lemma TextFrom(src: seq<byte>, delimiter: byte, i: nat)
    requires i < |src|
    ensures var sep := if i + 1 == |src| || delimiter == NUL then [] else [delimiter];
            HexText(src[i..], delimiter) == HexPair(src[i]) + sep + HexText(src[i + 1..], delimiter)
  {
    hide HexPair;
    assert src[i..][1..] == src[i + 1..];
    assert HexPair(src[i]) + [] == HexPair(src[i]);
  }

  /** The bytes written so far and the text still to come make up the whole text. */
  ghost predicate TextSoFar(done: seq<byte>, src: seq<byte>, delimiter: byte, i: nat)
    requires i <= |src|
  {
    HexText(src, delimiter) == done + HexText(src[i..], delimiter)
  }

  lemma TextAdvances(done: seq<byte>, src: seq<byte>, delimiter: byte, i: nat, more: seq<byte>)
    requires i < |src| && TextSoFar(done, src, delimiter, i)
    requires more == HexPair(src[i]) + if i + 1 == |src| || delimiter == NUL then [] else [delimiter]
    ensures TextSoFar(done + more, src, delimiter, i + 1)
    ensures |done| + |more| <= |HexText(src, delimiter)|
  {
    hide HexPair, HexText;
    TextFrom(src, delimiter, i);
    assert done + (more + HexText(src[i + 1..], delimiter)) == done + more + HexText(src[i + 1..], delimiter);
  }

  method HexEncodeWithDelimiter(buf: array<byte>, src: seq<byte>, delimiter: byte) returns (length: nat)
    modifies buf
    ensures buf.Length == 0 || buf.Length < EncodeNeeded(|src|, delimiter) ==> length == 0 && buf[..] == old(buf[..])
    ensures buf.Length > 0 && buf.Length >= EncodeNeeded(|src|, delimiter) ==>
              && length == |HexText(src, delimiter)| < buf.Length
              && buf[..] == HexText(src, delimiter) + [NUL] + old(buf[length + 1..])
  {
    hide HexText, TextSoFar, HexDigit;
    if buf.Length == 0 {
      return 0;
    }
    ghost var before := buf[..];
    var srcPos, bufPos := 0, 0;
    var needed := if delimiter != NUL then |src| * 3 else |src| * 2 + 1;
    if buf.Length < needed {
      return 0;
    }
    EncodeFits(src, delimiter, buf.Length);
    TextStarts(src, delimiter);
    while srcPos < |src|
      invariant 0 <= srcPos <= |src| && 0 <= bufPos <= |HexText(src, delimiter)|
      invariant TextSoFar(buf[..bufPos], src, delimiter, srcPos)
      invariant forall k :: bufPos <= k < buf.Length ==> buf[k] == before[k]
    {
      var more := HexPair(src[srcPos]) + if srcPos + 1 == |src| || delimiter == NUL then [] else [delimiter];
      ghost var done := buf[..bufPos];
      TextAdvances(done, src, delimiter, srcPos, more);
      var ch := src[srcPos];
      srcPos := srcPos + 1;
      buf[bufPos] := HexDigit(ch / 16);
      buf[bufPos + 1] := HexDigit(ch % 16);
      bufPos := bufPos + 2;
      if delimiter != NUL && srcPos < |src| {
        buf[bufPos] := delimiter;
        bufPos := bufPos + 1;
      }
      assert buf[..bufPos] == done + more;
    }
    TextEnds(buf[..bufPos], src, delimiter);
    buf[bufPos] := NUL;
    length := bufPos;
    assert buf[bufPos + 1..] == before[bufPos + 1..];
    assert buf[..] == buf[..bufPos] + [NUL] + buf[bufPos + 1..];
  }

  lemma TextStarts(src: seq<byte>, delimiter: byte)
    ensures TextSoFar([], src, delimiter, 0)
  {
    assert src[0..] == src;
  }

  lemma TextEnds(done: seq<byte>, src: seq<byte>, delimiter: byte)
    requires TextSoFar(done, src, delimiter, |src|)
    ensures done == HexText(src, delimiter)
  {
  }

  /** Decoding the rest decides about the whole, which then starts with the bytes done. */
  ghost predicate BytesSoFar(done: seq<byte>, src: seq<byte>, delimiter: byte, i: nat)
    requires i <= |src|
  {
    match HexBytes(src[i..], delimiter)
    case Some(rest) => HexBytes(src, delimiter) == Some(done + rest)
    case None => HexBytes(src, delimiter) == None
  }

  lemma BytesStart(src: seq<byte>, delimiter: byte)
    ensures BytesSoFar([], src, delimiter, 0)
  {
    assert src[0..] == src;
    if HexBytes(src, delimiter).Some? {
      assert [] + HexBytes(src, delimiter).value == HexBytes(src, delimiter).value;
    }
  }

  lemma BytesAdvance(done: seq<byte>, src: seq<byte>, delimiter: byte, i: nat, b: byte, j: nat)
    requires i + 2 <= |src| && i <= j <= |src| && BytesSoFar(done, src, delimiter, i)
    requires FirstByte(src[i..]) == Some(b) && AfterPair(src[i..], delimiter) == Some(src[j..])
    ensures BytesSoFar(done + [b], src, delimiter, j)
  {
    hide FirstByte, AfterPair, HexBytes;
    DecodeStep(src[i..], delimiter);
    if HexBytes(src[j..], delimiter).Some? {
      var rest := HexBytes(src[j..], delimiter).value;
      assert done + ([b] + rest) == done + [b] + rest;
    }
  }

  /** A text that is too short, or goes wrong at the next pair, is not decoded. */
  lemma BytesFail(done: seq<byte>, src: seq<byte>, delimiter: byte, i: nat)
    requires i < |src| && BytesSoFar(done, src, delimiter, i)
    requires |src| - i < 2 || FirstByte(src[i..]).None? || AfterPair(src[i..], delimiter).None?
    ensures HexBytes(src, delimiter).None?
  {
    hide FirstByte, AfterPair, HexBytes;
    if |src| - i >= 2 {
      DecodeStep(src[i..], delimiter);
    } else {
      OneLeft(src[i..], delimiter);
    }
  }

  lemma OneLeft(src: seq<byte>, delimiter: byte)
    requires |src| == 1
    ensures HexBytes(src, delimiter).None?
  {
  }

  lemma BytesEnd(done: seq<byte>, src: seq<byte>, delimiter: byte)
    requires BytesSoFar(done, src, delimiter, |src|)
    ensures HexBytes(src, delimiter) == Some(done)
  {
    assert done + [] == done;
  }

  lemma PairAt(src: seq<byte>, delimiter: byte, i: nat)
    requires i + 2 <= |src|
    ensures FirstByte(src[i..]) == FirstByte([src[i], src[i + 1]])
    ensures AfterPair(src[i..], delimiter) ==
            if delimiter != NUL && |src| - i > 3 then
              (if src[i + 2] == delimiter then Some(src[i + 3..]) else None)
            else Some(src[i + 2..])
  {
    assert src[i..][2..] == src[i + 2..];
    assert |src| - i > 3 ==> src[i..][3..] == src[i + 3..];
  }

  /** Whatever the text, only the bytes computed to be needed are written. */
  method HexDecodeWithDelimiter(buf: array<byte>, src: seq<byte>, delimiter: byte) returns (length: nat)
    modifies buf
    ensures buf.Length == 0 || buf.Length < DecodeNeeded(|src|, delimiter) ==> length == 0 && buf[..] == old(buf[..])
    ensures buf.Length > 0 && buf.Length >= DecodeNeeded(|src|, delimiter) ==>
              && buf[DecodeNeeded(|src|, delimiter)..] == old(buf[DecodeNeeded(|src|, delimiter)..])
              && match HexBytes(src, delimiter)
                 case Some(bytes) =>
                   length == |bytes| <= buf.Length && buf[..] == bytes + old(buf[length..])
                 case None => length == 0
  {
    hide HexBytes, BytesSoFar, FirstByte, AfterPair, DigitValue, Combine;
    if buf.Length == 0 {
      return 0;
    }
    ghost var before := buf[..];
    var srcPos, bufPos := 0, 0;
    var needed := if delimiter != NUL then (|src| + 1) / 3 else |src| / 2;
    if buf.Length < needed {
      return 0;
    }
    BytesStart(src, delimiter);
    while srcPos < |src|
      invariant 0 <= srcPos <= |src| && 0 <= bufPos
      invariant bufPos + DecodeNeeded(|src| - srcPos, delimiter) <= needed
      invariant BytesSoFar(buf[..bufPos], src, delimiter, srcPos)
      invariant forall k :: bufPos <= k < buf.Length ==> buf[k] == before[k]
      decreases |src| - srcPos
    {
      ghost var done := buf[..bufPos];
      ghost var i := srcPos;
      if |src| - srcPos < 2 {
        BytesFail(done, src, delimiter, i);
        return 0;
      }
      PairAt(src, delimiter, i);
      PairValue(src[i], src[i + 1]);
      var h1, h2 := DigitValue(src[srcPos]), DigitValue(src[srcPos + 1]);
      if h1.None? || h2.None? {
        BytesFail(done, src, delimiter, i);
        return 0;
      }
      ghost var b := Combine(h1.value, h2.value);
      buf[bufPos] := Combine(h1.value, h2.value);
      bufPos := bufPos + 1;
      srcPos := srcPos + 2;
      if delimiter != NUL && |src| - srcPos > 1 {
        if src[srcPos] != delimiter {
          BytesFail(done, src, delimiter, i);
          return 0;
        }
        srcPos := srcPos + 1;
      }
      BytesAdvance(done, src, delimiter, i, b, srcPos);
      assert buf[..bufPos] == done + [b];
    }
    BytesEnd(buf[..bufPos], src, delimiter);
    length := bufPos;
    assert buf[bufPos..] == before[bufPos..];
    assert buf[..] == buf[..bufPos] + buf[bufPos..];
  }

  lemma PairValue(a: byte, b: byte)
    ensures FirstByte([a, b]) ==
            if DigitValue(a).Some? && DigitValue(b).Some? then Some(Combine(DigitValue(a).value, DigitValue(b).value))
            else None
  {
    hide DigitValue, Combine;
  }

  // The alphabet and the places.

  const HEX: string := "0123456789ABCDEF"

  function HexChar(v: byte): byte
    requires v < 16
  {
    HEX[v] as int
  }

  lemma HexDigitIs(v: byte)
    requires v < 16
    ensures HexDigit(v) == HexChar(v)
  {
  }

  /** Decoding takes a letter in either case. */
  lemma EitherCase(c: byte)
    requires 'A' as int <= c <= 'Z' as int
    ensures DigitValue(c) == DigitValue(c + 32) == Some(c - 'A' as int + 10)
  {
  }

  lemma OnlyDigitsAndLetters(c: byte)
    ensures DigitValue(c).Some? <==>
            '0' as int <= c <= '9' as int || 'A' as int <= c <= 'Z' as int || 'a' as int <= c <= 'z' as int
    ensures '0' as int <= c <= '9' as int ==> DigitValue(c) == Some(c - '0' as int)
  {
  }

  /** Where byte `i` of a text starts. */
  function Place(delimiter: byte, i: nat): nat {
    if delimiter == NUL then 2 * i else 3 * i
  }

  /** Byte `i` is written high digit first at its place, with the delimiter behind it if another
      byte follows. */
  lemma {:induction false} HexTextAt(src: seq<byte>, delimiter: byte, i: nat)
    requires i < |src|
    ensures var text := HexText(src, delimiter);
            var at := Place(delimiter, i);
            && at + 1 < |text|
            && text[at] == HexChar(src[i] / 16) && text[at + 1] == HexChar(src[i] % 16)
            && (delimiter != NUL && i + 1 < |src| ==> at + 2 < |text| && text[at + 2] == delimiter)
  {
    hide HexText, HexDigit, HexPair, HexChar;
    TextParts(src, delimiter);
    HexTextLength(src[1..], delimiter);
    var text, tail := HexText(src, delimiter), HexText(src[1..], delimiter);
    PairIs(src[0]);
    if i == 0 {
      FrontOf(text, HexPair(src[0]), tail, delimiter);
    } else {
      HexTextAt(src[1..], delimiter, i - 1);
      var before := Place(delimiter, i - 1);
      assert Place(delimiter, i) == Stride(delimiter) + before;
      assert src[1..][i - 1] == src[i];
      NextPlace(text, HexPair(src[0]), tail, delimiter, before);
      NextPlace(text, HexPair(src[0]), tail, delimiter, before + 1);
      if delimiter != NUL && i + 1 < |src| {
        NextPlace(text, HexPair(src[0]), tail, delimiter, before + 2);
      }
    }
  }

  lemma PairIs(b: byte)
    ensures HexPair(b) == [HexChar(b / 16), HexChar(b % 16)]
  {
    HexDigitIs(b / 16);
    HexDigitIs(b % 16);
    hide HexDigit, HexChar;
  }

  lemma FrontOf(text: seq<byte>, pair: seq<byte>, tail: seq<byte>, delimiter: byte)
    requires |pair| == 2
    requires text == pair + (if tail == [] || delimiter == NUL then [] else [delimiter]) + tail
    ensures |text| >= 2 && text[0] == pair[0] && text[1] == pair[1]
    ensures delimiter != NUL && tail != [] ==> |text| > 2 && text[2] == delimiter
  {
  }

  lemma NextPlace(text: seq<byte>, pair: seq<byte>, tail: seq<byte>, delimiter: byte, k: nat)
    requires |pair| == 2 && k < |tail|
    requires text == pair + (if tail == [] || delimiter == NUL then [] else [delimiter]) + tail
    ensures |text| == Stride(delimiter) + |tail| && text[Stride(delimiter) + k] == tail[k]
  {
  }

  /** Decoding reads the places that encoding writes, the first digit of a pair as the high one. */
  lemma {:induction false} HexBytesAt(src: seq<byte>, delimiter: byte, i: nat)
    requires HexBytes(src, delimiter).Some? && i < |HexBytes(src, delimiter).value|
    ensures var at := Place(delimiter, i);
            && at + 1 < |src| && DigitValue(src[at]).Some? && DigitValue(src[at + 1]).Some?
            && HexBytes(src, delimiter).value[i] == Combine(DigitValue(src[at]).value, DigitValue(src[at + 1]).value)
    decreases |src|
  {
    hide Combine, DigitValue, FirstByte, AfterPair;
    DecodedIsLong(src, delimiter);
    DecodeStep(src, delimiter);
    hide HexBytes;
    if i == 0 {
      FirstByteIs(src);
    } else {
      var rest := AfterPair(src, delimiter).value;
      HexBytesAt(rest, delimiter, i - 1);
      RestIsLater(src, delimiter);
      assert Place(delimiter, i) == Stride(delimiter) + Place(delimiter, i - 1);
    }
  }

  lemma DecodedIsLong(src: seq<byte>, delimiter: byte)
    requires HexBytes(src, delimiter).Some? && HexBytes(src, delimiter).value != []
    ensures |src| >= 2
  {
  }

  lemma FirstByteIs(src: seq<byte>)
    requires |src| >= 2 && FirstByte(src).Some?
    ensures DigitValue(src[0]).Some? && DigitValue(src[1]).Some?
    ensures FirstByte(src).value == Combine(DigitValue(src[0]).value, DigitValue(src[1]).value)
  {
    hide Combine, DigitValue;
  }

  lemma RestIsLater(src: seq<byte>, delimiter: byte)
    requires |src| >= 2 && AfterPair(src, delimiter).Some? && |AfterPair(src, delimiter).value| >= 2
    ensures |src| == Stride(delimiter) + |AfterPair(src, delimiter).value|
    ensures forall k :: 0 <= k < |AfterPair(src, delimiter).value| ==>
              AfterPair(src, delimiter).value[k] == src[Stride(delimiter) + k]
  {
  }
}
