/** Trimming the members of a set of bytes off the ends of a string (`base/string_util`). */
module StringUtil {
  import opened Bytes
  import opened StringPieces

  /** Which ends to trim, or which have been trimmed. */
  datatype Positions = Positions(leading: bool, trailing: bool)

  const TRIM_NONE := Positions(false, false)
  const TRIM_ALL := Positions(true, true)

  predicate AllIn(s: seq<byte>, chars: seq<byte>) {
    forall i :: 0 <= i < |s| ==> s[i] in chars
  }

  /** What lies outside `s[a..b]` is in the set; at an end that is to be trimmed there is a byte
      that is not, and at one that is not to be trimmed nothing is cut off. */
  ghost predicate TrimmedAt(s: seq<byte>, chars: seq<byte>, p: Positions, a: nat, b: nat) {
    && a <= b <= |s|
    && (forall i :: 0 <= i < |s| && !(a <= i < b) ==> s[i] in chars)
    && (if p.leading then a < b && s[a] !in chars else a == 0)
    && (if p.trailing then a < b && s[b - 1] !in chars else b == |s|)
  }

  /** `r` is `s` trimmed; a string with nothing but members of the set is trimmed to nothing. */
  ghost predicate IsTrim(s: seq<byte>, chars: seq<byte>, p: Positions, r: seq<byte>) {
    if AllIn(s, chars) && p != TRIM_NONE then r == []
    else exists a: nat, b: nat :: TrimmedAt(s, chars, p, a, b) && r == s[a..b]
  }

  lemma TrimmedAtUnique(s: seq<byte>, chars: seq<byte>, p: Positions, a: nat, b: nat, c: nat, d: nat)
    requires TrimmedAt(s, chars, p, a, b) && TrimmedAt(s, chars, p, c, d)
    ensures a == c && b == d
  {
  }

  /** Trimming has one result. */
  lemma TrimIsUnique(s: seq<byte>, chars: seq<byte>, p: Positions, r: seq<byte>, q: seq<byte>)
    requires IsTrim(s, chars, p, r) && IsTrim(s, chars, p, q)
    ensures r == q
  {
    if !(AllIn(s, chars) && p != TRIM_NONE) {
      var a: nat, b: nat :| TrimmedAt(s, chars, p, a, b) && r == s[a..b];
      var c: nat, d: nat :| TrimmedAt(s, chars, p, c, d) && q == s[c..d];
      TrimmedAtUnique(s, chars, p, a, b, c, d);
    }
  }

  /** Trimming again changes nothing. */
  lemma TrimTwice(s: seq<byte>, chars: seq<byte>, p: Positions, r: seq<byte>)
    requires IsTrim(s, chars, p, r)
    ensures IsTrim(r, chars, p, r)
  {
    if !(AllIn(s, chars) && p != TRIM_NONE) {
      var a: nat, b: nat :| TrimmedAt(s, chars, p, a, b) && r == s[a..b];
      assert r[0..|r|] == r;
      assert TrimmedAt(r, chars, p, 0, |r|);
      assert p.leading ==> r[0] == s[a];
      assert p.trailing ==> r[|r| - 1] == s[b - 1];
    }
  }

  /** Subtraction of 64-bit sizes. */
  function Minus(x: nat, y: nat): nat
    requires x < TWO_64 && y < TWO_64
  {
    if x >= y then x - y else x + TWO_64 - y
  }

  /** Addition of 64-bit sizes. */
  function Plus(x: nat, y: nat): nat
    requires x < TWO_64 && y < TWO_64
  {
    if x + y < TWO_64 then x + y else x + y - TWO_64
  }

  /** The first byte to keep; nowhere if there is none. */
  method FirstGood(input: Text, chars: Text, leading: bool) returns (r: nat)
    ensures !leading ==> r == 0
    ensures leading ==> FirstHit(input, chars, false, 0, r)
  {
    r := 0;
    if leading {
      r := FindFirstNotOf(input, chars, 0);
    }
  }

  lemma KeptRange(input: Text, chars: Text, p: Positions, first: nat, last: nat)
    requires if p.leading then FirstHit(input, chars, false, 0, first) else first == 0
    requires if p.trailing then LastHit(input, chars, false, NPOS, last) else last == |input| - 1
    requires first != NPOS && last != NPOS
    ensures first <= last + 1 <= |input| && TrimmedAt(input, chars, p, first, last + 1)
    ensures p == TRIM_NONE || !AllIn(input, chars)
  {
  }

  lemma NothingKept(input: Text, chars: Text, p: Positions, first: nat, last: nat)
    requires p.leading ==> FirstHit(input, chars, false, 0, first)
    requires p.trailing ==> LastHit(input, chars, false, NPOS, last)
    requires (p.leading && first == NPOS) || (p.trailing && last == NPOS)
    ensures AllIn(input, chars) && p != TRIM_NONE
  {
  }

  /** The trimmed string, and the ends at which something was trimmed off. */
  method TrimStringT(input: Text, chars: Text, positions: Positions) returns (output: seq<byte>, trimmed: Positions)
    ensures IsTrim(input, chars, positions, output)
    ensures trimmed.leading <==> positions.leading && input != [] && input[0] in chars
    ensures trimmed.trailing <==> positions.trailing && input != [] && input[|input| - 1] in chars
  {
    var lastChar := Minus(|input|, 1);
    var firstGood := FirstGood(input, chars, positions.leading);
    var lastGood := lastChar;
    if positions.trailing {
      lastGood := FindLastNotOf(input, chars, NPOS);
    }
    if input == [] || firstGood == NPOS || lastGood == NPOS {
      if input != [] {
        NothingKept(input, chars, positions, firstGood, lastGood);
        return [], positions;
      }
      assert TrimmedAt(input, chars, TRIM_NONE, 0, 0);
      return [], TRIM_NONE;
    }
    KeptRange(input, chars, positions, firstGood, lastGood);
    output := input[firstGood..lastGood + 1];
    trimmed := Positions(firstGood != 0, lastGood != lastChar);
  }

  /** True exactly if something was trimmed off. */
  method TrimString(input: Text, chars: Text) returns (output: seq<byte>, changed: bool)
    ensures IsTrim(input, chars, TRIM_ALL, output)
    ensures changed <==> output != input
  {
    var trimmed;
    output, trimmed := TrimStringT(input, chars, TRIM_ALL);
    changed := trimmed != TRIM_NONE;
    TrimShortensIff(input, chars, output);
  }

  lemma TrimShortensIff(s: seq<byte>, chars: seq<byte>, r: seq<byte>)
    requires IsTrim(s, chars, TRIM_ALL, r)
    ensures r != s <==> s != [] && (s[0] in chars || s[|s| - 1] in chars)
  {
    if !AllIn(s, chars) {
      var a: nat, b: nat :| TrimmedAt(s, chars, TRIM_ALL, a, b) && r == s[a..b];
      assert a == 0 && b == |s| ==> r == s;
      assert r == s ==> |r| == b - a;
    }
  }

  /** The same on string pieces, where the searches' "nowhere" goes through 64-bit arithmetic. */
  method TrimStringPieceT(input: Text, chars: Text, positions: Positions) returns (r: seq<byte>)
    ensures IsTrim(input, chars, positions, r)
  {
    var begin := FirstGood(input, chars, positions.leading);
    var end := |input|;
    ghost var last := Minus(|input|, 1);
    if positions.trailing {
      end := FindLastNotOf(input, chars, NPOS);
      last := end;
      end := Plus(end, 1);
    }
    r := Substr(input, begin, Minus(end, begin));
    if (positions.leading && begin == NPOS) || (positions.trailing && last == NPOS) {
      NothingKept(input, chars, positions, begin, last);
    } else if input == [] {
      assert TrimmedAt(input, chars, TRIM_NONE, 0, 0);
    } else {
      KeptRange(input, chars, positions, begin, last);
    }
  }
}
