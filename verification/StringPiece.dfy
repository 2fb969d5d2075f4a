/** Searching a byte string for the members of a set of bytes (`base/string_piece`). Sizes are
    64-bit, and the largest one stands for "nowhere". */
module StringPieces {
  import opened Bytes

  type Text = s: seq<byte> | |s| < NPOS

  const NPOS: nat := 0xffff_ffff_ffff_ffff

  /** `c` is one of `chars`, or, unless `wanted`, is not. */
  predicate Hits(c: byte, chars: seq<byte>, wanted: bool) {
    (c in chars) == wanted
  }

  /** `r` is the first hit at or after `pos`. */
  ghost predicate FirstHit(self: seq<byte>, chars: seq<byte>, wanted: bool, pos: nat, r: nat) {
    if r == NPOS then
      forall i :: pos <= i < |self| ==> !Hits(self[i], chars, wanted)
    else
      && pos <= r < |self| && Hits(self[r], chars, wanted)
      && forall i :: pos <= i < r ==> !Hits(self[i], chars, wanted)
  }

  /** `r` is the last hit at or before `pos`. */
  ghost predicate LastHit(self: seq<byte>, chars: seq<byte>, wanted: bool, pos: nat, r: nat) {
    if r == NPOS then
      forall i :: 0 <= i < |self| && i <= pos ==> !Hits(self[i], chars, wanted)
    else
      && r < |self| && r <= pos && Hits(self[r], chars, wanted)
      && forall i :: r < i < |self| && i <= pos ==> !Hits(self[i], chars, wanted)
  }

  /** There is one first hit. */
  lemma FirstHitUnique(self: Text, chars: seq<byte>, wanted: bool, pos: nat, r: nat, q: nat)
    requires FirstHit(self, chars, wanted, pos, r) && FirstHit(self, chars, wanted, pos, q)
    ensures r == q
  {
  }

  lemma LastHitUnique(self: Text, chars: seq<byte>, wanted: bool, pos: nat, r: nat, q: nat)
    requires LastHit(self, chars, wanted, pos, r) && LastHit(self, chars, wanted, pos, q)
    ensures r == q
  {
  }

  method BuildLookupTable(chars: Text) returns (table: array<bool>)
    ensures fresh(table) && table.Length == 256
    ensures forall c: byte :: table[c] <==> c in chars
  {
    table := new bool[256](_ => false);
    for i := 0 to |chars|
      invariant forall c: byte :: table[c] <==> c in chars[..i]
    {
      assert forall c: byte :: c in chars[..i + 1] <==> c in chars[..i] || c == chars[i];
      table[chars[i]] := true;
    }
    assert chars[..|chars|] == chars;
  }

  method Find(self: Text, c: byte, pos: nat) returns (r: nat)
    ensures FirstHit(self, [c], true, pos, r)
  {
    if pos >= |self| {
      return NPOS;
    }
    r := pos;
    while r < |self|
      invariant pos <= r <= |self|
      invariant forall i :: pos <= i < r ==> self[i] != c
    {
      if self[r] == c {
        return;
      }
      r := r + 1;
    }
    r := NPOS;
  }

  method RFind(self: Text, c: byte, pos: nat) returns (r: nat)
    ensures LastHit(self, [c], true, pos, r)
  {
    r := FindLastWhere(self, c, pos, true);
  }

  /** The backward scans for one byte, or for any other, differ only in the test. */
  method FindLastWhere(self: Text, c: byte, pos: nat, equal: bool) returns (r: nat)
    ensures LastHit(self, [c], equal, pos, r)
  {
    if |self| == 0 {
      return NPOS;
    }
    r := if pos < |self| - 1 then pos else |self| - 1;
    while true
      invariant r < |self| && r <= pos
      invariant forall i :: r < i < |self| && i <= pos ==> !Hits(self[i], [c], equal)
      decreases r
    {
      if (self[r] == c) == equal {
        return;
      }
      if r == 0 {
        break;
      }
      r := r - 1;
    }
    r := NPOS;
  }

  method FindFirstNotOfChar(self: Text, c: byte, start: nat) returns (r: nat)
    ensures FirstHit(self, [c], false, start, r)
  {
    if |self| == 0 {
      return NPOS;
    }
    var pos := start;
    while pos < |self|
      invariant start <= pos
      invariant forall i :: start <= i < pos && i < |self| ==> self[i] == c
    {
      if self[pos] != c {
        return pos;
      }
      pos := pos + 1;
    }
    return NPOS;
  }

  method FindFirstOf(self: Text, chars: Text, pos: nat) returns (r: nat)
    ensures FirstHit(self, chars, true, pos, r)
  {
    if |self| == 0 || |chars| == 0 {
      return NPOS;
    }
    if |chars| == 1 {
      r := Find(self, chars[0], pos);
      assert chars == [chars[0]];
      return;
    }
    var lookup := BuildLookupTable(chars);
    var i := pos;
    while i < |self|
      invariant pos <= i
      invariant forall k :: pos <= k < i && k < |self| ==> self[k] !in chars
    {
      if lookup[self[i]] {
        return i;
      }
      i := i + 1;
    }
    return NPOS;
  }

  /** An empty set is found at 0 wherever the search was to start. */
  method FindFirstNotOf(self: Text, chars: Text, pos: nat) returns (r: nat)
    ensures self != [] && chars == [] ==> r == 0
    ensures self == [] || chars != [] ==> FirstHit(self, chars, false, pos, r)
  {
    if |self| == 0 {
      return NPOS;
    }
    if |chars| == 0 {
      return 0;
    }
    if |chars| == 1 {
      r := FindFirstNotOfChar(self, chars[0], pos);
      assert chars == [chars[0]];
      return;
    }
    var lookup := BuildLookupTable(chars);
    var i := pos;
    while i < |self|
      invariant pos <= i
      invariant forall k :: pos <= k < i && k < |self| ==> self[k] in chars
    {
      if !lookup[self[i]] {
        return i;
      }
      i := i + 1;
    }
    return NPOS;
  }

  /** The answer for an empty set is the first hit exactly if the search was to start at 0. */
  lemma EmptySetFirstIff(self: Text, pos: nat)
    requires self != []
    ensures FirstHit(self, [], false, pos, 0) <==> pos == 0
  {
  }

  method FindLastOf(self: Text, chars: Text, pos: nat) returns (r: nat)
    ensures LastHit(self, chars, true, pos, r)
  {
    if |self| == 0 || |chars| == 0 {
      return NPOS;
    }
    if |chars| == 1 {
      r := RFind(self, chars[0], pos);
      assert chars == [chars[0]];
      return;
    }
    r := if pos < |self| - 1 then pos else |self| - 1;
    r := ScanBack(self, chars, r, true);
  }

  method FindLastNotOf(self: Text, chars: Text, pos: nat) returns (r: nat)
    ensures LastHit(self, chars, false, pos, r)
  {
    if |self| == 0 {
      return NPOS;
    }
    var i := if pos < |self| - 1 then pos else |self| - 1;
    if |chars| == 0 {
      return i;
    }
    if |chars| == 1 {
      r := FindLastWhere(self, chars[0], pos, false);
      assert chars == [chars[0]];
      return;
    }
    r := ScanBack(self, chars, i, false);
  }

  /** The table-driven backward scan from `start`. */
  method ScanBack(self: Text, chars: Text, start: nat, wanted: bool) returns (r: nat)
    requires start < |self|
    ensures LastHit(self, chars, wanted, start, r)
  {
    var lookup := BuildLookupTable(chars);
    r := start;
    while true
      invariant r <= start
      invariant forall i :: r < i <= start ==> !Hits(self[i], chars, wanted)
      decreases r
    {
      if lookup[self[r]] == wanted {
        return;
      }
      if r == 0 {
        break;
      }
      r := r - 1;
    }
    r := NPOS;
  }

  /** A substring, with both position and length cut down to what there is. */
  method Substr(self: Text, pos: nat, n: nat) returns (r: Text)
    ensures r == SubstrOf(self, pos, n)
    ensures pos >= |self| ==> r == []
    ensures pos < |self| && n >= |self| - pos ==> r == self[pos..]
    ensures pos < |self| && n < |self| - pos ==> |r| == n && forall i :: 0 <= i < n ==> r[i] == self[pos + i]
  {
    var p := if pos > |self| then |self| else pos;
    var m := if n > |self| - p then |self| - p else n;
    r := self[p..p + m];
  }

  function SubstrOf(self: seq<byte>, pos: nat, n: nat): seq<byte> {
    if pos >= |self| then [] else if n >= |self| - pos then self[pos..] else self[pos..pos + n]
  }
}
