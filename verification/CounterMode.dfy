/** Counter mode of `crypto/symmetric_crypt`: the 128-bit big-endian counter kept as two
    byte-swapped machine words, its masks, and encryption by masking (section 6.5 and
    appendix B of NIST SP 800-38A). */
module CounterMode {
  import opened Bytes
  import opened Bits
  import opened BlockModes

  const COUNTERS: nat := 0x1_0000_0000_0000_0000_0000_0000_0000_0000

  lemma CountersValue()
    ensures Pow256(8) == TWO_64 && Pow256(16) == COUNTERS
  {
    Pow256Values();
    assert Pow256(10) == 256 * Pow256(9);
    assert Pow256(12) == 256 * Pow256(11);
    assert Pow256(14) == 256 * Pow256(13);
    assert Pow256(16) == 256 * Pow256(15);
  }

  /** The 16 bytes of counter value `v`, most significant first. */
  function CounterBlock(v: nat): (b: seq<byte>)
    ensures |b| == BLOCK
  {
    Reverse(ToLE(v % COUNTERS, BLOCK))
  }

  lemma CounterBlockValue(v: nat)
    ensures FromBE(CounterBlock(v)) == v % COUNTERS
  {
    CountersValue();
    var b := ToLE(v % COUNTERS, BLOCK);
    ReverseTwice(b);
    FromBEIsFromLEReversed(Reverse(b));
    FromToLE(v % COUNTERS, BLOCK);
  }

  lemma BlockOfValue(b: seq<byte>)
    requires |b| == BLOCK
    ensures FromBE(b) < COUNTERS && CounterBlock(FromBE(b)) == b
  {
    CountersValue();
    FromBEBound(b);
    hide Pow256, ToLE, FromLE, FromBE, Reverse;
    FromBEIsFromLEReversed(b);
    ToFromLE(Reverse(b));
    ReverseTwice(b);
    SmallMod(FromBE(b), COUNTERS);
  }

  lemma SmallMod(x: nat, m: nat)
    requires x < m
    ensures x % m == x
  {
  }

  lemma EqualModulo(a: nat, b: nat, m: nat)
    requires 0 < m && a < b
    ensures a % m == b % m ==> b >= a + m
  {
    assert a == m * (a / m) + a % m && b == m * (b / m) + b % m;
    assert b - a == m * (b / m - a / m) + (b % m - a % m);
    MultipleFarFromZero(m, b / m - a / m);
  }

  /** Appendix B.1 of SP 800-38A: no counter block repeats within 2^128 increments. */
  lemma CounterBlocksDistinct(v: nat, i: nat, j: nat)
    requires i < j < i + COUNTERS
    ensures CounterBlock(v + i) != CounterBlock(v + j)
  {
    hide CounterBlock, FromBE;
    CounterBlockValue(v + i);
    CounterBlockValue(v + j);
    EqualModulo(v + i, v + j, COUNTERS);
  }

  // ---------------------------------------------------------------- counter

  /** `ByteSwap`: the word whose bytes are in the opposite order. */
  function ByteSwap(x: uint64): (r: uint64) {
    CountersValue();
    FromLEBound(Reverse(ToLE(x, 8)));
    FromLE(Reverse(ToLE(x, 8)))
  }

  lemma ByteSwapTwice(x: uint64)
    ensures ByteSwap(ByteSwap(x)) == x
  {
    CountersValue();
    ToFromLE(Reverse(ToLE(x, 8)));
    ReverseTwice(ToLE(x, 8));
    FromToLE(x, 8);
  }

  lemma ByteSwapReadsNetworkOrder(x: uint64)
    ensures ByteSwap(x) == FromBE(ToLE(x, 8))
  {
    FromBEIsFromLEReversed(ToLE(x, 8));
  }

  class Counter {
    var high: uint64   // bytes 0 to 7, read as a little-endian word
    var low: uint64    // bytes 8 to 15

    /** The counter as it lies in memory. */
    function Image(): (b: seq<byte>)
      reads this
      ensures |b| == BLOCK
    {
      ToLE(high, 8) + ToLE(low, 8)
    }

    ghost function Value(): nat
      reads this
    {
      FromBE(Image())
    }

    lemma ValueOfWords()
      ensures Value() == ByteSwap(high) * TWO_64 + ByteSwap(low)
      ensures Value() < COUNTERS && Image() == CounterBlock(Value())
    {
      CountersValue();
      FromBEConcat(ToLE(high, 8), ToLE(low, 8));
      ByteSwapReadsNetworkOrder(high);
      ByteSwapReadsNetworkOrder(low);
      BlockOfValue(Image());
    }

    constructor (counter: seq<byte>)
      requires |counter| == BLOCK
      ensures Image() == counter
    {
      CountersValue();
      FromLEBound(counter[..8]);
      FromLEBound(counter[8..]);
      ToFromLE(counter[..8]);
      ToFromLE(counter[8..]);
      high := FromLE(counter[..8]);
      low := FromLE(counter[8..]);
    }

    /** Adds one to the 128-bit value, wrapping around. */
    method Increment()
      modifies this
      ensures Value() == (old(Value()) + 1) % COUNTERS
      ensures Image() == CounterBlock(old(Value()) + 1)
    {
      hide ByteSwap, CounterBlock, FromBE, ToLE, Counter.Image, Counter.Value;
      ghost var before := Value();
      ValueOfWords();
      StepWords();
      ValueOfWords();
      NextImage(before, Value());
    }

    /** The two words one step on. */
    method StepWords()
      modifies this
      ensures ByteSwap(high) * TWO_64 + ByteSwap(low) ==
              (old(ByteSwap(high)) * TWO_64 + old(ByteSwap(low)) + 1) % COUNTERS
    {
      hide ByteSwap;
      ghost var h := ByteSwap(high);
      var lowNum := ByteSwap(low);
      var newLowNum := (lowNum + 1) % TWO_64;
      low := ByteSwap(newLowNum);
      ByteSwapTwice(newLowNum);
      if newLowNum < lowNum {
        var newHigh := (ByteSwap(high) + 1) % TWO_64;
        high := ByteSwap(newHigh);
        ByteSwapTwice(newHigh);
      }
      CarryIncrement(h, lowNum);
    }
  }

  lemma NextImage(before: nat, value: nat)
    requires value == (before + 1) % COUNTERS
    ensures CounterBlock(value) == CounterBlock(before + 1)
  {
    hide CounterBlock;
    SmallMod(value, COUNTERS);
    SameCounterBlock(value, before + 1);
  }

  lemma CarryIncrement(high: uint64, low: uint64)
    ensures var newLow := (low + 1) % TWO_64;
            var newHigh := if newLow < low then (high + 1) % TWO_64 else high;
            newHigh * TWO_64 + newLow == (high * TWO_64 + low + 1) % COUNTERS
  {
  }

  // ------------------------------------------------------------------ masks

  /** Counter blocks `v`, `v + 1`, ... */
  function Masks(v: nat, n: nat): (m: seq<byte>)
    ensures |m| == BLOCK * n
  {
    if n == 0 then [] else Masks(v, n - 1) + CounterBlock(v + n - 1)
  }

  lemma {:induction false} MaskBlock(v: nat, n: nat, i: nat)
    requires i < n
    ensures Masks(v, n)[BLOCK * i..BLOCK * (i + 1)] == CounterBlock(v + i)
  {
    if i < n - 1 {
      MaskBlock(v, n - 1, i);
      assert Masks(v, n)[..BLOCK * (n - 1)] == Masks(v, n - 1);
      PrefixSlice(Masks(v, n), Masks(v, n - 1), BLOCK * (n - 1), BLOCK * i, BLOCK * (i + 1));
    }
  }

  function Blocks(n: nat): nat { (n + BLOCK - 1) / BLOCK }

  /** Fills `mask` with the next counter blocks and leaves the counter behind the last. */
  method GenerateCounterMask(counter: Counter, length: nat, mask: array<byte>) returns (maskLength: nat)
    requires length > 0 && mask.Length >= BLOCK * Blocks(length)
    modifies counter, mask
    ensures maskLength == BLOCK * Blocks(length)
    ensures mask[..maskLength] == Masks(old(counter.Value()), Blocks(length))
    ensures counter.Image() == CounterBlock(old(counter.Value()) + Blocks(length))
    ensures mask[maskLength..] == old(mask[maskLength..])
  {
    hide ByteSwap, CounterBlock, FromBE, ToLE, Blocks;
    ghost var start, rest := counter.Value(), mask[BLOCK * Blocks(length)..];
    var blocks := Blocks(length);
    maskLength := BLOCK * blocks;
    counter.ValueOfWords();
    for i := 0 to blocks
      invariant mask[..BLOCK * i] == Masks(start, i)
      invariant counter.Image() == CounterBlock(start + i)
      invariant mask[maskLength..] == rest
    {
      var image := counter.Image();
      ghost var before := mask[..];
      CopyBlock(mask, BLOCK * i, image);
      SuffixSlice(mask[..], before, BLOCK * i + BLOCK, maskLength, mask.Length);
      JoinSlices(mask[..], 0, BLOCK * i, BLOCK * i + BLOCK);
      NextCounter(start + i, counter.Value());
      counter.Increment();
    }
  }

  method CopyBlock(mask: array<byte>, at: nat, image: seq<byte>)
    requires at + |image| <= mask.Length
    modifies mask
    ensures mask[..at] == old(mask[..at])
    ensures mask[at..at + |image|] == image
    ensures mask[at + |image|..] == old(mask[at + |image|..])
  {
    forall k | 0 <= k < |image| {
      mask[at + k] := image[k];
    }
  }

  lemma NextCounter(v: nat, value: nat)
    requires value == FromBE(CounterBlock(v))
    ensures CounterBlock(value + 1) == CounterBlock(v + 1)
  {
    CounterBlockValue(v);
    AddModTwice(v, 0, 1, COUNTERS);
    SameCounterBlock(value + 1, v + 1);
  }

  lemma SameCounterBlock(v: nat, w: nat)
    requires v % COUNTERS == w % COUNTERS
    ensures CounterBlock(v) == CounterBlock(w)
  {
  }

  /** Byte-wise exclusive or of a message and a mask at least as long. */
  method MaskMessage(plaintext: array<byte>, length: nat, mask: array<byte>, ciphertext: array<byte>)
    requires length <= plaintext.Length && length <= mask.Length && length <= ciphertext.Length
    modifies ciphertext
    ensures ciphertext[..length] == Xor(old(plaintext[..length]), old(mask[..length]))
    ensures ciphertext[length..] == old(ciphertext[length..])
  {
    ghost var p, m, rest := plaintext[..length], mask[..length], ciphertext[length..];
    for i := 0 to length
      invariant forall k :: i <= k < length ==> plaintext[k] == p[k] && mask[k] == m[k]
      invariant ciphertext[..i] == Xor(p[..i], m[..i])
      invariant ciphertext[length..] == rest
    {
      ghost var done := ciphertext[..i];
      ciphertext[i] := XorByte(plaintext[i], mask[i]);
      XorAppend(p[..i], p[i], m[..i], m[i]);
      assert p[..i + 1] == p[..i] + [p[i]] && m[..i + 1] == m[..i] + [m[i]];
      assert ciphertext[..i + 1] == done + [ciphertext[i]];
    }
    assert p[..length] == p && m[..length] == m;
  }

  lemma {:induction false} XorAppend(a: seq<byte>, x: byte, b: seq<byte>, y: byte)
    requires |a| == |b|
    ensures Xor(a + [x], b + [y]) == Xor(a, b) + [XorByte(x, y)]
  {
    hide XorByte;
    if a != [] {
      XorAppend(a[1..], x, b[1..], y);
      assert (a + [x])[1..] == a[1..] + [x] && (b + [y])[1..] == b[1..] + [y];
    }
  }

  // ---------------------------------------------------------------- the mode

  /** Encrypted counter blocks from counter value `v`. */
  function KeyStream(c: Cipher, key: seq<byte>, v: nat, n: nat): (s: seq<byte>)
    requires Lawful(c)
    ensures |s| == BLOCK * n
    decreases n
  {
    if n == 0 then [] else c.enc(key, CounterBlock(v)) + KeyStream(c, key, v + 1, n - 1)
  }

  function Ctr(c: Cipher, key: seq<byte>, v: nat, text: seq<byte>): (r: seq<byte>)
    requires Lawful(c)
    ensures |r| == |text|
  {
    Xor(text, KeyStream(c, key, v, Blocks(|text|)))
  }

  lemma {:induction false} KeyStreamBlock(c: Cipher, key: seq<byte>, v: nat, n: nat, i: nat)
    requires Lawful(c) && i < n
    ensures KeyStream(c, key, v, n)[BLOCK * i..BLOCK * (i + 1)] == c.enc(key, CounterBlock(v + i))
    decreases n
  {
    var s := KeyStream(c, key, v, n);
    var first, rest := c.enc(key, CounterBlock(v)), KeyStream(c, key, v + 1, n - 1);
    assert s == first + rest;
    if i == 0 {
      assert s[0..BLOCK] == first;
    } else {
      KeyStreamBlock(c, key, v + 1, n - 1, i - 1);
      TailSlice(s, first, rest, BLOCK * (i - 1), BLOCK * i);
    }
  }

  /** The 128-bit counter wraps, so only its value modulo 2^128 matters. */
  lemma {:induction false} KeyStreamPeriodic(c: Cipher, key: seq<byte>, v: nat, w: nat, n: nat)
    requires Lawful(c) && v % COUNTERS == w % COUNTERS
    ensures KeyStream(c, key, v, n) == KeyStream(c, key, w, n)
    decreases n
  {
    if n > 0 {
      assert (v + 1) % COUNTERS == (w + 1) % COUNTERS by {
        assert v + 1 - (w + 1) == COUNTERS * (v / COUNTERS - w / COUNTERS);
      }
      KeyStreamPeriodic(c, key, v + 1, w + 1, n - 1);
    }
  }

  lemma {:induction false} KeyStreamConcat(c: Cipher, key: seq<byte>, v: nat, m: nat, n: nat)
    requires Lawful(c)
    ensures KeyStream(c, key, v, m + n) == KeyStream(c, key, v, m) + KeyStream(c, key, v + m, n)
    decreases m
  {
    if m > 0 {
      KeyStreamConcat(c, key, v + 1, m - 1, n);
    }
  }

  lemma {:induction false} XorConcat(a: seq<byte>, b: seq<byte>, k: seq<byte>, l: seq<byte>)
    requires |a| == |k| && |b| <= |l|
    ensures Xor(a + b, k + l) == Xor(a, k) + Xor(b, l)
  {
    hide XorByte;
    if a == [] {
      assert a + b == b && k + l == l;
    } else {
      ConcatTail(a, b);
      ConcatTail(k, l);
      XorConcat(a[1..], b, k[1..], l);
    }
  }

  lemma ConcatTail<T>(a: seq<T>, b: seq<T>)
    requires a != []
    ensures (a + b)[0] == a[0] && (a + b)[1..] == a[1..] + b
  {
  }

  /** The bytes of a counter block: the big-endian image of the counter. */
  lemma CounterBlockBytes(v: nat, i: nat)
    requires v < COUNTERS && i < BLOCK
    ensures CounterBlock(v)[i] == v / Pow256(BLOCK - 1 - i) % 256
  {
    SmallMod(v, COUNTERS);
    ReverseAt(ToLE(v, BLOCK), i);
    ToLEAt(v, BLOCK, BLOCK - 1 - i);
  }

  /** Whole blocks that cover `n` bytes, and no more than needed. */
  lemma BlocksCover(n: nat)
    ensures n <= BLOCK * Blocks(n) < n + BLOCK
  {
  }

  /** Main result: byte `i` of the output is byte `i` of the text masked with byte `i % 16` of the
      encrypted counter of its block. */
  lemma CtrBytes(c: Cipher, key: seq<byte>, v: nat, text: seq<byte>, i: nat)
    requires Lawful(c) && i < |text|
    ensures |c.enc(key, CounterBlock(v + i / BLOCK))| == BLOCK
    ensures Ctr(c, key, v, text)[i] == XorByte(text[i], c.enc(key, CounterBlock(v + i / BLOCK))[i % BLOCK])
  {
    var n, q := Blocks(|text|), i / BLOCK;
    BlocksCover(|text|);
    EncryptedLength(c, key, CounterBlock(v + q));
    KeyStreamBlock(c, key, v, n, q);
    hide Lawful, KeyStream, CounterBlock, XorByte;
    XorAt(text, KeyStream(c, key, v, n), i);
    hide Xor;
    ElementOfSlice(KeyStream(c, key, v, n), BLOCK * q, BLOCK * (q + 1), i % BLOCK);
  }

  /** Main result: the same call that encrypts decrypts. */
  lemma CtrTwice(c: Cipher, key: seq<byte>, v: nat, text: seq<byte>)
    requires Lawful(c)
    ensures Ctr(c, key, v, Ctr(c, key, v, text)) == text
  {
    XorTwice(text, KeyStream(c, key, v, Blocks(|text|)));
  }

  /** Main result: a first chunk of whole blocks does not change what the rest encrypts to. */
  lemma CtrChunks(c: Cipher, key: seq<byte>, v: nat, a: seq<byte>, b: seq<byte>)
    requires Lawful(c) && |a| % BLOCK == 0
    ensures Ctr(c, key, v, a + b) == Ctr(c, key, v, a) + Ctr(c, key, v + Blocks(|a|), b)
  {
    var m, n := Blocks(|a|), Blocks(|b|);
    assert Blocks(|a + b|) == m + n && BLOCK * m == |a|;
    KeyStreamConcat(c, key, v, m, n);
    XorConcat(a, b, KeyStream(c, key, v, m), KeyStream(c, key, v + m, n));
  }

  /** The same with the second start as it is stored, in 128 bits. */
  lemma CtrChunksStored(c: Cipher, key: seq<byte>, v: nat, a: seq<byte>, b: seq<byte>)
    requires Lawful(c) && |a| % BLOCK == 0
    ensures Ctr(c, key, v, a + b) == Ctr(c, key, v, a) + Ctr(c, key, FromBE(CounterBlock(v + Blocks(|a|))), b)
  {
    hide Lawful, CounterBlock, FromBE, Ctr, Blocks;
    CtrChunks(c, key, v, a, b);
    var w := v + Blocks(|a|);
    CounterBlockValue(w);
    SmallMod(FromBE(CounterBlock(w)), COUNTERS);
    CtrPeriodic(c, key, w, FromBE(CounterBlock(w)), b);
  }

  lemma CtrPeriodic(c: Cipher, key: seq<byte>, v: nat, w: nat, text: seq<byte>)
    requires Lawful(c) && v % COUNTERS == w % COUNTERS
    ensures Ctr(c, key, v, text) == Ctr(c, key, w, text)
  {
    hide Lawful, KeyStream, Xor;
    KeyStreamPeriodic(c, key, v, w, Blocks(|text|));
  }

  class CtrSymmetricCrypt {
    var counter: Counter?

    constructor ()
      ensures counter == null
    {
      counter := null;
    }

    /** Accepts exactly 16 bytes. */
    method SetCounter(bytes: seq<byte>) returns (ok: bool)
      modifies this
      ensures ok <==> |bytes| == BLOCK
      ensures ok ==> counter != null && fresh(counter) && counter.Image() == bytes
      ensures !ok ==> counter == old(counter)
    {
      if |bytes| != BLOCK {
        return false;
      }
      counter := new Counter(bytes);
      ok := true;
    }

    /** Encrypts or decrypts, and leaves the counter behind the last block used, even if
        only part of that block was. Fails without a counter or with a bad key length. */
    method Crypt(c: Cipher, key: seq<byte>, input: seq<byte>) returns (ok: bool, output: seq<byte>)
      requires Lawful(c) && input != []
      modifies this
      ensures ok <==> old(counter) != null && (|key| == 16 || |key| == 24 || |key| == 32)
      ensures ok ==> output == Ctr(c, key, old(counter.Value()), input)
      ensures ok ==> counter != null && counter.Image() == CounterBlock(old(counter.Value()) + Blocks(|input|))
      ensures !ok ==> counter == old(counter) && output == []
    {
      output := [];
      if counter == null {
        return false, output;
      }
      if |key| != 16 && |key| != 24 && |key| != 32 {
        return false, output;
      }
      counter.ValueOfWords();
      var ivec;
      output, ivec := Ctr128Encrypt(c, key, input, counter.Image(), counter.Value());
      ok := SetCounter(ivec);
    }
  }

  /** Two calls on one object, the first with whole blocks, produce what one call over both
      inputs would. */
  method CryptInTwo(crypt: CtrSymmetricCrypt, c: Cipher, key: seq<byte>, a: seq<byte>, b: seq<byte>)
      returns (ok: bool, first: seq<byte>, second: seq<byte>)
    requires Lawful(c) && a != [] && b != [] && |a| % BLOCK == 0
    modifies crypt
    ensures ok <==> old(crypt.counter) != null && (|key| == 16 || |key| == 24 || |key| == 32)
    ensures ok ==> first + second == Ctr(c, key, old(crypt.counter.Value()), a + b)
  {
    hide Lawful, CounterBlock, FromBE, Ctr;
    ghost var v := if crypt.counter == null then 0 else crypt.counter.Value();
    ok, first := crypt.Crypt(c, key, a);
    second := [];
    if ok {
      CtrChunksStored(c, key, v, a, b);
      ok, second := crypt.Crypt(c, key, b);
    }
  }

  /** The library routine, byte by byte: a fresh block of key stream whenever the last is
      used up, the counter stepped as soon as its block is encrypted. */
  method Ctr128Encrypt(c: Cipher, key: seq<byte>, input: seq<byte>, iv: seq<byte>, ghost v: nat)
      returns (out: seq<byte>, ivec: seq<byte>)
    requires Lawful(c) && iv == CounterBlock(v)
    ensures out == Ctr(c, key, v, input)
    ensures ivec == CounterBlock(v + Blocks(|input|))
  {
    hide Lawful, CounterBlock, FromBE, Ctr, Blocks;
    out, ivec := [], iv;
    BlocksAround(0);
    EmptyCtr(c, key, v);
    var ecount := Zeros(BLOCK);
    var n := 0;
    for l := 0 to |input|
      invariant n == l % BLOCK && |ecount| == BLOCK && |out| == l
      invariant ivec == CounterBlock(v + Blocks(l))
      invariant n > 0 ==> ecount == c.enc(key, CounterBlock(v + l / BLOCK))
      invariant out == Ctr(c, key, v, input[..l])
    {
      BlocksAround(l);
      if n == 0 {
        EncryptedLength(c, key, ivec);
        ecount := c.enc(key, ivec);
        NextCounter(v + Blocks(l), FromBE(ivec));
        ivec := CounterBlock(FromBE(ivec) + 1);
      }
      out := out + [XorByte(input[l], ecount[n])];
      CtrStep(c, key, v, input[..l], input[l], ecount);
      BlocksAround(l + 1);
      assert input[..l + 1] == input[..l] + [input[l]];
      n := (n + 1) % BLOCK;
    }
    assert input[..|input|] == input;
  }

  lemma EncryptedLength(c: Cipher, key: seq<byte>, b: seq<byte>)
    requires Lawful(c) && |b| == BLOCK
    ensures |c.enc(key, b)| == BLOCK
  {
  }

  lemma EmptyCtr(c: Cipher, key: seq<byte>, v: nat)
    requires Lawful(c)
    ensures Ctr(c, key, v, []) == []
  {
  }

  /** One more byte takes one more byte of key stream. */
  lemma CtrStep(c: Cipher, key: seq<byte>, v: nat, text: seq<byte>, x: byte, ecount: seq<byte>)
    requires Lawful(c) && ecount == c.enc(key, CounterBlock(v + |text| / BLOCK))
    ensures Ctr(c, key, v, text + [x]) == Ctr(c, key, v, text) + [XorByte(x, ecount[|text| % BLOCK])]
  {
    var l := |text|;
    var q := l / BLOCK;
    var s := KeyStream(c, key, v, q + 1);
    KeyStreamAt(c, key, v, l);
    hide Lawful, KeyStream, CounterBlock, XorByte, Xor;
    XorStep(text, x, KeyStream(c, key, v, Blocks(l)), s);
  }

  lemma XorStep(a: seq<byte>, x: byte, k: seq<byte>, s: seq<byte>)
    requires |a| <= |k| <= |s| && |a| < |s| && k == s[..|k|]
    ensures Xor(a + [x], s) == Xor(a, k) + [XorByte(x, s[|a|])]
  {
    hide XorByte, Xor;
    XorPrefix(a, k, s);
    XorPrefix(a + [x], s, s);
    XorAppend(a, x, s[..|a|], s[|a|]);
    assert s[..|a| + 1] == s[..|a|] + [s[|a|]];
  }

  lemma KeyStreamAt(c: Cipher, key: seq<byte>, v: nat, l: nat)
    requires Lawful(c)
    ensures var q := l / BLOCK;
            var s := KeyStream(c, key, v, q + 1);
            && |c.enc(key, CounterBlock(v + q))| == BLOCK
            && s[l] == c.enc(key, CounterBlock(v + q))[l % BLOCK]
            && Blocks(l + 1) == q + 1 && Blocks(l) <= q + 1
            && KeyStream(c, key, v, Blocks(l)) == s[..BLOCK * Blocks(l)]
  {
    var q := l / BLOCK;
    KeyStreamBlock(c, key, v, q + 1, q);
    EncryptedLength(c, key, CounterBlock(v + q));
    BlocksAround(l);
    KeyStreamCut(c, key, v, q, Blocks(l));
    hide CounterBlock, Lawful, KeyStream, Blocks;
    ElementOfSlice(KeyStream(c, key, v, q + 1), BLOCK * q, BLOCK * (q + 1), l % BLOCK);
  }

  /** A shorter key stream is the front of a longer one. */
  lemma KeyStreamCut(c: Cipher, key: seq<byte>, v: nat, q: nat, n: nat)
    requires Lawful(c) && (n == q || n == q + 1)
    ensures KeyStream(c, key, v, n) == KeyStream(c, key, v, q + 1)[..BLOCK * n]
  {
    KeyStreamConcat(c, key, v, q, 1);
    hide CounterBlock, Lawful, KeyStream;
    if n == q {
      assert KeyStream(c, key, v, q + 1)[..BLOCK * q] == KeyStream(c, key, v, q);
    }
  }

  lemma BlocksAround(l: nat)
    ensures Blocks(l + 1) == l / BLOCK + 1
    ensures Blocks(l) == l / BLOCK || Blocks(l) == l / BLOCK + 1
    ensures l == BLOCK * (l / BLOCK) + l % BLOCK
    ensures l % BLOCK == 0 <==> Blocks(l) == l / BLOCK
    ensures (l % BLOCK + 1) % BLOCK == (l + 1) % BLOCK
    ensures (l + 1) % BLOCK != 0 ==> (l + 1) / BLOCK == l / BLOCK
  {
  }

  lemma ElementOfSlice<T>(s: seq<T>, lo: nat, hi: nat, k: nat)
    requires lo <= hi <= |s| && k < hi - lo
    ensures s[lo..hi][k] == s[lo + k]
  {
  }

  /** Only as much of the mask matters as there is message. */
  lemma {:induction false} XorPrefix(a: seq<byte>, k: seq<byte>, s: seq<byte>)
    requires |a| <= |k| <= |s| && k == s[..|k|]
    ensures Xor(a, k) == Xor(a, s[..|a|])
  {
    if a != [] {
      XorPrefix(a[1..], k[1..], s[1..]);
      assert s[..|a|][1..] == s[1..][..|a| - 1];
    }
  }
}
