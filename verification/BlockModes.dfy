/** Whole-message ECB and CBC over an abstract block cipher, and PKCS #7 padding
    (NIST SP 800-38A sections 6.1 and 6.2, section 6.3 of RFC 5652). */
module BlockModes {
  import opened Bytes
  import opened Bits

  const BLOCK: nat := 16

  /** A keyed permutation of 16-byte blocks; AES is not part of this model. */
  datatype Cipher = Cipher(enc: (seq<byte>, seq<byte>) -> seq<byte>, dec: (seq<byte>, seq<byte>) -> seq<byte>)

  ghost predicate Lawful(c: Cipher) {
    && (forall k, b :: |b| == BLOCK ==> |c.enc(k, b)| == BLOCK)
    && (forall k, b :: |b| == BLOCK ==> |c.dec(k, b)| == BLOCK)
    && (forall k, b :: |b| == BLOCK ==> c.dec(k, c.enc(k, b)) == b)
  }

  /** Exclusive or of the low `width` bits. */
  function XorBits(a: nat, b: nat, width: nat): (x: nat) {
    if width == 0 then 0 else (a + b) % 2 + 2 * XorBits(a / 2, b / 2, width - 1)
  }

  lemma {:induction false} XorBitsBound(a: nat, b: nat, width: nat)
    requires a < Pow2(width)
    ensures XorBits(a, b, width) < Pow2(width)
    ensures XorBits(XorBits(a, b, width), b, width) == a
  {
    if width > 0 {
      XorBitsBound(a / 2, b / 2, width - 1);
      XorLowBit(a, b, XorBits(a / 2, b / 2, width - 1));
    }
  }

  lemma XorLowBit(a: nat, b: nat, high: nat)
    ensures ((a + b) % 2 + 2 * high) / 2 == high
    ensures ((a + b) % 2 + 2 * high + b) % 2 == a % 2
  {
  }

  lemma PowEight()
    ensures Pow2(8) == 256
  {
    assert Pow2(4) == 2 * Pow2(3);
    assert Pow2(6) == 2 * Pow2(5);
  }

  function XorByte(a: byte, b: byte): byte {
    PowEight();
    XorBitsBound(a, b, 8);
    XorBits(a, b, 8)
  }

  lemma XorByteTwice(a: byte, b: byte)
    ensures XorByte(XorByte(a, b), b) == a
  {
    PowEight();
    XorBitsBound(a, b, 8);
  }

  // `XorByte` is exclusive or on eight bits.

  lemma Halved(x: bv8)
    ensures (x >> 1) as int == x as int / 2
  {
  }

  lemma LowBit(x: bv8)
    ensures (x & 1) as int == x as int % 2
  {
  }

  lemma DoubledAndOne(x: bv8, y: bv8)
    requires x < 128 && y < 2
    ensures (2 * x + y) as int == 2 * (x as int) + y as int
  {
  }

  lemma XorParts(a: bv8, b: bv8)
    ensures (a >> 1) ^ (b >> 1) < 128 && (a & 1) ^ (b & 1) < 2
    ensures a ^ b == 2 * ((a >> 1) ^ (b >> 1)) + ((a & 1) ^ (b & 1))
  {
  }

  lemma XorOfBits(a: bv8, b: bv8)
    requires a < 2 && b < 2
    ensures (a ^ b) as int == (a as int + b as int) % 2
  {
  }

  lemma XorOneBit(a: bv8, b: bv8)
    ensures (a ^ b) as int == (a as int + b as int) % 2 + 2 * (((a >> 1) ^ (b >> 1)) as int)
  {
    XorParts(a, b);
    DoubledAndOne((a >> 1) ^ (b >> 1), (a & 1) ^ (b & 1));
    assert a & 1 < 2 && b & 1 < 2;
    XorOfBits(a & 1, b & 1);
    LowBit(a);
    LowBit(b);
    ParityOfSum(a as int, b as int);
  }

  lemma ParityOfSum(a: int, b: int)
    ensures (a % 2 + b % 2) % 2 == (a + b) % 2
  {
  }

  function Number(x: bv8): (n: byte) {
    x as int
  }

  function ShiftedRight(x: bv8): bv8 {
    x >> 1
  }

  function ExclusiveOr(a: bv8, b: bv8): bv8 {
    a ^ b
  }

  lemma ZeroNumbers(a: bv8, b: bv8)
    requires Number(a) < 1 && Number(b) < 1
    ensures Number(ExclusiveOr(a, b)) == 0
  {
  }

  lemma HalfNumber(x: bv8)
    ensures Number(ShiftedRight(x)) == Number(x) / 2
  {
    Halved(x);
  }

  lemma XorNumber(a: bv8, b: bv8)
    ensures Number(ExclusiveOr(a, b)) ==
            (Number(a) + Number(b)) % 2 + 2 * Number(ExclusiveOr(ShiftedRight(a), ShiftedRight(b)))
  {
    hide ShiftedRight, ExclusiveOr, Number;
    SameNumber(a);
    SameNumber(b);
    SameXor(a, b);
    XorOneBit(a, b);
  }

  lemma SameNumber(x: bv8)
    ensures Number(x) == x as int
  {
  }

  lemma SameXor(a: bv8, b: bv8)
    ensures Number(ExclusiveOr(a, b)) == (a ^ b) as int
    ensures Number(ExclusiveOr(ShiftedRight(a), ShiftedRight(b))) == ((a >> 1) ^ (b >> 1)) as int
  {
  }

  lemma {:induction false} XorBitsIsXor(a: bv8, b: bv8, width: nat)
    requires Number(a) < Pow2(width) && Number(b) < Pow2(width)
    ensures XorBits(Number(a), Number(b), width) == Number(ExclusiveOr(a, b))
    decreases width
  {
    hide Number, ShiftedRight, ExclusiveOr, XorBits, Pow2;
    XorUnrolled(Number(a), Number(b), width);
    if width == 0 {
      ZeroNumbers(a, b);
    } else {
      HalfNumber(a);
      HalfNumber(b);
      XorNumber(a, b);
      XorBitsIsXor(ShiftedRight(a), ShiftedRight(b), width - 1);
    }
  }

  lemma XorUnrolled(a: nat, b: nat, width: nat)
    ensures width == 0 ==> Pow2(width) == 1 && XorBits(a, b, width) == 0
    ensures width > 0 ==> XorBits(a, b, width) == (a + b) % 2 + 2 * XorBits(a / 2, b / 2, width - 1)
    ensures width > 0 && a < Pow2(width) ==> a / 2 < Pow2(width - 1)
    ensures width > 0 && b < Pow2(width) ==> b / 2 < Pow2(width - 1)
  {
  }

  /** Masking a byte is the exclusive or of its bits. */
  lemma XorByteIsXor(a: bv8, b: bv8)
    ensures XorByte(a as int, b as int) == (a ^ b) as int
  {
    PowEight();
    XorBitsIsXor(a, b, 8);
  }

  function Xor(a: seq<byte>, b: seq<byte>): (x: seq<byte>)
    requires |a| <= |b|
    ensures |x| == |a|
  {
    if a == [] then [] else [XorByte(a[0], b[0])] + Xor(a[1..], b[1..])
  }

  lemma {:induction false} XorAt(a: seq<byte>, b: seq<byte>, i: nat)
    requires i < |a| <= |b|
    ensures Xor(a, b)[i] == XorByte(a[i], b[i])
  {
    if i > 0 {
      XorAt(a[1..], b[1..], i - 1);
    }
  }

  /** Masking with the same bytes again undoes it. */
  lemma {:induction false} XorTwice(a: seq<byte>, b: seq<byte>)
    requires |a| <= |b|
    ensures Xor(Xor(a, b), b) == a
  {
    if a != [] {
      XorByteTwice(a[0], b[0]);
      XorTwice(a[1..], b[1..]);
      assert Xor(a, b)[1..] == Xor(a[1..], b[1..]);
    }
  }

  /** A mode of operation under a key. In CBC mode `chain` is the block that masks the
      next one; ECB mode ignores it. */
  datatype Mode = Mode(cipher: Cipher, key: seq<byte>, cbc: bool, chain: seq<byte>) {
    ghost predicate Valid() {
      Lawful(cipher) && |chain| == BLOCK
    }

    function EncBlock(p: seq<byte>): (c: seq<byte>)
      requires Valid() && |p| == BLOCK
      ensures |c| == BLOCK
    {
      cipher.enc(key, if cbc then Xor(p, chain) else p)
    }

    function DecBlock(c: seq<byte>): (p: seq<byte>)
      requires Valid() && |c| == BLOCK
      ensures |p| == BLOCK
    {
      if cbc then Xor(cipher.dec(key, c), chain) else cipher.dec(key, c)
    }

    /** The mode after a block whose ciphertext is `c`. */
    function After(c: seq<byte>): (m: Mode)
      requires Valid() && |c| == BLOCK
      ensures m.Valid()
    {
      if cbc then this.(chain := c) else this
    }

    function Enc(p: seq<byte>): (c: seq<byte>)
      requires Valid() && |p| % BLOCK == 0
      ensures |c| == |p|
      decreases |p|
    {
      if p == [] then [] else
        var first := EncBlock(p[..BLOCK]);
        first + After(first).Enc(p[BLOCK..])
    }

    function Dec(c: seq<byte>): (p: seq<byte>)
      requires Valid() && |c| % BLOCK == 0
      ensures |p| == |c|
      decreases |c|
    {
      if c == [] then [] else DecBlock(c[..BLOCK]) + After(c[..BLOCK]).Dec(c[BLOCK..])
    }

    /** The mode after ciphertext `c`. */
    function AfterAll(c: seq<byte>): (m: Mode)
      requires Valid() && |c| % BLOCK == 0
      ensures m.Valid()
    {
      if c == [] then this else After(c[|c| - BLOCK..])
    }
  }

  lemma DecEncBlock(m: Mode, p: seq<byte>)
    requires m.Valid() && |p| == BLOCK
    ensures m.DecBlock(m.EncBlock(p)) == p
  {
    if m.cbc {
      XorTwice(p, m.chain);
    }
  }

  lemma {:induction false} DecEnc(m: Mode, p: seq<byte>)
    requires m.Valid() && |p| % BLOCK == 0
    ensures m.Dec(m.Enc(p)) == p
    decreases |p|
  {
    if p != [] {
      hide Lawful, Mode.EncBlock, Mode.DecBlock;
      var first := m.EncBlock(p[..BLOCK]);
      var rest := m.After(first).Enc(p[BLOCK..]);
      assert (first + rest)[..BLOCK] == first && (first + rest)[BLOCK..] == rest;
      DecEncBlock(m, p[..BLOCK]);
      DecEnc(m.After(first), p[BLOCK..]);
      assert p[..BLOCK] + p[BLOCK..] == p;
    }
  }

  /** The recursion is the standard's block equations: each ciphertext block is the
      encryption of the plaintext block, in CBC masked with the ciphertext block before. */
  lemma {:induction false} EncBlockEquation(m: Mode, p: seq<byte>, j: nat)
    requires m.Valid() && |p| % BLOCK == 0 && BLOCK * (j + 1) <= |p|
    ensures var c := m.Enc(p);
            var block := p[BLOCK * j..BLOCK * (j + 1)];
            var previous := if j == 0 then m.chain else c[BLOCK * (j - 1)..BLOCK * j];
            && |block| == |previous| == BLOCK
            && c[BLOCK * j..BLOCK * (j + 1)] == m.cipher.enc(m.key, if m.cbc then Xor(block, previous) else block)
    decreases |p|
  {
    hide Lawful;
    var c := m.Enc(p);
    var first := m.EncBlock(p[..BLOCK]);
    var rest := m.After(first).Enc(p[BLOCK..]);
    assert c == first + rest;
    if j == 0 {
      assert c[..BLOCK] == first;
    } else {
      EncBlockEquation(m.After(first), p[BLOCK..], j - 1);
      TailSlice(p, p[..BLOCK], p[BLOCK..], BLOCK * (j - 1), BLOCK * j);
      TailSlice(c, first, rest, BLOCK * (j - 1), BLOCK * j);
      if j == 1 {
        assert c[0..BLOCK] == first;
      } else {
        TailSlice(c, first, rest, BLOCK * (j - 2), BLOCK * (j - 1));
      }
    }
  }

  lemma TailSlice<T>(a: seq<T>, head: seq<T>, tail: seq<T>, x: nat, y: nat)
    requires a == head + tail && x <= y <= |tail|
    ensures a[|head| + x..|head| + y] == tail[x..y]
  {
  }

  /** Encrypting in two pieces, the second with the chain the first left. */
  lemma {:induction false} EncConcat(m: Mode, a: seq<byte>, b: seq<byte>)
    requires m.Valid() && |a| % BLOCK == 0 && |b| % BLOCK == 0
    ensures m.Enc(a + b) == m.Enc(a) + m.AfterAll(m.Enc(a)).Enc(b)
    decreases |a|
  {
    hide Lawful, Mode.EncBlock;
    if a == [] {
      assert a + b == b;
    } else {
      var first := m.EncBlock(a[..BLOCK]);
      var rest := m.After(first).Enc(a[BLOCK..]);
      assert (a + b)[..BLOCK] == a[..BLOCK] && (a + b)[BLOCK..] == a[BLOCK..] + b;
      EncConcat(m.After(first), a[BLOCK..], b);
      AfterAllConcat(m, first, rest);
    }
  }

  lemma {:induction false} DecConcat(m: Mode, a: seq<byte>, b: seq<byte>)
    requires m.Valid() && |a| % BLOCK == 0 && |b| % BLOCK == 0
    ensures m.Dec(a + b) == m.Dec(a) + m.AfterAll(a).Dec(b)
    decreases |a|
  {
    hide Lawful, Mode.DecBlock;
    if a == [] {
      assert a + b == b;
    } else {
      assert (a + b)[..BLOCK] == a[..BLOCK] && (a + b)[BLOCK..] == a[BLOCK..] + b;
      DecConcat(m.After(a[..BLOCK]), a[BLOCK..], b);
      AfterAllConcat(m, a[..BLOCK], a[BLOCK..]);
      assert a[..BLOCK] + a[BLOCK..] == a;
    }
  }

  lemma AfterAllConcat(m: Mode, a: seq<byte>, b: seq<byte>)
    requires m.Valid() && |a| % BLOCK == 0 && |b| % BLOCK == 0
    ensures m.AfterAll(a + b) == m.AfterAll(a).AfterAll(b)
  {
    if b == [] {
      assert a + b == a;
    } else {
      assert (a + b)[|a + b| - BLOCK..] == b[|b| - BLOCK..];
    }
  }

  // ---------------------------------------------------------------- padding

  function PadBytes(n: byte): (p: seq<byte>)
    ensures |p| == n && forall i :: 0 <= i < n ==> p[i] == n
  {
    seq(n, i => n)
  }

  /** One to sixteen bytes, each holding their number, fill the last block. */
  function Pkcs7(m: seq<byte>): (p: seq<byte>)
    ensures |p| % BLOCK == 0 && |m| < |p| <= |m| + BLOCK
  {
    m + PadBytes(BLOCK - |m| % BLOCK)
  }

  function Unpad(p: seq<byte>): (m: Option<seq<byte>>)
    requires BLOCK <= |p|
    ensures m.Some? ==> |p| - BLOCK <= |m.value| < |p| && m.value == p[..|m.value|]
  {
    var n := p[|p| - 1];
    if n == 0 || n > BLOCK then None
    else if exists i :: |p| - n <= i < |p| && p[i] != n then None
    else Some(p[..|p| - n])
  }

  lemma UnpadPkcs7(m: seq<byte>)
    ensures Unpad(Pkcs7(m)) == Some(m)
  {
    var n := BLOCK - |m| % BLOCK;
    var p := Pkcs7(m);
    assert p[|p| - 1] == n;
    assert forall i :: |m| <= i < |p| ==> p[i] == PadBytes(n)[i - |m|];
    assert p[..|m|] == m;
  }

  /** Only the last block matters for unpadding. */
  lemma UnpadLastBlock(front: seq<byte>, last: seq<byte>)
    requires |last| == BLOCK
    ensures Unpad(front + last) == match Unpad(last)
                                   case None => None
                                   case Some(t) => Some(front + t)
  {
    var p := front + last;
    var n := last[BLOCK - 1];
    assert p[|p| - 1] == n;
    if 0 < n <= BLOCK {
      assert forall i :: |p| - n <= i < |p| ==> p[i] == last[i - |front|];
      assert forall i :: BLOCK - n <= i < BLOCK ==> last[i] == p[i + |front|];
      assert p[..|p| - n] == front + last[..BLOCK - n];
    }
  }

  lemma Pkcs7Blocks(a: seq<byte>, b: seq<byte>)
    requires |a| % BLOCK == 0
    ensures Pkcs7(a + b) == a + Pkcs7(b)
  {
    assert |a + b| % BLOCK == |b| % BLOCK;
  }

  // ---------------------------------------------------------- whole messages

  function Encrypt(m: Mode, text: seq<byte>): seq<byte>
    requires m.Valid()
  {
    m.Enc(Pkcs7(text))
  }

  function Decrypt(m: Mode, c: seq<byte>): Option<seq<byte>>
    requires m.Valid()
  {
    if c == [] || |c| % BLOCK != 0 then None else Unpad(m.Dec(c))
  }

  lemma DecryptEncrypt(m: Mode, text: seq<byte>)
    requires m.Valid()
    ensures Decrypt(m, Encrypt(m, text)) == Some(text)
  {
    DecEnc(m, Pkcs7(text));
    UnpadPkcs7(text);
  }

  // The standards' equations for whole messages, in terms of bytes alone.

  /** Block `j` of a text. */
  function Block(s: seq<byte>, j: nat): (b: seq<byte>)
    requires BLOCK * (j + 1) <= |s|
    ensures |b| == BLOCK
  {
    s[BLOCK * j..BLOCK * (j + 1)]
  }

  /** Section 6.1 of SP 800-38A: each block by itself. */
  ghost predicate EcbBlocks(cipher: Cipher, key: seq<byte>, p: seq<byte>, c: seq<byte>) {
    |c| == |p| && forall j: nat :: BLOCK * (j + 1) <= |p| ==> EcbBlockAt(cipher, key, p, c, j)
  }

  ghost predicate EcbBlockAt(cipher: Cipher, key: seq<byte>, p: seq<byte>, c: seq<byte>, j: nat)
    requires |c| == |p| && BLOCK * (j + 1) <= |p|
  {
    Block(c, j) == cipher.enc(key, Block(p, j))
  }

  /** Section 6.2: each block masked with the ciphertext block before it, the first with the IV. */
  ghost predicate CbcBlocks(cipher: Cipher, key: seq<byte>, iv: seq<byte>, p: seq<byte>, c: seq<byte>) {
    |iv| == BLOCK && |c| == |p| && forall j: nat :: BLOCK * (j + 1) <= |p| ==> CbcBlockAt(cipher, key, iv, p, c, j)
  }

  ghost predicate CbcBlockAt(cipher: Cipher, key: seq<byte>, iv: seq<byte>, p: seq<byte>, c: seq<byte>, j: nat)
    requires |iv| == BLOCK && |c| == |p| && BLOCK * (j + 1) <= |p|
  {
    Block(c, j) == cipher.enc(key, Xor(Block(p, j), if j == 0 then iv else Block(c, j - 1)))
  }

  ghost predicate EcbPlain(cipher: Cipher, key: seq<byte>, c: seq<byte>, p: seq<byte>) {
    |p| == |c| && forall j: nat :: BLOCK * (j + 1) <= |c| ==> EcbPlainAt(cipher, key, c, p, j)
  }

  ghost predicate EcbPlainAt(cipher: Cipher, key: seq<byte>, c: seq<byte>, p: seq<byte>, j: nat)
    requires |p| == |c| && BLOCK * (j + 1) <= |c|
  {
    Block(p, j) == cipher.dec(key, Block(c, j))
  }

  ghost predicate CbcPlain(cipher: Cipher, key: seq<byte>, iv: seq<byte>, c: seq<byte>, p: seq<byte>) {
    |iv| == BLOCK && |p| == |c| && forall j: nat :: BLOCK * (j + 1) <= |c| ==> CbcPlainAt(cipher, key, iv, c, p, j)
  }

  ghost predicate CbcPlainAt(cipher: Cipher, key: seq<byte>, iv: seq<byte>, c: seq<byte>, p: seq<byte>, j: nat)
    requires |iv| == BLOCK && |p| == |c| && BLOCK * (j + 1) <= |c|
  {
    var plain := cipher.dec(key, Block(c, j));
    |plain| == BLOCK && Block(p, j) == Xor(plain, if j == 0 then iv else Block(c, j - 1))
  }

  /** Section 6.3 of RFC 5652: up to the next multiple of sixteen, and by at least one byte, the
      text is followed by bytes that say how many they are. */
  ghost predicate Padded(text: seq<byte>, p: seq<byte>) {
    && |p| % BLOCK == 0 && |text| < |p| <= |text| + BLOCK && p[..|text|] == text
    && forall i :: |text| <= i < |p| ==> p[i] == |p| - |text|
  }

  lemma Pkcs7Pads(text: seq<byte>)
    ensures Padded(text, Pkcs7(text))
  {
    var pad := PadBytes(BLOCK - |text| % BLOCK);
    var p := text + pad;
    assert p[..|text|] == text;
    forall i | |text| <= i < |p|
      ensures p[i] == |p| - |text|
    {
      assert p[i] == pad[i - |text|];
    }
  }

  /** Unpadding succeeds exactly on padded texts, and gives back what was padded. */
  lemma UnpadsExactly(p: seq<byte>, text: seq<byte>)
    requires BLOCK <= |p| && |p| % BLOCK == 0
    ensures Unpad(p) == Some(text) <==> Padded(text, p)
  {
    var n := p[|p| - 1];
    if Padded(text, p) {
      assert n == |p| - |text|;
      assert p[..|p| - n] == text;
    }
  }

  lemma EncryptsEcb(m: Mode, p: seq<byte>)
    requires m.Valid() && !m.cbc && |p| % BLOCK == 0
    ensures EcbBlocks(m.cipher, m.key, p, m.Enc(p))
  {
    hide Lawful, Mode.Enc, Xor;
    forall j: nat | BLOCK * (j + 1) <= |p|
      ensures EcbBlockAt(m.cipher, m.key, p, m.Enc(p), j)
    {
      EncBlockEquation(m, p, j);
    }
  }

  lemma EncryptsCbc(m: Mode, p: seq<byte>)
    requires m.Valid() && m.cbc && |p| % BLOCK == 0
    ensures CbcBlocks(m.cipher, m.key, m.chain, p, m.Enc(p))
  {
    hide Lawful, Mode.Enc, Xor;
    forall j: nat | BLOCK * (j + 1) <= |p|
      ensures CbcBlockAt(m.cipher, m.key, m.chain, p, m.Enc(p), j)
    {
      EncBlockEquation(m, p, j);
    }
  }

  /** The same for decryption: each plaintext block is the decryption of the ciphertext block,
      in CBC masked with the ciphertext block before, whatever the ciphertext is. */
  lemma {:induction false} DecBlockEquation(m: Mode, c: seq<byte>, j: nat)
    requires m.Valid() && |c| % BLOCK == 0 && BLOCK * (j + 1) <= |c|
    ensures var plain := m.cipher.dec(m.key, Block(c, j));
            && |plain| == BLOCK
            && Block(m.Dec(c), j) == if m.cbc then Xor(plain, if j == 0 then m.chain else Block(c, j - 1)) else plain
    decreases |c|
  {
    hide Lawful, Mode.DecBlock, Xor;
    var first := m.DecBlock(c[..BLOCK]);
    var rest := m.After(c[..BLOCK]).Dec(c[BLOCK..]);
    assert m.Dec(c) == first + rest && c == c[..BLOCK] + c[BLOCK..];
    hide Mode.Dec;
    if j == 0 {
      DecFirstBlock(m, c);
      assert (first + rest)[..BLOCK] == first;
    } else {
      DecBlockEquation(m.After(c[..BLOCK]), c[BLOCK..], j - 1);
      LaterBlock(first, rest, j);
      LaterBlock(c[..BLOCK], c[BLOCK..], j);
      PreviousBlock(c, j);
    }
  }

  lemma LaterBlock(first: seq<byte>, rest: seq<byte>, j: nat)
    requires |first| == BLOCK && j > 0 && BLOCK * j <= |rest|
    ensures Block(first + rest, j) == Block(rest, j - 1)
  {
    TailSlice(first + rest, first, rest, BLOCK * (j - 1), BLOCK * j);
  }

  lemma PreviousBlock(c: seq<byte>, j: nat)
    requires j > 0 && BLOCK * (j + 1) <= |c|
    ensures Block(c, j - 1) == if j == 1 then c[..BLOCK] else Block(c[BLOCK..], j - 2)
  {
    if j > 1 {
      assert c == c[..BLOCK] + c[BLOCK..];
      LaterBlock(c[..BLOCK], c[BLOCK..], j - 1);
    }
  }

  lemma DecFirstBlock(m: Mode, c: seq<byte>)
    requires m.Valid() && |c| >= BLOCK
    ensures var plain := m.cipher.dec(m.key, c[..BLOCK]);
            |plain| == BLOCK && m.DecBlock(c[..BLOCK]) == if m.cbc then Xor(plain, m.chain) else plain
  {
  }

  lemma DecryptsEcb(m: Mode, c: seq<byte>)
    requires m.Valid() && !m.cbc && |c| % BLOCK == 0
    ensures EcbPlain(m.cipher, m.key, c, m.Dec(c))
  {
    hide Lawful, Mode.Dec, Xor;
    forall j: nat | BLOCK * (j + 1) <= |c|
      ensures EcbPlainAt(m.cipher, m.key, c, m.Dec(c), j)
    {
      DecBlockEquation(m, c, j);
    }
  }

  lemma DecryptsCbc(m: Mode, c: seq<byte>)
    requires m.Valid() && m.cbc && |c| % BLOCK == 0
    ensures CbcPlain(m.cipher, m.key, m.chain, c, m.Dec(c))
  {
    hide Lawful, Mode.Dec, Xor;
    forall j: nat | BLOCK * (j + 1) <= |c|
      ensures CbcPlainAt(m.cipher, m.key, m.chain, c, m.Dec(c), j)
    {
      DecBlockEquation(m, c, j);
    }
  }

  // Whole-message encryption and decryption, in the same terms.

  ghost predicate IsEcbOf(cipher: Cipher, key: seq<byte>, text: seq<byte>, c: seq<byte>) {
    exists p :: Padded(text, p) && EcbBlocks(cipher, key, p, c)
  }

  ghost predicate IsCbcOf(cipher: Cipher, key: seq<byte>, iv: seq<byte>, text: seq<byte>, c: seq<byte>) {
    exists p :: Padded(text, p) && CbcBlocks(cipher, key, iv, p, c)
  }

  ghost predicate EcbText(cipher: Cipher, key: seq<byte>, c: seq<byte>, text: seq<byte>) {
    exists p :: Padded(text, p) && EcbPlain(cipher, key, c, p)
  }

  ghost predicate CbcText(cipher: Cipher, key: seq<byte>, iv: seq<byte>, c: seq<byte>, text: seq<byte>) {
    exists p :: Padded(text, p) && CbcPlain(cipher, key, iv, c, p)
  }

  ghost predicate HasEcbText(cipher: Cipher, key: seq<byte>, c: seq<byte>) {
    exists text :: EcbText(cipher, key, c, text)
  }

  ghost predicate HasCbcText(cipher: Cipher, key: seq<byte>, iv: seq<byte>, c: seq<byte>) {
    exists text :: CbcText(cipher, key, iv, c, text)
  }

  /** Main result on encryption: it satisfies the standards' equations. */
  lemma EncryptIs(m: Mode, text: seq<byte>)
    requires m.Valid()
    ensures !m.cbc ==> IsEcbOf(m.cipher, m.key, text, Encrypt(m, text))
    ensures m.cbc ==> IsCbcOf(m.cipher, m.key, m.chain, text, Encrypt(m, text))
  {
    hide Lawful, Mode.Enc, Pkcs7, EcbBlocks, CbcBlocks, Padded;
    Pkcs7Pads(text);
    if m.cbc {
      EncryptsCbc(m, Pkcs7(text));
    } else {
      EncryptsEcb(m, Pkcs7(text));
    }
  }

  lemma {:induction false} SameBlocks(p: seq<byte>, q: seq<byte>)
    requires |p| == |q| && |p| % BLOCK == 0
    requires forall j: nat :: BLOCK * (j + 1) <= |p| ==> Block(p, j) == Block(q, j)
    ensures p == q
  {
    forall i | 0 <= i < |p|
      ensures p[i] == q[i]
    {
      var j := i / BLOCK;
      assert p[i] == Block(p, j)[i % BLOCK] && q[i] == Block(q, j)[i % BLOCK];
    }
  }

  lemma EcbPlainUnique(cipher: Cipher, key: seq<byte>, c: seq<byte>, p: seq<byte>, q: seq<byte>)
    requires |c| % BLOCK == 0 && EcbPlain(cipher, key, c, p) && EcbPlain(cipher, key, c, q)
    ensures p == q
  {
    forall j: nat | BLOCK * (j + 1) <= |p|
      ensures Block(p, j) == Block(q, j)
    {
      assert EcbPlainAt(cipher, key, c, p, j) && EcbPlainAt(cipher, key, c, q, j);
    }
    SameBlocks(p, q);
  }

  lemma CbcPlainUnique(cipher: Cipher, key: seq<byte>, iv: seq<byte>, c: seq<byte>, p: seq<byte>, q: seq<byte>)
    requires |c| % BLOCK == 0 && CbcPlain(cipher, key, iv, c, p) && CbcPlain(cipher, key, iv, c, q)
    ensures p == q
  {
    forall j: nat | BLOCK * (j + 1) <= |p|
      ensures Block(p, j) == Block(q, j)
    {
      assert CbcPlainAt(cipher, key, iv, c, p, j) && CbcPlainAt(cipher, key, iv, c, q, j);
    }
    SameBlocks(p, q);
  }

  /** Main result on decryption: it succeeds exactly if the ciphertext decrypts to a padded text
      by the standards' equations, and gives that text. */
  lemma DecryptIs(m: Mode, c: seq<byte>, text: seq<byte>)
    requires m.Valid() && c != [] && |c| % BLOCK == 0
    ensures !m.cbc ==> (Decrypt(m, c) == Some(text) <==> EcbText(m.cipher, m.key, c, text))
    ensures m.cbc ==> (Decrypt(m, c) == Some(text) <==> CbcText(m.cipher, m.key, m.chain, c, text))
  {
    hide Lawful, Mode.Dec, EcbPlain, CbcPlain, Padded, Unpad;
    UnpadsExactly(m.Dec(c), text);
    if m.cbc {
      DecryptsCbc(m, c);
      if p :| Padded(text, p) && CbcPlain(m.cipher, m.key, m.chain, c, p) {
        CbcPlainUnique(m.cipher, m.key, m.chain, c, p, m.Dec(c));
      }
    } else {
      DecryptsEcb(m, c);
      if p :| Padded(text, p) && EcbPlain(m.cipher, m.key, c, p) {
        EcbPlainUnique(m.cipher, m.key, c, p, m.Dec(c));
      }
    }
  }
}
