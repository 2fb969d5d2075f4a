/** `crypto/symmetric_util` (streamed) and `Crypt` of `crypto/symmetric_crypt` (one shot):
    what each computes, and exactly where they agree. */
module SymmetricUtil {
  import opened Bytes
  import opened BlockModes
  import opened CipherContexts
  import opened Streams

  /** Both entry points pass the IV on only if it has sixteen bytes; otherwise the
      context starts from its zeroed IV. */
  function StartMode(cipher: Cipher, key: seq<byte>, cbc: bool, iv: seq<byte>): Mode {
    Mode(cipher, key, cbc, if |iv| == BLOCK then iv else Zeros(BLOCK))
  }

  // ------------------------------------------------------------- one shot

  function OneShot(m: Mode, encrypt: bool, text: seq<byte>): (bool, seq<byte>)
    requires m.Valid()
  {
    if encrypt then (true, Encrypt(m, text))
    else match Decrypt(m, text)
      case None => (false, [])
      case Some(p) => (true, p)
  }

  /** Decrypting nothing is a checked error in the source. */
  method Crypt(encrypt: bool, key: seq<byte>, cipher: Cipher, cbc: bool, input: seq<byte>, iv: seq<byte>)
      returns (ok: bool, output: seq<byte>)
    requires Lawful(cipher) && (|key| == 16 || |key| == 32)
    requires !cbc ==> |iv| != BLOCK
    requires encrypt || input != []
    ensures (ok, output) == OneShot(Mode(cipher, key, cbc, if |iv| == BLOCK then iv else Zeros(BLOCK)), encrypt, input)
    ensures encrypt && !cbc ==> ok && IsEcbOf(cipher, key, input, output)
    ensures encrypt && cbc ==> ok && IsCbcOf(cipher, key, if |iv| == BLOCK then iv else Zeros(BLOCK), input, output)
    ensures !encrypt && !cbc ==> (ok <==> |input| % BLOCK == 0 && HasEcbText(cipher, key, input))
    ensures !encrypt && cbc ==>
              (ok <==> |input| % BLOCK == 0 && HasCbcText(cipher, key, if |iv| == BLOCK then iv else Zeros(BLOCK), input))
    ensures !encrypt && ok && !cbc ==> EcbText(cipher, key, input, output)
    ensures !encrypt && ok && cbc ==> CbcText(cipher, key, if |iv| == BLOCK then iv else Zeros(BLOCK), input, output)
  {
    hide IsEcbOf, IsCbcOf, EcbText, CbcText, HasEcbText, HasCbcText, Encrypt, Lawful;
    StartIsValid(cipher, key, cbc, iv);
    ghost var start := Mode(cipher, key, cbc, if |iv| == BLOCK then iv else Zeros(BLOCK));
    if encrypt {
      EncryptIs(start, input);
    } else {
      DecryptionIs(start, input);
    }
    output := [];
    var context := new CipherContext(encrypt, StartMode(cipher, key, cbc, iv));
    var result := context.Update(input);
    assert context.fed == input && context.emitted == result;
    var done, tail := context.Final();
    if !done {
      return false, output;
    }
    ok, output := true, result + tail;
  }

  lemma DecryptionIs(m: Mode, c: seq<byte>)
    requires m.Valid() && c != []
    ensures Decrypt(m, c).Some? ==>
              if m.cbc then CbcText(m.cipher, m.key, m.chain, c, Decrypt(m, c).value)
              else EcbText(m.cipher, m.key, c, Decrypt(m, c).value)
    ensures Decrypt(m, c).Some? <==>
            || (|c| % BLOCK == 0 && m.cbc && HasCbcText(m.cipher, m.key, m.chain, c))
            || (|c| % BLOCK == 0 && !m.cbc && HasEcbText(m.cipher, m.key, c))
  {
    hide EcbText, CbcText, HasEcbText, HasCbcText, Lawful, Mode.Dec, Unpad;
    if |c| % BLOCK == 0 {
      DecryptsOrNot(m, c);
    }
    if Decrypt(m, c).Some? {
      DecryptIs(m, c, Decrypt(m, c).value);
    }
  }

  // ------------------------------------------------------------- streamed

  /** Whether the streamed call succeeds, and what it appends to the output. */
  function Streamed(m: Mode, encrypt: bool, text: seq<byte>): (bool, seq<byte>)
    requires m.Valid()
  {
    if |text| < BLOCK then (true, [])
    else if encrypt then (true, Encrypt(m, text))
    else
      var whole := text[..Whole(|text|)];
      match Decrypt(m, whole)
      case Some(p) => (true, p)
      case None => (false, m.Dec(whole)[..Released(|whole|)])
  }

  /** How much of a failing decryption of `n` bytes is already written: the last block is
      still held back, and the output of the last update is dropped. */
  function Released(n: nat): nat {
    if n < 2 * BLOCK then 0 else n - 2 * BLOCK
  }

  lemma StartIsValid(cipher: Cipher, key: seq<byte>, cbc: bool, iv: seq<byte>)
    requires Lawful(cipher)
    ensures StartMode(cipher, key, cbc, iv).Valid()
  {
  }

  method CryptInternal(encrypt: bool, key: seq<byte>, cipher: Cipher, cbc: bool,
                       input: MemoryInputStream, out: MemoryOutputStream, iv: seq<byte>) returns (ok: bool)
    requires Lawful(cipher) && (|key| == 16 || |key| == 32)
    requires !cbc ==> |iv| != BLOCK
    requires input.Valid()
    modifies input`position, out
    ensures input.Valid()
    ensures Finished(input, out, StartMode(cipher, key, cbc, iv), encrypt, old(input.Remaining()), old(out.written), ok)
  {
    hide Lawful, Progress, Finished, Whole, StartMode, Mode.Valid;
    var start := StartMode(cipher, key, cbc, iv);
    StartIsValid(cipher, key, cbc, iv);
    var context := new CipherContext(encrypt, start);
    var available := input.Available();
    var count := available / BLOCK;
    var extra := available % BLOCK;
    ghost var m, base, consumed := input.Remaining(), out.written, 0;
    LastBlock(|m|);
    Begin(context, input, out, start, encrypt, m, base);
    ok := true;
    while count > 0
      invariant 0 <= count && consumed + BLOCK * count == Whole(|m|)
      invariant input.Valid() && fresh(context) && context.encrypt == encrypt
      invariant count > 0 ==> Progress(context, input, out, start, m, base, consumed)
      invariant count == 0 ==> Finished(input, out, start, encrypt, m, base, true)
    {
      ok := CryptRound(context, input, out, count, extra, start, m, base, consumed);
      if !ok {
        return;
      }
      count := count - 1;
      consumed := consumed + BLOCK;
    }
  }

  /** One round of the loop, with `count` blocks left: the last one takes the extra bytes when
      encrypting, and closes the message. */
  method CryptRound(context: CipherContext, input: MemoryInputStream, out: MemoryOutputStream, count: nat, extra: nat,
                    ghost start: Mode, ghost m: seq<byte>, ghost base: seq<byte>, ghost consumed: nat) returns (ok: bool)
    requires input.Valid() && count > 0 && |m| == Whole(|m|) + extra && consumed + BLOCK * count == Whole(|m|)
    requires Progress(context, input, out, start, m, base, consumed)
    modifies context, input`position, out
    ensures input.Valid() && start.Valid()
    ensures count > 1 ==> ok && Progress(context, input, out, start, m, base, consumed + BLOCK)
    ensures count == 1 ==> Finished(input, out, start, context.encrypt, m, base, ok)
  {
    assert start.Valid() && |m| >= BLOCK;
    hide Lawful, Progress, Finished, Whole;
    var size := if count == 1 && context.encrypt then BLOCK + extra else BLOCK;
    if count == 1 {
      ok := CryptLastBlock(context, input, out, size, start, m, base, consumed);
    } else {
      ok := CryptBlock(context, input, out, size, false, start, m, base, consumed);
    }
  }

  lemma LastBlock(n: nat)
    ensures BLOCK * (n / BLOCK) == Whole(n) && n == Whole(n) + n % BLOCK
  {
  }

  /** The call has returned `ok`, written what it should, and left unread what it should. */
  ghost predicate Finished(input: MemoryInputStream, out: MemoryOutputStream, start: Mode, encrypt: bool,
                           m: seq<byte>, base: seq<byte>, ok: bool)
    requires input.Valid() && start.Valid()
    reads input, input.data, out
  {
    && ok == Streamed(start, encrypt, m).0
    && out.written == base + Streamed(start, encrypt, m).1
    && input.Remaining() == if |m| < BLOCK then m else if encrypt then [] else m[Whole(|m|)..]
  }

  lemma Begin(context: CipherContext, input: MemoryInputStream, out: MemoryOutputStream,
              start: Mode, encrypt: bool, m: seq<byte>, base: seq<byte>)
    requires start.Valid() && input.Valid() && context.Valid() && context.start == start && context.fed == []
    requires context.emitted == [] && input.Remaining() == m && out.written == base
    ensures Progress(context, input, out, start, m, base, 0)
    ensures |m| < BLOCK ==> Finished(input, out, start, encrypt, m, base, true)
  {
    hide Lawful;
    assert m[0..] == m && m[..0] == [] && base + [] == base;
  }

  /** `consumed` bytes of `m` have gone through the context, and its output to `out`. */
  ghost predicate Progress(context: CipherContext, input: MemoryInputStream, out: MemoryOutputStream,
                           start: Mode, m: seq<byte>, base: seq<byte>, consumed: nat)
    requires input.Valid() && consumed <= |m|
    reads context, input, input.data, out
  {
    && context.Valid() && context.start == start
    && context.fed == m[..consumed]
    && input.Remaining() == m[consumed..]
    && out.written == base + context.emitted
  }

  method CryptLastBlock(context: CipherContext, input: MemoryInputStream, out: MemoryOutputStream, size: nat,
                        ghost start: Mode, ghost m: seq<byte>, ghost base: seq<byte>, ghost consumed: nat)
      returns (ok: bool)
    requires input.Valid() && |m| >= BLOCK && consumed + BLOCK == Whole(|m|)
    requires consumed + size == if context.encrypt then |m| else Whole(|m|)
    requires Progress(context, input, out, start, m, base, consumed)
    modifies context, input`position, out
    ensures input.Valid() && start.Valid()
    ensures Finished(input, out, start, context.encrypt, m, base, ok)
  {
    BeforeLastRound(context, input, out, start, m, base, consumed);
    hide Lawful, Streamed, Whole, Closing, Progress;
    ok := CryptBlock(context, input, out, size, true, start, m, base, consumed);
  }

  lemma BeforeLastRound(context: CipherContext, input: MemoryInputStream, out: MemoryOutputStream,
                        start: Mode, m: seq<byte>, base: seq<byte>, consumed: nat)
    requires input.Valid() && |m| >= BLOCK && consumed + BLOCK == Whole(|m|)
    requires Progress(context, input, out, start, m, base, consumed)
    ensures start.Valid()
    ensures var end := if context.encrypt then |m| else Whole(|m|);
            && Streamed(start, context.encrypt, m) == Closing(start, context.encrypt, m[..end], context.emitted)
            && m[end..] == if context.encrypt then [] else m[Whole(|m|)..]
  {
    hide Lawful, Streamed, Mode.Enc, Mode.Dec, Mode.AfterAll, Encrypt, Decrypt;
    WholeBlocks(context.fed);
    LastRound(start, m, context.encrypt, context.emitted, context.held);
    assert m[..|m|] == m;
  }

  lemma WholeBlocks<T>(s: seq<T>)
    ensures |s| % BLOCK == 0 ==> Whole(|s|) == |s| && s[..Whole(|s|)] == s
  {
  }

  /** What the last round has to produce, given what the earlier ones put out and hold. */
  lemma LastRound(start: Mode, m: seq<byte>, encrypt: bool, emitted: seq<byte>, held: seq<byte>)
    requires start.Valid() && |m| >= BLOCK
    requires !encrypt ==> emitted + held == start.Dec(m[..Whole(|m|) - BLOCK])
    requires !encrypt ==> |held| == if Whole(|m|) > BLOCK then BLOCK else 0
    ensures encrypt ==> Streamed(start, encrypt, m) == (true, Encrypt(start, m))
    ensures !encrypt ==> Streamed(start, encrypt, m) == match Decrypt(start, m[..Whole(|m|)])
                                                        case Some(p) => (true, p)
                                                        case None => (false, emitted)
  {
    if !encrypt {
      var whole := m[..Whole(|m|)];
      var front, last := m[..Whole(|m|) - BLOCK], m[Whole(|m|) - BLOCK..Whole(|m|)];
      assert whole == front + last;
      hide Lawful, Mode.Dec;
      DecConcat(start, front, last);
      assert start.Dec(whole)[..Released(|whole|)] == start.Dec(front)[..Released(|whole|)] == emitted;
    }
  }

  /** What a call has produced once its last round has consumed `text`; `emitted` is what
      the earlier rounds produced. */
  function Closing(start: Mode, encrypt: bool, text: seq<byte>, emitted: seq<byte>): (bool, seq<byte>)
    requires start.Valid()
  {
    if encrypt then (true, Encrypt(start, text))
    else match Decrypt(start, text)
      case Some(p) => (true, p)
      case None => (false, emitted)
  }

  /** One round of the loop: read, update, finish if it is the last, write. */
  method CryptBlock(context: CipherContext, input: MemoryInputStream, out: MemoryOutputStream, size: nat, last: bool,
                    ghost start: Mode, ghost m: seq<byte>, ghost base: seq<byte>, ghost consumed: nat) returns (ok: bool)
    requires input.Valid() && consumed + size <= |m|
    requires Progress(context, input, out, start, m, base, consumed)
    modifies context, input`position, out
    ensures input.Valid() && input.Remaining() == m[consumed + size..]
    ensures !last ==> ok && Progress(context, input, out, start, m, base, consumed + size)
    ensures last ==> var r := Closing(start, context.encrypt, m[..consumed + size], old(context.emitted));
                     ok == r.0 && out.written == base + r.1
  {
    hide Lawful, Mode.Enc, Mode.Dec, Mode.AfterAll, Whole, Encrypt, Decrypt;
    ghost var before := context.emitted;
    var result := ReadAndUpdate(context, input, size, m, consumed);
    Grouped(base, before, result);
    if last {
      var done, tail := context.Final();
      if !done {
        return false;
      }
      Grouped(base, before, result + tail);
      Grouped(before, result, tail);
      result := result + tail;
    }
    out.Write(result);
    ok := true;
  }

  lemma Grouped<T>(a: seq<T>, b: seq<T>, c: seq<T>)
    ensures (a + b) + c == a + (b + c)
  {
  }

  method ReadAndUpdate(context: CipherContext, input: MemoryInputStream, size: nat, ghost m: seq<byte>, ghost consumed: nat)
      returns (result: seq<byte>)
    requires input.Valid() && context.Valid() && consumed + size <= |m|
    requires context.fed == m[..consumed] && input.Remaining() == m[consumed..]
    modifies context, input`position
    ensures input.Valid() && context.Valid()
    ensures context.fed == m[..consumed + size] && input.Remaining() == m[consumed + size..]
    ensures context.emitted == old(context.emitted) + result
  {
    hide Lawful, Mode.Enc, Mode.Dec, Mode.AfterAll, Whole, Zeros;
    var buffer := ReadBuffer(input, size, m, consumed);
    NextSlice(m, consumed, size);
    result := context.Update(buffer);
  }

  method ReadBuffer(input: MemoryInputStream, size: nat, ghost m: seq<byte>, ghost consumed: nat)
      returns (buffer: seq<byte>)
    requires input.Valid() && consumed + size <= |m| && input.Remaining() == m[consumed..]
    modifies input`position
    ensures input.Valid() && buffer == m[consumed..][..size] && input.Remaining() == m[consumed + size..]
  {
    hide Zeros;
    var n;
    n, buffer := input.Read(Zeros(size));
    NextSlice(m, consumed, size);
    assert Zeros(size)[size..] == [];
  }

  lemma NextSlice<T>(m: seq<T>, consumed: nat, size: nat)
    requires consumed + size <= |m|
    ensures m[..consumed] + m[consumed..][..size] == m[..consumed + size]
    ensures m[consumed..][size..] == m[consumed + size..]
  {
  }

  // ---------------------------------------------------------- entry points

  /** A text without its incomplete last block. */
  function FullBlocks(c: seq<byte>): (w: seq<byte>)
    ensures |w| % BLOCK == 0 && w <= c && |c| < |w| + BLOCK
  {
    c[..Whole(|c|)]
  }

  lemma DecryptsOrNot(m: Mode, c: seq<byte>)
    requires m.Valid() && c != [] && |c| % BLOCK == 0
    ensures !m.cbc ==> (Decrypt(m, c).Some? <==> HasEcbText(m.cipher, m.key, c))
    ensures m.cbc ==> (Decrypt(m, c).Some? <==> HasCbcText(m.cipher, m.key, m.chain, c))
  {
    hide EcbText, CbcText, Decrypt, Lawful;
    if Decrypt(m, c).Some? {
      DecryptIs(m, c, Decrypt(m, c).value);
    }
    forall text
      ensures !m.cbc && EcbText(m.cipher, m.key, c, text) ==> Decrypt(m, c) == Some(text)
      ensures m.cbc && CbcText(m.cipher, m.key, m.chain, c, text) ==> Decrypt(m, c) == Some(text)
    {
      DecryptIs(m, c, text);
    }
  }

  method EcbEncrypt(cipher: Cipher, key: seq<byte>, input: MemoryInputStream, out: MemoryOutputStream)
      returns (ok: bool)
    requires Lawful(cipher) && (|key| == 16 || |key| == 32) && input.Valid()
    modifies input`position, out
    ensures input.Valid() && ok && old(out.written) <= out.written
    ensures |old(input.Remaining())| >= BLOCK ==>
              out.written == old(out.written) + Encrypt(Mode(cipher, key, false, Zeros(BLOCK)), old(input.Remaining()))
    ensures |old(input.Remaining())| >= BLOCK ==>
              IsEcbOf(cipher, key, old(input.Remaining()), out.written[|old(out.written)|..])
    ensures |old(input.Remaining())| < BLOCK ==> out.written == old(out.written)
    ensures input.Remaining() == if |old(input.Remaining())| < BLOCK then old(input.Remaining()) else []
  {
    hide IsEcbOf, IsCbcOf, Encrypt, Lawful;
    ghost var start := Mode(cipher, key, false, Zeros(BLOCK));
    StartIsValid(cipher, key, false, []);
    EncryptIs(start, input.Remaining());
    ghost var base, m := out.written, input.Remaining();
    ok := CryptInternal(true, key, cipher, false, input, out, []);
    if |m| >= BLOCK {
      assert out.written[|base|..] == Encrypt(start, m);
    } else {
      assert out.written == base + [];
    }
  }

  method EcbDecrypt(cipher: Cipher, key: seq<byte>, input: MemoryInputStream, out: MemoryOutputStream)
      returns (ok: bool)
    requires Lawful(cipher) && (|key| == 16 || |key| == 32) && input.Valid()
    modifies input`position, out
    ensures input.Valid() && old(out.written) <= out.written
    ensures |old(input.Remaining())| < BLOCK ==> ok && out.written == old(out.written)
    ensures input.Remaining() == if |old(input.Remaining())| < BLOCK then old(input.Remaining())
                                 else old(input.Remaining())[|FullBlocks(old(input.Remaining()))|..]
    ensures Finished(input, out, Mode(cipher, key, false, Zeros(BLOCK)),
                     false, old(input.Remaining()), old(out.written), ok)
    ensures |old(input.Remaining())| >= BLOCK ==>
              (ok <==> HasEcbText(cipher, key, FullBlocks(old(input.Remaining()))))
    ensures |old(input.Remaining())| >= BLOCK && ok ==>
              EcbText(cipher, key, FullBlocks(old(input.Remaining())), out.written[|old(out.written)|..])
  {
    hide EcbText, CbcText, Decrypt, Lawful;
    ghost var start := Mode(cipher, key, false, Zeros(BLOCK));
    StartIsValid(cipher, key, false, []);
    ghost var base, m := out.written, input.Remaining();
    ok := CryptInternal(false, key, cipher, false, input, out, []);
    if |m| >= BLOCK {
      DecryptsOrNot(start, FullBlocks(m));
      if ok {
        assert out.written[|base|..] == Decrypt(start, FullBlocks(m)).value;
        DecryptIs(start, FullBlocks(m), Decrypt(start, FullBlocks(m)).value);
      }
    } else {
      assert out.written == base + [];
    }
  }

  method CbcEncrypt(cipher: Cipher, key: seq<byte>, iv: seq<byte>, input: MemoryInputStream, out: MemoryOutputStream)
      returns (ok: bool)
    requires Lawful(cipher) && (|key| == 16 || |key| == 32) && input.Valid()
    modifies input`position, out
    ensures input.Valid() && ok && old(out.written) <= out.written
    ensures |old(input.Remaining())| >= BLOCK ==>
              out.written == old(out.written) + Encrypt(Mode(cipher, key, true, if |iv| == BLOCK then iv else Zeros(BLOCK)), old(input.Remaining()))
    ensures |old(input.Remaining())| >= BLOCK ==>
              IsCbcOf(cipher, key, if |iv| == BLOCK then iv else Zeros(BLOCK), old(input.Remaining()), out.written[|old(out.written)|..])
    ensures |old(input.Remaining())| < BLOCK ==> out.written == old(out.written)
    ensures input.Remaining() == if |old(input.Remaining())| < BLOCK then old(input.Remaining()) else []
  {
    hide IsEcbOf, IsCbcOf, Encrypt, Lawful;
    ghost var start := Mode(cipher, key, true, if |iv| == BLOCK then iv else Zeros(BLOCK));
    StartIsValid(cipher, key, true, iv);
    EncryptIs(start, input.Remaining());
    ghost var base, m := out.written, input.Remaining();
    ok := CryptInternal(true, key, cipher, true, input, out, iv);
    if |m| >= BLOCK {
      assert out.written[|base|..] == Encrypt(start, m);
    } else {
      assert out.written == base + [];
    }
  }

  method CbcDecrypt(cipher: Cipher, key: seq<byte>, iv: seq<byte>, input: MemoryInputStream, out: MemoryOutputStream)
      returns (ok: bool)
    requires Lawful(cipher) && (|key| == 16 || |key| == 32) && input.Valid()
    modifies input`position, out
    ensures input.Valid() && old(out.written) <= out.written
    ensures |old(input.Remaining())| < BLOCK ==> ok && out.written == old(out.written)
    ensures input.Remaining() == if |old(input.Remaining())| < BLOCK then old(input.Remaining())
                                 else old(input.Remaining())[|FullBlocks(old(input.Remaining()))|..]
    ensures Finished(input, out, Mode(cipher, key, true, if |iv| == BLOCK then iv else Zeros(BLOCK)),
                     false, old(input.Remaining()), old(out.written), ok)
    ensures |old(input.Remaining())| >= BLOCK ==>
              (ok <==> HasCbcText(cipher, key, if |iv| == BLOCK then iv else Zeros(BLOCK), FullBlocks(old(input.Remaining()))))
    ensures |old(input.Remaining())| >= BLOCK && ok ==>
              CbcText(cipher, key, if |iv| == BLOCK then iv else Zeros(BLOCK), FullBlocks(old(input.Remaining())), out.written[|old(out.written)|..])
  {
    hide EcbText, CbcText, Decrypt, Lawful;
    ghost var start := Mode(cipher, key, true, if |iv| == BLOCK then iv else Zeros(BLOCK));
    StartIsValid(cipher, key, true, iv);
    ghost var base, m := out.written, input.Remaining();
    ok := CryptInternal(false, key, cipher, true, input, out, iv);
    if |m| >= BLOCK {
      DecryptsOrNot(start, FullBlocks(m));
      if ok {
        assert out.written[|base|..] == Decrypt(start, FullBlocks(m)).value;
        DecryptIs(start, FullBlocks(m), Decrypt(start, FullBlocks(m)).value);
      }
    } else {
      assert out.written == base + [];
    }
  }

  // -------------------------------------------------------- where they agree

  /** Main result: streamed encryption is one-shot encryption exactly from one block up;
      shorter inputs are accepted and produce nothing. */
  lemma StreamedEncryptionIsOneShotIff(m: Mode, text: seq<byte>)
    requires m.Valid()
    ensures Streamed(m, true, text) == OneShot(m, true, text) <==> |text| >= BLOCK
  {
    assert |Encrypt(m, text)| >= 1;
  }

  /** The plaintext a decryption delivers, if it reports success. */
  function Delivered(r: (bool, seq<byte>)): Option<seq<byte>> {
    if r.0 then Some(r.1) else None
  }

  /** Main result: streamed decryption ignores an incomplete last block where one-shot
      decryption fails, so the two deliver the same exactly when there is none or the
      whole blocks fail by themselves. */
  lemma StreamedDecryptionIsOneShotIff(m: Mode, c: seq<byte>)
    requires m.Valid() && c != []
    ensures Delivered(Streamed(m, false, c)) == Delivered(OneShot(m, false, c))
       <==> |c| % BLOCK == 0 || (|c| > BLOCK && Decrypt(m, c[..Whole(|c|)]) == None)
  {
    hide Lawful, Mode.Dec, Unpad;
    if |c| % BLOCK == 0 {
      assert c[..Whole(|c|)] == c;
    }
  }

  /** What a caller can tell from the length: on whole blocks the two agree, and below one
      block they never do. */
  lemma StreamedDecryptionByLength(m: Mode, c: seq<byte>)
    requires m.Valid() && c != []
    ensures |c| % BLOCK == 0 ==> Delivered(Streamed(m, false, c)) == Delivered(OneShot(m, false, c))
    ensures |c| < BLOCK ==> Delivered(Streamed(m, false, c)) == Some([]) && Delivered(OneShot(m, false, c)) == None
  {
    hide Lawful, Mode.Dec, Unpad;
    StreamedDecryptionIsOneShotIff(m, c);
  }

  /** Main result: streamed decryption undoes streamed encryption exactly when the text is
      empty or has at least one block. */
  lemma StreamedRoundTripIff(m: Mode, text: seq<byte>)
    requires m.Valid()
    ensures Streamed(m, false, Streamed(m, true, text).1) == (true, text) <==> |text| >= BLOCK || text == []
  {
    if |text| >= BLOCK {
      var c := Encrypt(m, text);
      assert |c| % BLOCK == 0 && c[..Whole(|c|)] == c;
      DecryptEncrypt(m, text);
    }
  }
}
