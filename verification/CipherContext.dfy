/** The EVP cipher context the crypto code drives: a trusted model of BoringSSL's
    buffering. It keeps a partial block and, when decrypting, holds back the last whole
    block until it knows whether that block carries the padding. */
module CipherContexts {
  import opened Bytes
  import opened BlockModes

  /** Length of the whole blocks in `n` bytes. */
  function Whole(n: nat): (w: nat)
    ensures w <= n < w + BLOCK && w % BLOCK == 0
  {
    n - n % BLOCK
  }

  class CipherContext {
    const encrypt: bool
    var mode: Mode
    var buffer: seq<byte>
    var held: seq<byte>
    ghost const start: Mode
    ghost var fed: seq<byte>       // all input so far
    ghost var emitted: seq<byte>   // all output so far

    ghost predicate Valid()
      reads this
    {
      var n := Whole(|fed|);
      && start.Valid() && mode.Valid()
      && buffer == fed[n..]
      && (if encrypt then
            && emitted == start.Enc(fed[..n])
            && mode == start.AfterAll(emitted)
            && held == []
          else
            && emitted + held == start.Dec(fed[..n])
            && mode == start.AfterAll(fed[..n])
            && |held| == if fed != [] && n == |fed| then BLOCK else 0)
    }

    constructor (encrypt: bool, mode: Mode)
      requires mode.Valid()
      ensures Valid() && this.encrypt == encrypt && start == mode && fed == [] && emitted == []
    {
      this.encrypt := encrypt;
      this.mode := mode;
      start := mode;
      buffer, held, fed, emitted := [], [], [], [];
      hide Lawful;
    }

    method Update(input: seq<byte>) returns (out: seq<byte>)
      requires Valid()
      modifies this
      ensures Valid() && fed == old(fed) + input && emitted == old(emitted) + out
    {
      if input == [] {
        assert fed + input == fed;
        out := [];
        assert emitted + out == emitted;
        return;
      }
      var all := buffer + input;
      var n := Whole(|all|);
      SplitFed(fed, input);
      hide Lawful, Mode.Enc, Mode.Dec, Mode.AfterAll, Whole;
      if encrypt {
        EncStep(start, fed[..Whole(|fed|)], mode, all[..n]);
        out := mode.Enc(all[..n]);
        mode := mode.AfterAll(out);
      } else {
        DecStep(start, fed[..Whole(|fed|)], mode, all[..n]);
        ghost var text, held0 := mode.Dec(all[..n]), held;
        out := HoldBack(mode.Dec(all[..n]), n == |all|);
        Reassociate(emitted, out, held, held0, text);
        mode := mode.AfterAll(all[..n]);
      }
      buffer := all[n..];
      fed := fed + input;
      emitted := emitted + out;
    }

    /** Releases the held block before `blocks`, and holds the last block if asked to. */
    method HoldBack(blocks: seq<byte>, hold: bool) returns (out: seq<byte>)
      requires hold ==> |blocks| >= BLOCK
      modifies this`held
      ensures out + held == old(held) + blocks
      ensures |held| == if hold then BLOCK else 0
    {
      out := held + blocks;
      held := [];
      if hold {
        held := out[|out| - BLOCK..];
        out := out[..|out| - BLOCK];
      }
    }

    /** The last block: padding added, or checked and removed. */
    method Final() returns (ok: bool, out: seq<byte>)
      requires Valid()
      ensures encrypt ==> ok && emitted + out == Encrypt(start, fed)
      ensures !encrypt ==> (ok <==> Decrypt(start, fed).Some?)
      ensures !encrypt && ok ==> emitted + out == Decrypt(start, fed).value
    {
      ghost var n := Whole(|fed|);
      assert fed == fed[..n] + buffer;
      hide Lawful, Mode.Enc, Mode.Dec, Mode.AfterAll;
      if encrypt {
        out := mode.Enc(Pkcs7(buffer));
        ok := true;
        Pkcs7Blocks(fed[..n], buffer);
        EncConcat(start, fed[..n], Pkcs7(buffer));
      } else if buffer != [] || held == [] {
        ok, out := false, [];
      } else {
        assert fed[..n] == fed;
        UnpadLastBlock(emitted, held);
        var text := Unpad(held);
        ok := text.Some?;
        out := if ok then text.value else [];
      }
    }
  }

  lemma Reassociate<T>(a: seq<T>, b: seq<T>, c: seq<T>, d: seq<T>, e: seq<T>)
    requires b + c == d + e
    ensures (a + b) + c == (a + d) + e
  {
    assert (a + b) + c == a + (b + c);
    assert (a + d) + e == a + (d + e);
  }

  lemma EncStep(start: Mode, before: seq<byte>, mode: Mode, blocks: seq<byte>)
    requires start.Valid() && |before| % BLOCK == 0 && |blocks| % BLOCK == 0
    requires mode == start.AfterAll(start.Enc(before))
    ensures start.Enc(before) + mode.Enc(blocks) == start.Enc(before + blocks)
    ensures mode.AfterAll(mode.Enc(blocks)) == start.AfterAll(start.Enc(before) + mode.Enc(blocks))
  {
    EncConcat(start, before, blocks);
    AfterAllConcat(start, start.Enc(before), mode.Enc(blocks));
  }

  lemma DecStep(start: Mode, before: seq<byte>, mode: Mode, blocks: seq<byte>)
    requires start.Valid() && |before| % BLOCK == 0 && |blocks| % BLOCK == 0
    requires mode == start.AfterAll(before)
    ensures start.Dec(before) + mode.Dec(blocks) == start.Dec(before + blocks)
    ensures mode.AfterAll(blocks) == start.AfterAll(before + blocks)
  {
    DecConcat(start, before, blocks);
    AfterAllConcat(start, before, blocks);
  }

  /** Whole blocks and remainder after more input arrives. */
  lemma SplitFed(fed: seq<byte>, input: seq<byte>)
    ensures var n := Whole(|fed|);
            var all := fed[n..] + input;
            var total := fed + input;
            && Whole(|total|) == n + Whole(|all|)
            && total[..Whole(|total|)] == fed[..n] + all[..Whole(|all|)]
            && total[Whole(|total|)..] == all[Whole(|all|)..]
  {
    assert fed == fed[..Whole(|fed|)] + fed[Whole(|fed|)..];
  }
}
