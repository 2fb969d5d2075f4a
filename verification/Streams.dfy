/** `crypto/memory_input_stream` and the append-only stream it is copied to. */
module Streams {
  import opened Bytes

  /** `b`, made long enough, with `bytes` put in at `offset`. */
  method Fill(b: seq<byte>, offset: nat, bytes: seq<byte>) returns (r: seq<byte>)
    ensures |r| == if |b| < offset + |bytes| then offset + |bytes| else |b|
    ensures r[offset..offset + |bytes|] == bytes
    ensures forall i :: 0 <= i < |b| && (i < offset || offset + |bytes| <= i) ==> r[i] == b[i]
  {
    r := b;
    if |r| < offset + |bytes| {
      r := r + Zeros(offset + |bytes| - |r|);
    }
    r := r[..offset] + bytes + r[offset + |bytes|..];
  }

  class MemoryInputStream {
    var data: array?<byte>
    var position: nat
    var length: nat

    ghost predicate Valid()
      reads this, data
    {
      && position <= length
      && (data == null ==> length == 0)
      && (data != null ==> length == data.Length)
    }

    /** The bytes not read yet. */
    ghost function Remaining(): seq<byte>
      requires Valid()
      reads this, data
    {
      if data == null then [] else data[position..length]
    }

    constructor (bytes: seq<byte>)
      ensures Valid() && fresh(data) && Remaining() == bytes
    {
      data := new byte[|bytes|](i requires 0 <= i < |bytes| => bytes[i]);
      position := 0;
      length := |bytes|;
    }

    method Available() returns (n: nat)
      requires Valid()
      ensures n == |Remaining()|
    {
      n := length - position;
    }

    /** Copies at most `count` bytes into `b` at `offset`, enlarging it if it is too short. */
    method ReadAt(b: seq<byte>, offset: nat, count: nat) returns (n: nat, r: seq<byte>)
      requires Valid()
      modifies this`position
      ensures Valid()
      ensures n == (if count < |old(Remaining())| then count else |old(Remaining())|)
      ensures Remaining() == old(Remaining())[n..]
      ensures n == 0 && old(Remaining()) == [] ==> r == b
      ensures old(Remaining()) != [] ==> |r| == (if |b| < offset + n then offset + n else |b|)
      ensures n > 0 ==> r[offset..offset + n] == old(Remaining())[..n]
      ensures forall i :: 0 <= i < |b| && (i < offset || offset + n <= i) ==> i < |r| && r[i] == b[i]
    {
      if data == null || position >= length {
        assert Remaining() == [];
        return 0, b;
      }
      n := if count < length - position then count else length - position;
      ghost var before := Remaining();
      assert before[..n] == data[position..position + n];
      r := Fill(b, offset, data[position..position + n]);
      position := position + n;
      assert Remaining() == before[n..];
    }

    /** Fills `b`, or as much of it as there are bytes. */
    method Read(b: seq<byte>) returns (n: nat, r: seq<byte>)
      requires Valid()
      modifies this`position
      ensures Valid() && |r| == |b|
      ensures n == (if |b| < |old(Remaining())| then |b| else |old(Remaining())|)
      ensures Remaining() == old(Remaining())[n..]
      ensures r == old(Remaining())[..n] + b[n..]
    {
      n, r := ReadAt(b, 0, |b|);
      assert r == r[..n] + r[n..];
    }

    /** Moves the position by `n`, as far as the buffer allows, and tells by how much. */
    method Skip(n: int64) returns (moved: int)
      requires Valid()
      modifies this`position
      ensures Valid() && position == old(position) + moved
      ensures data != null && n < 0 ==> moved == (if n < -(old(position) as int) then -(old(position) as int) else n)
      ensures data != null && n >= 0 ==> moved == (if length - old(position) < n then length - old(position) else n)
      ensures data == null ==> moved == 0
    {
      if data == null {
        return 0;
      }
      if n < 0 {
        moved := if -(position as int) > n then -(position as int) else n;
        position := position - (0 - moved);
      } else {
        moved := if length - position < n then length - position else n;
        position := position + moved;
      }
    }

    method Reset()
      requires Valid()
      modifies this`position
      ensures Valid() && (data != null ==> Remaining() == data[..])
    {
      position := 0;
    }
  }

  class MemoryOutputStream {
    var written: seq<byte>

    constructor ()
      ensures written == []
    {
      written := [];
    }

    method Write(bytes: seq<byte>)
      modifies this
      ensures written == old(written) + bytes
    {
      written := written + bytes;
    }
  }
}
