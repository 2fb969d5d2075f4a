/** `base/pickle`: the growable message buffer, its reader and its size predictor,
    each method proved against the wire format. */
module Pickles {
  import opened Bytes
  import opened Bits
  import opened PickleFormat

  /** Capacity value that marks a pickle as a view of bytes it does not own. */
  const READ_ONLY: nat := TWO_64 - 1

  class Pickle {
    var header: array?<byte>    // start of the buffer: header first, payload behind it
    var headerSize: nat
    var capacity: nat           // bytes behind the header
    var writeOffset: nat

    /** The payload size kept in the first four header bytes. */
    ghost function Stored(): nat
      requires header != null && header.Length >= 4
      reads this, header
    {
      FromLE(header[..4])
    }

    ghost predicate Valid()
      reads this, header
    {
      Writable() || Adopted()
    }

    /** A view of foreign bytes, or of nothing. */
    ghost predicate Adopted()
      reads this, header
    {
      && capacity == READ_ONLY && writeOffset == 0
      && (header == null ==> headerSize == 0)
      && (header != null ==> && 4 <= headerSize <= header.Length
                             && headerSize % UNIT == 0
                             && headerSize + Stored() <= header.Length)
    }

    /** A buffer of its own. */
    ghost predicate Writable()
      reads this, header
    {
      && header != null
      && 4 <= headerSize && headerSize % UNIT == 0
      && capacity % PAYLOAD_UNIT == 0 && capacity <= 4 * TWO_32
      && header.Length == headerSize + capacity
      && writeOffset % UNIT == 0
      && writeOffset <= Stored() <= capacity
    }

    /** What a reader of this pickle sees. */
    ghost function View(): View
      requires Valid()
      reads this, header
    {
      if header == null then Null else Mapped(header[headerSize..headerSize + Stored()])
    }

    /** The part of the payload that the next write keeps. */
    ghost function Written(): seq<byte>
      requires Valid()
      reads this, header
    {
      if header == null then [] else header[headerSize..headerSize + writeOffset]
    }

    /** The write offset stands at the end of the payload, so that reading sees exactly
        what was written and writing appends. Copies of adopted pickles start out of sync. */
    ghost predicate InSync()
      requires Valid()
      reads this, header
    {
      capacity != READ_ONLY && Stored() == writeOffset
    }

    /** What the next write keeps is the whole payload exactly when the pickle is in sync. */
    lemma KeptPayload()
      requires Writable()
      ensures View().Mapped? && Written() <= View().bytes
      ensures InSync() <==> Written() == View().bytes
    {
      PrefixSlice(header[..], header[..], header.Length, headerSize, headerSize + Stored());
      assert View().bytes[..writeOffset] == Written();
    }

    /** After a block has been written behind `kept`, readers see it behind the whole old
        payload exactly when `kept` was all of it. */
    lemma ExtendsIff(payload: seq<byte>, kept: seq<byte>, block: seq<byte>)
      requires Writable() && InSync() && Written() == kept + block && kept <= payload
      ensures View() == Mapped(payload + block) <==> kept == payload
    {
      KeptPayload();
      assert |kept + block| == |payload + block| ==> |kept| == |payload|;
    }

    lemma InSyncView()
      requires Valid() && InSync()
      ensures View() == Mapped(Written())
    {
    }

    /** Header and payload as one message. */
    ghost function Image(): seq<byte>
      requires Valid() && header != null
      reads this, header
    {
      header[..headerSize + Stored()]
    }

    lemma ImageIsFramed()
      requires Valid() && header != null
      ensures IsImage(headerSize, Image())
      ensures View() == Mapped(Image()[headerSize..])
    {
      assert Image()[..4] == header[..4];
    }

    constructor ()
      ensures Writable() && fresh(header)
      ensures headerSize == 4 && capacity == PAYLOAD_UNIT && writeOffset == 0
      ensures View() == Mapped([]) && Written() == []
    {
      header := null;
      headerSize := 4;
      capacity := 0;
      writeOffset := 0;
      new;
      Resize(PAYLOAD_UNIT);
      StoreSize(0);
    }

    /** Custom headers of at least four and at most 64 bytes, rounded up to four. */
    constructor WithHeader(size: nat)
      requires 4 <= size <= PAYLOAD_UNIT
      ensures Writable() && fresh(header)
      ensures headerSize == AlignUnit(size) && capacity == PAYLOAD_UNIT && writeOffset == 0
      ensures View() == Mapped([]) && Written() == []
    {
      AlignSizeIsAlignUp(size, UNIT);
      header := null;
      headerSize := AlignSize(size, UNIT);
      capacity := 0;
      writeOffset := 0;
      new;
      Resize(PAYLOAD_UNIT);
      StoreSize(0);
    }

    /** Adopts foreign bytes read-only, or nothing at all if they are malformed. */
    constructor FromBytes(data: array<byte>, length: int32)
      requires length <= data.Length
      ensures Adopted()
      ensures headerSize == AdoptedHeaderSize(data[..], length)
      ensures headerSize == 0 <==> header == null
      ensures headerSize != 0 ==> header == data && Image() == data[..length]
      ensures headerSize != 0 ==> View() == Mapped(data[headerSize..length])
    {
      var size := InferHeaderSize(data, length);
      header := if size == 0 then null else data;
      headerSize := size;
      capacity := READ_ONLY;
      writeOffset := 0;
      new;
      assert length >= 4 ==> data[..][..4] == data[..4];
      AdoptedExactly(data[..], length);
      hide FromLE, AdoptedHeaderSize;
    }

    static method InferHeaderSize(data: array<byte>, length: int32) returns (size: nat)
      requires length <= data.Length
      ensures size == AdoptedHeaderSize(data[..], length)
    {
      assert length >= 4 ==> data[..][..4] == data[..4];
      hide FromLE, Sub32;
      size := 0;
      if length >= 4 {
        size := Sub32(length, FromLE(data[..4]));
      }
      if size > (if length < 0 then length + TWO_32 else length) {
        size := 0;
      }
      AlignSizeIsAlignUp(size, UNIT);
      hide AlignSize, AlignUp;
      if size != AlignSize(size, UNIT) {
        size := 0;
      }
    }

    /** A deep copy. The write offset is copied too: a copy of an adopted pickle
        starts writing at the front of its payload. */
    constructor Copy(other: Pickle)
      requires other.Valid() && other.header != null
      ensures Writable() && fresh(header)
      ensures Image() == other.Image() && View() == other.View()
      ensures headerSize == other.headerSize && writeOffset == other.writeOffset
      ensures Written() == other.Written()
      ensures capacity == AlignUp(other.View().Size(), PAYLOAD_UNIT)
    {
      header := null;
      headerSize := other.headerSize;
      capacity := 0;
      writeOffset := other.writeOffset;
      new;
      CopyBuffer(other);
      SameImage(other);
    }

    method Assign(other: Pickle)
      requires Valid() && other.Valid() && other.header != null
      modifies this
      ensures Valid()
      ensures other == this ==> unchanged(this)
      ensures other != this ==>
                && fresh(header) && Writable()
                && Image() == other.Image() && View() == other.View()
                && headerSize == other.headerSize && writeOffset == other.writeOffset
                && Written() == other.Written()
                && capacity == AlignUp(other.View().Size(), PAYLOAD_UNIT)
    {
      if this == other {
        return;
      }
      AssignFrom(other);
    }

    method AssignFrom(other: Pickle)
      requires Valid() && other.Valid() && other.header != null && other != this
      modifies this
      ensures Writable() && fresh(header)
      ensures Image() == other.Image() && View() == other.View()
      ensures headerSize == other.headerSize && writeOffset == other.writeOffset
      ensures Written() == other.Written()
      ensures capacity == AlignUp(other.View().Size(), PAYLOAD_UNIT)
    {
      hide FromLE, AlignUp;
      if capacity == READ_ONLY {
        header := null;
        capacity := 0;
      }
      if headerSize != other.headerSize {
        header := null;
        headerSize := other.headerSize;
      }
      CopyBuffer(other);
      writeOffset := other.writeOffset;
      SameImage(other);
    }

    /** Equal bytes up to the end of the payload mean equal views. */
    lemma SameImage(other: Pickle)
      requires other.Valid() && other.header != null
      requires header != null && capacity != READ_ONLY && capacity <= 4 * TWO_32
      requires headerSize == other.headerSize && writeOffset == other.writeOffset
      requires capacity % PAYLOAD_UNIT == 0 && other.Stored() <= capacity && header.Length == headerSize + capacity
      requires header[..headerSize + other.Stored()] == other.Image()
      ensures Valid() && Image() == other.Image() && View() == other.View() && Written() == other.Written()
    {
      hide FromLE;
      var n := headerSize + other.Stored();
      PrefixSlice(header[..], other.header[..], n, 0, 4);
      PrefixSlice(header[..], other.header[..], n, headerSize, headerSize + writeOffset);
      PrefixSlice(header[..], other.header[..], n, headerSize, n);
    }

    /** The tail shared by copying and assigning: resize, then copy header and payload. */
    method CopyBuffer(other: Pickle)
      requires other != this && other.Valid() && other.header != null
      requires capacity != READ_ONLY && headerSize == other.headerSize
      requires header != null ==> header.Length == headerSize + capacity
      modifies this
      ensures header != null && fresh(header)
      ensures headerSize == old(headerSize) && writeOffset == old(writeOffset)
      ensures capacity == AlignUp(other.View().Size(), PAYLOAD_UNIT) <= 4 * TWO_32
      ensures header.Length == headerSize + capacity
      ensures header[..headerSize + other.Stored()] == other.Image()
      ensures header[..4] == other.header[..4]
      ensures other.Valid()
    {
      var size := FromLE(other.header[..4]);
      Pow256Values();
      FromLEBound(other.header[..4]);
      hide FromLE, AlignUp, AlignSize, Pow256;
      Resize(size);
      forall i | 0 <= i < headerSize + size {
        header[i] := other.header[i];
      }
      assert header[..headerSize + size] == other.header[..headerSize + size];
      assert header[..4] == header[..headerSize + size][..4];
    }

    /** `realloc` to the header plus a multiple of 64 bytes; what fits is kept. */
    method Resize(newCapacity: nat)
      requires capacity != READ_ONLY && newCapacity < TWO_64 - PAYLOAD_UNIT - 1
      requires header != null ==> header.Length == headerSize + capacity
      modifies this`header, this`capacity
      ensures header != null && fresh(header)
      ensures capacity == AlignUp(newCapacity, PAYLOAD_UNIT) < READ_ONLY
      ensures header.Length == headerSize + capacity
      ensures old(header) != null ==>
                forall i :: 0 <= i < headerSize + old(capacity) && i < headerSize + capacity ==>
                  header[i] == old(header[i])
    {
      AlignSizeIsAlignUp(newCapacity, PAYLOAD_UNIT);
      var oldCapacity := capacity;
      capacity := AlignSize(newCapacity, PAYLOAD_UNIT);
      var p := new byte[headerSize + capacity];
      if header != null {
        forall i | 0 <= i < headerSize + oldCapacity && i < headerSize + capacity {
          p[i] := header[i];
        }
      }
      header := p;
    }

    method StoreSize(size: nat)
      requires header != null && header.Length >= 4 && size < TWO_32
      modifies header
      ensures Stored() == size
      ensures header[4..] == old(header[4..])
    {
      MemCopy(0, ToLE(size, 4));
      assert header[..4] == header[0..4];
      Pow256Values();
      FromToLE(size, 4);
    }

    /** Makes room for `length` bytes plus padding behind the write offset, growing the
        buffer if needed, and returns where they go. */
    method ClaimUninitialized(length: nat) returns (at: nat)
      requires Writable()
      requires writeOffset + AlignUnit(length) <= MAX_PAYLOAD
      modifies this, header
      ensures Writable()
      ensures header == old(header) || fresh(header)
      ensures headerSize == old(headerSize)
      ensures writeOffset == Stored() == old(writeOffset) + AlignUnit(length)
      ensures capacity == CapacityAfterWrite(old(capacity), writeOffset)
      ensures at == headerSize + old(writeOffset)
      ensures header[4..headerSize] == old(header[4..headerSize])
      ensures header[headerSize..at] == old(header[headerSize..headerSize + writeOffset])
      ensures header[at + length..at + AlignUnit(length)] == Zeros(AlignUnit(length) - length)
    {
      hide AlignUnit, FromLE, CapacityAfterWrite, Zeros;
      var dataLen := AlignedLength(length);
      GrowFor(writeOffset + dataLen);
      at := ClaimGrown(length, dataLen);
    }

    /** The claim itself, once the buffer is large enough. */
    method ClaimGrown(length: nat, dataLen: nat) returns (at: nat)
      requires header != null && header.Length == headerSize + capacity && capacity <= 4 * TWO_32
      requires 4 <= headerSize && headerSize % UNIT == 0 && capacity % PAYLOAD_UNIT == 0
      requires length <= dataLen && dataLen % UNIT == 0 && writeOffset % UNIT == 0
      requires writeOffset + dataLen <= capacity && writeOffset + dataLen <= MAX_PAYLOAD
      modifies this`writeOffset, header
      ensures Writable() && header == old(header) && headerSize == old(headerSize) && capacity == old(capacity)
      ensures writeOffset == Stored() == old(writeOffset) + dataLen
      ensures at == headerSize + old(writeOffset)
      ensures header[4..headerSize] == old(header[4..headerSize])
      ensures header[headerSize..at] == old(header[headerSize..headerSize + writeOffset])
      ensures header[at + length..at + dataLen] == Zeros(dataLen - length)
    {
      hide FromLE, Zeros;
      SumOfUnits(writeOffset, dataLen);
      at := headerSize + writeOffset;
      var padding := Zeros(dataLen - length);
      PadAndStore(at, at + length, padding, writeOffset + dataLen);
      writeOffset := writeOffset + dataLen;
      assert at + length + |padding| == at + dataLen;
    }

    static method AlignedLength(length: nat) returns (n: nat)
      requires length <= MAX_PAYLOAD
      ensures n == AlignUnit(length)
    {
      AlignSizeIsAlignUp(length, UNIT);
      n := AlignSize(length, UNIT);
    }

    /** Zeroes the padding and stores the new payload size. */
    method PadAndStore(at: nat, pad: nat, padding: seq<byte>, size: nat)
      requires header != null && 4 <= headerSize <= at <= pad
      requires pad + |padding| <= header.Length && size < TWO_32
      modifies header
      ensures Stored() == size
      ensures header[4..headerSize] == old(header[4..headerSize])
      ensures header[headerSize..at] == old(header[headerSize..at])
      ensures header[pad..pad + |padding|] == padding
    {
      ghost var before := header[..];
      MemCopy(pad, padding);
      ghost var padded := header[..];
      StoreSize(size);
      SuffixSlice(header[..], padded, 4, pad, pad + |padding|);
      SuffixSlice(header[..], padded, 4, 4, headerSize);
      SuffixSlice(header[..], padded, 4, headerSize, at);
      PrefixSlice(padded, before, pad, 4, headerSize);
      PrefixSlice(padded, before, pad, headerSize, at);
    }

    /** The growth policy: at least double, and whole 4096-byte blocks less one unit
        once doubling passes 4096. */
    method GrowFor(newSize: nat)
      requires capacity % PAYLOAD_UNIT == 0 && capacity <= 4 * TWO_32 && newSize <= MAX_PAYLOAD
      requires header != null && header.Length == headerSize + capacity
      requires 4 <= headerSize && writeOffset <= capacity
      modifies this`header, this`capacity
      ensures capacity == CapacityAfterWrite(old(capacity), newSize)
      ensures newSize <= capacity <= 4 * TWO_32 && capacity % PAYLOAD_UNIT == 0
      ensures header != null && header.Length == headerSize + capacity
      ensures header == old(header) || fresh(header)
      ensures header[4..headerSize] == old(header[4..headerSize])
      ensures header[headerSize..headerSize + writeOffset] == old(header[headerSize..headerSize + writeOffset])
    {
      if newSize > capacity {
        GrowthFactor(capacity, newSize);
        var newCapacity := capacity * 2;
        if newCapacity > HEAP_ALIGN {
          AlignSizeIsAlignUp(newCapacity, HEAP_ALIGN);
          newCapacity := AlignSize(newCapacity, HEAP_ALIGN) - PAYLOAD_UNIT;
        }
        hide AlignUp, AlignSize;
        ghost var n := headerSize + capacity;
        Resize(if newCapacity < newSize then newSize else newCapacity);
        assert header[..n] == old(header[..])[..n];
        PrefixSlice(header[..], old(header[..]), n, 4, headerSize);
        PrefixSlice(header[..], old(header[..]), n, headerSize, headerSize + writeOffset);
      }
    }

    /** Claims the room and copies the data into it. */
    method AppendBytes(data: seq<byte>)
      requires Writable()
      requires writeOffset + AlignUnit(|data|) <= MAX_PAYLOAD
      modifies this, header
      ensures Writable() && InSync() && headerSize == old(headerSize)
      ensures capacity == CapacityAfterWrite(old(capacity), writeOffset)
      ensures header == old(header) || fresh(header)
      ensures Written() == old(Written()) + Pad(data)
      ensures header[4..headerSize] == old(header[4..headerSize])
    {
      hide FromLE, AlignUnit, CapacityAfterWrite, Zeros;
      var at := ClaimUninitialized(|data|);
      ghost var claimed := header[..];
      MemCopy(at, data);
      Overwritten(claimed, header[..], headerSize, at, at + AlignUnit(|data|), data,
                  Zeros(AlignUnit(|data|) - |data|), old(Written()));
    }

    /** Puts the padded data behind the write offset. Readers then see it appended to the old
        payload exactly if the pickle was in sync; else what was behind the offset is gone. */
    method WriteBytesCommon(data: seq<byte>)
      requires Writable()
      requires writeOffset + AlignUnit(|data|) <= MAX_PAYLOAD
      modifies this, header
      ensures Writable() && InSync() && headerSize == old(headerSize)
      ensures capacity == CapacityAfterWrite(old(capacity), writeOffset)
      ensures header == old(header) || fresh(header)
      ensures Written() == old(Written()) + Pad(data)
      ensures header[4..headerSize] == old(header[4..headerSize])
      ensures View() == Mapped(old(View().bytes) + Pad(data)) <==> old(InSync())
    {
      hide FromLE, AlignUnit, CapacityAfterWrite, Pad;
      ghost var payload, kept := View().bytes, Written();
      KeptPayload();
      AppendBytes(data);
      ExtendsIff(payload, kept, Pad(data));
    }

    method MemCopy(at: nat, data: seq<byte>)
      requires header != null && at + |data| <= header.Length
      modifies header
      ensures header[..at] == old(header[..at])
      ensures header[at..at + |data|] == data
      ensures header[at + |data|..] == old(header[at + |data|..])
    {
      forall i | at <= i < at + |data| {
        header[i] := data[i - at];
      }
    }

    /** The claimed area, its padding already zero, after its data is copied in. */
    static lemma Overwritten(before: seq<byte>, after: seq<byte>, from: nat, at: nat, end: nat,
                             data: seq<byte>, padding: seq<byte>, written: seq<byte>)
      requires 4 <= from <= at && at + |data| <= end <= |before|
      requires before[from..at] == written && before[at + |data|..end] == padding
      requires |after| == |before| && after[..at] == before[..at]
      requires after[at..at + |data|] == data && after[at + |data|..] == before[at + |data|..]
      ensures after[..4] == before[..4] && after[4..from] == before[4..from]
      ensures after[from..end] == written + (data + padding)
    {
      PrefixSlice(after, before, at, 0, 4);
      PrefixSlice(after, before, at, 4, from);
      assert after[from..at] == written by { PrefixSlice(after, before, at, from, at); }
      assert after[at..end] == data + padding by {
        SuffixSlice(after, before, at + |data|, at + |data|, end);
        JoinSlices(after, at, at + |data|, end);
      }
      JoinSlices(after, from, at, end);
    }

    // -------------------------------------------------------- typed writers

    /** Everything about a writable pickle but its unused bytes. */
    ghost function Abstract(): Buffer
      requires Writable()
      reads this, header
    {
      Buffer(headerSize, header[4..headerSize], Written(), capacity)
    }

    /** A fixed-size value of two, four or eight bytes. */
    method WriteBytesStatic(image: seq<byte>)
      requires Writable() && writeOffset + AlignUnit(|image|) <= MAX_PAYLOAD
      modifies this, header
      ensures Writable() && InSync() && Abstract() == old(Abstract()).Append(Pad(image), [|image|])
      ensures header == old(header) || fresh(header)
      ensures View() == Mapped(old(View().bytes) + Pad(image)) <==> old(InSync())
    {
      OneClaim(Abstract(), Pad(image), |image|);
      hide Buffer.Append, Pad, AlignUnit, CapacityAfterWrite, FromLE;
      WriteBytesCommon(image);
    }

    method WriteInt16(value: int16)
      requires Writable() && writeOffset + 4 <= MAX_PAYLOAD
      modifies this, header
      ensures Writable() && InSync() && Abstract() == old(Abstract()).Write(Int16Item(value))
      ensures header == old(header) || fresh(header)
      ensures View() == Mapped(old(View().bytes) + Encode(Int16Item(value))) <==> old(InSync())
    {
      Pow256Values();
      assert Encode(Int16Item(value)) == Pad(PodLE(value, 2)) && Claims(Int16Item(value)) == [2];
      assert |PodLE(value, 2)| == 2;
      hide Encode, Claims, Buffer.Append, Pad, PodLE, FromLE;
      WriteBytesStatic(PodLE(value, 2));
    }

    method WriteUInt16(value: uint16)
      requires Writable() && writeOffset + 4 <= MAX_PAYLOAD
      modifies this, header
      ensures Writable() && InSync() && Abstract() == old(Abstract()).Write(UInt16Item(value))
      ensures header == old(header) || fresh(header)
      ensures View() == Mapped(old(View().bytes) + Encode(UInt16Item(value))) <==> old(InSync())
    {
      Pow256Values();
      assert Encode(UInt16Item(value)) == Pad(PodLE(value, 2)) && Claims(UInt16Item(value)) == [2];
      assert |PodLE(value, 2)| == 2;
      hide Encode, Claims, Buffer.Append, Pad, PodLE, FromLE;
      WriteBytesStatic(PodLE(value, 2));
    }

    method WriteInt32(value: int32)
      requires Writable() && writeOffset + 4 <= MAX_PAYLOAD
      modifies this, header
      ensures Writable() && InSync() && Abstract() == old(Abstract()).Write(Int32Item(value))
      ensures header == old(header) || fresh(header)
      ensures View() == Mapped(old(View().bytes) + Encode(Int32Item(value))) <==> old(InSync())
    {
      Pow256Values();
      assert Encode(Int32Item(value)) == Pad(PodLE(value, 4)) && Claims(Int32Item(value)) == [4];
      assert |PodLE(value, 4)| == 4;
      hide Encode, Claims, Buffer.Append, Pad, PodLE, FromLE;
      WriteBytesStatic(PodLE(value, 4));
    }

    method WriteUInt32(value: uint32)
      requires Writable() && writeOffset + 4 <= MAX_PAYLOAD
      modifies this, header
      ensures Writable() && InSync() && Abstract() == old(Abstract()).Write(UInt32Item(value))
      ensures header == old(header) || fresh(header)
      ensures View() == Mapped(old(View().bytes) + Encode(UInt32Item(value))) <==> old(InSync())
    {
      Pow256Values();
      assert Encode(UInt32Item(value)) == Pad(PodLE(value, 4)) && Claims(UInt32Item(value)) == [4];
      assert |PodLE(value, 4)| == 4;
      hide Encode, Claims, Buffer.Append, Pad, PodLE, FromLE;
      WriteBytesStatic(PodLE(value, 4));
    }

    method WriteInt64(value: int64)
      requires Writable() && writeOffset + 8 <= MAX_PAYLOAD
      modifies this, header
      ensures Writable() && InSync() && Abstract() == old(Abstract()).Write(Int64Item(value))
      ensures header == old(header) || fresh(header)
      ensures View() == Mapped(old(View().bytes) + Encode(Int64Item(value))) <==> old(InSync())
    {
      Pow256Values();
      assert Encode(Int64Item(value)) == Pad(PodLE(value, 8)) && Claims(Int64Item(value)) == [8];
      assert |PodLE(value, 8)| == 8;
      hide Encode, Claims, Buffer.Append, Pad, PodLE, FromLE;
      WriteBytesStatic(PodLE(value, 8));
    }

    method WriteUInt64(value: uint64)
      requires Writable() && writeOffset + 8 <= MAX_PAYLOAD
      modifies this, header
      ensures Writable() && InSync() && Abstract() == old(Abstract()).Write(UInt64Item(value))
      ensures header == old(header) || fresh(header)
      ensures View() == Mapped(old(View().bytes) + Encode(UInt64Item(value))) <==> old(InSync())
    {
      Pow256Values();
      assert Encode(UInt64Item(value)) == Pad(PodLE(value, 8)) && Claims(UInt64Item(value)) == [8];
      assert |PodLE(value, 8)| == 8;
      hide Encode, Claims, Buffer.Append, Pad, PodLE, FromLE;
      WriteBytesStatic(PodLE(value, 8));
    }

    method WriteBool(value: bool)
      requires Writable() && writeOffset + 4 <= MAX_PAYLOAD
      modifies this, header
      ensures Writable() && InSync() && Abstract() == old(Abstract()).Write(BoolItem(value))
      ensures header == old(header) || fresh(header)
      ensures View() == Mapped(old(View().bytes) + Encode(BoolItem(value))) <==> old(InSync())
    {
      WriteInt32(if value then 1 else 0);
    }

    method WriteBytes(data: seq<byte>)
      requires Writable() && |data| < 0x8000_0000 && writeOffset + AlignUnit(|data|) <= MAX_PAYLOAD
      modifies this, header
      ensures Writable() && InSync() && Abstract() == old(Abstract()).Write(BytesItem(data))
      ensures header == old(header) || fresh(header)
      ensures View() == Mapped(old(View().bytes) + Encode(BytesItem(data))) <==> old(InSync())
    {
      OneClaim(Abstract(), Pad(data), |data|);
      assert Encode(BytesItem(data)) == Pad(data) && Claims(BytesItem(data)) == [|data|];
      hide Encode, Claims, Buffer.Append, Pad, AlignUnit, CapacityAfterWrite, FromLE;
      WriteBytesCommon(data);
    }

    /** A length and a padded block, as strings and data are written. */
    method WriteBlock(data: seq<byte>)
      requires Writable() && |data| < 0x8000_0000 && writeOffset + 4 + AlignUnit(|data|) <= MAX_PAYLOAD
      modifies this, header
      ensures |data| < Pow256(4)
      ensures Writable() && InSync() && Abstract() == old(Abstract()).Append(Pad(PodLE(|data|, 4)) + Pad(data), [4, |data|])
      ensures header == old(header) || fresh(header)
      ensures View() == Mapped(old(View().bytes) + (Pad(PodLE(|data|, 4)) + Pad(data))) <==> old(InSync())
    {
      ghost var payload, kept := View().bytes, Written();
      KeptPayload();
      ghost var start := Abstract();
      BlockAppended(start, data);
      hide Encode, Claims, Buffer.Append, Pad, PodLE, Pow256, ToLE, FromLE;
      WriteInt32(|data|);
      WriteBytes(data);
      ExtendsIff(payload, kept, (Pad(PodLE(|data|, 4)) + Pad(data)));
    }

    static lemma BlockAppended(s: Buffer, data: seq<byte>)
      requires |data| < 0x8000_0000
      ensures |data| < Pow256(4)
      ensures s.Write(Int32Item(|data|)).Write(BytesItem(data))
           == s.Append(Pad(PodLE(|data|, 4)) + Pad(data), [4, |data|])
    {
      Pow256Values();
      EncodedLength(Int32Item(|data|));
      AppendTwice(s, Pad(PodLE(|data|, 4)), [4], Pad(data), [|data|]);
      assert [4] + [|data|] == [4, |data|];
    }

    method WriteString(value: seq<byte>)
      requires Writable() && |value| < 0x8000_0000 && writeOffset + 4 + AlignUnit(|value|) <= MAX_PAYLOAD
      modifies this, header
      ensures Writable() && InSync() && Abstract() == old(Abstract()).Write(StringItem(value))
      ensures header == old(header) || fresh(header)
      ensures View() == Mapped(old(View().bytes) + Encode(StringItem(value))) <==> old(InSync())
    {
      Pow256Values();
      WriteBlock(value);
    }

    /** Refuses a negative length, writing nothing. */
    method WriteData(data: seq<byte>, length: int32) returns (ok: bool)
      requires Writable() && length <= |data|
      requires length >= 0 ==> writeOffset + 4 + AlignUnit(length) <= MAX_PAYLOAD
      modifies this, header
      ensures ok <==> length >= 0
      ensures ok ==> Writable() && InSync() && Abstract() == old(Abstract()).Write(DataItem(data[..length]))
      ensures ok ==> header == old(header) || fresh(header)
      ensures !ok ==> unchanged(this) && unchanged(header)
      ensures ok ==> (View() == Mapped(old(View().bytes) + Encode(DataItem(data[..length]))) <==> old(InSync()))
    {
      if length < 0 {
        return false;
      }
      Pow256Values();
      WriteBlock(data[..length]);
      ok := true;
    }

    /** Room for `length` more bytes, so that writing them does not reallocate. */
    method Reserve(length: nat)
      requires Writable() && length <= MAX_PAYLOAD && writeOffset + AlignUnit(length) <= MAX_PAYLOAD
      modifies this, header
      ensures Writable() && headerSize == old(headerSize) && writeOffset == old(writeOffset)
      ensures capacity == CapacityAfterReserve(old(capacity), writeOffset, length)
      ensures View() == old(View()) && Written() == old(Written()) && Image() == old(Image())
      ensures header == old(header) || fresh(header)
    {
      hide FromLE, AlignUnit, AlignUp;
      var dataLen := AlignedLength(length);
      var newSize := writeOffset + dataLen;
      if newSize > capacity {
        ghost var n := headerSize + Stored();
        Resize(capacity * 2 + newSize);
        KeptFront(header[..], old(header[..]), n, headerSize, writeOffset);
      }
    }

    /** With its first `n` bytes a buffer keeps the stored size, the payload and its front. */
    static lemma KeptFront(after: seq<byte>, before: seq<byte>, n: nat, from: nat, offset: nat)
      requires 4 <= from && from + offset <= n <= |before| && n <= |after|
      requires forall i :: 0 <= i < n ==> after[i] == before[i]
      ensures after[..4] == before[..4] && after[..n] == before[..n]
      ensures after[from..n] == before[from..n] && after[from..from + offset] == before[from..from + offset]
    {
    }

    // -------------------------------------------------------------- framing

    /** `PeekNext` over `bytes[start..end]`. */
    static method PeekNextIn(size: nat, bytes: array<byte>, start: nat, end: nat) returns (next: Option<nat>)
      requires 4 <= size <= PAYLOAD_UNIT && size % UNIT == 0
      requires start <= end <= bytes.Length
      ensures next == PeekNext(size, bytes[start..end])
    {
      var length := end - start;
      if length < 4 {
        return None;
      }
      assert bytes[start..end][..4] == bytes[start..start + 4];
      var payload := FromLE(bytes[start..start + 4]);
      if length < size {
        return None;
      }
      if payload > TWO_64 - 1 - size {
        next := Some(TWO_64 - 1);
      } else {
        next := Some(size + payload);
      }
    }

    /** `FindNext` over `bytes[start..end]`: the index of the following message. */
    static method FindNextIn(size: nat, bytes: array<byte>, start: nat, end: nat) returns (next: Option<nat>)
      requires 4 <= size <= PAYLOAD_UNIT && size % UNIT == 0
      requires start <= end <= bytes.Length
      ensures next == match FindNext(size, bytes[start..end])
                      case None => None
                      case Some(n) => Some(start + n)
    {
      var pickleSize := PeekNextIn(size, bytes, start, end);
      if pickleSize.None? || pickleSize.value > end - start {
        return None;
      }
      next := Some(start + pickleSize.value);
    }
  }

  /** A cursor over the payload of a pickle. It keeps a pointer into the buffer, so it
      reads the bytes that are there at the time of the call. */
  class PickleIterator {
    var payload: array?<byte>   // the buffer pointed into, null behind a null header
    var origin: nat             // where the payload starts in it
    var readIndex: nat
    var endIndex: nat

    ghost predicate Valid()
      reads this, payload
    {
      && (payload == null ==> endIndex == 0)
      && (payload != null ==> origin + endIndex <= payload.Length)
      && readIndex <= endIndex
    }

    ghost function View(): View
      requires Valid()
      reads this, payload
    {
      if payload == null then Null else Mapped(payload[origin..origin + endIndex])
    }

    constructor (pickle: Pickle)
      requires pickle.Valid()
      ensures Valid() && View() == pickle.View() && readIndex == 0
    {
      payload := pickle.header;
      origin := pickle.headerSize;
      readIndex := 0;
      endIndex := if pickle.header == null then 0 else FromLE(pickle.header[..4]);
    }

    method Advance(size: nat)
      requires Valid() && size <= 0x8000_0000
      modifies this`readIndex
      ensures Valid() && readIndex == Advanced(View(), old(readIndex), size)
    {
      AlignSizeIsAlignUp(size, UNIT);
      var alignedSize := AlignSize(size, UNIT);
      if endIndex - readIndex < alignedSize {
        readIndex := endIndex;
      } else {
        readIndex := readIndex + alignedSize;
      }
    }

    /** The bytes of a fixed- or variable-size item under the cursor, if they are all there. */
    method GetReadPointerAndAdvance(numBytes: int32) returns (bytes: Option<seq<byte>>)
      requires Valid()
      modifies this`readIndex
      ensures Valid() && (bytes, readIndex) == FetchedBytes(View(), old(readIndex), numBytes)
    {
      hide AlignUnit;
      if numBytes < 0 || endIndex - readIndex < numBytes {
        readIndex := endIndex;
        return None;
      }
      if payload == null {
        bytes := None;
      } else {
        bytes := Some(payload[origin + readIndex..origin + readIndex + numBytes]);
        SliceOfSlice(payload[..], origin, origin + endIndex, readIndex, readIndex + numBytes);
      }
      Advance(numBytes);
    }

    method ReadBool() returns (r: Option<bool>)
      requires Valid()
      modifies this`readIndex
      ensures Valid()
      ensures (if r.Some? then Some(BoolItem(r.value)) else None, readIndex) == ReadItem(View(), old(readIndex), BoolKind)
    {
      var b := GetReadPointerAndAdvance(1);
      r := if b.Some? then Some(b.value[0] != 0) else None;
    }

    method ReadInt16() returns (r: Option<int16>)
      requires Valid()
      modifies this`readIndex
      ensures Valid()
      ensures (if r.Some? then Some(Int16Item(r.value)) else None, readIndex) == ReadItem(View(), old(readIndex), Int16Kind)
    {
      Pow256Values();
      var b := GetReadPointerAndAdvance(2);
      if b.None? {
        return None;
      }
      FromLEBound(b.value);
      r := Some(AsSigned(b.value));
    }

    method ReadUInt16() returns (r: Option<uint16>)
      requires Valid()
      modifies this`readIndex
      ensures Valid()
      ensures (if r.Some? then Some(UInt16Item(r.value)) else None, readIndex) == ReadItem(View(), old(readIndex), UInt16Kind)
    {
      Pow256Values();
      var b := GetReadPointerAndAdvance(2);
      if b.None? {
        return None;
      }
      FromLEBound(b.value);
      r := Some(FromLE(b.value));
    }

    method ReadUInt32() returns (r: Option<uint32>)
      requires Valid()
      modifies this`readIndex
      ensures Valid()
      ensures (if r.Some? then Some(UInt32Item(r.value)) else None, readIndex) == ReadItem(View(), old(readIndex), UInt32Kind)
    {
      Pow256Values();
      var b := GetReadPointerAndAdvance(4);
      if b.None? {
        return None;
      }
      FromLEBound(b.value);
      r := Some(FromLE(b.value));
    }

    method ReadInt64() returns (r: Option<int64>)
      requires Valid()
      modifies this`readIndex
      ensures Valid()
      ensures (if r.Some? then Some(Int64Item(r.value)) else None, readIndex) == ReadItem(View(), old(readIndex), Int64Kind)
    {
      Pow256Values();
      var b := GetReadPointerAndAdvance(8);
      if b.None? {
        return None;
      }
      FromLEBound(b.value);
      r := Some(AsSigned(b.value));
    }

    method ReadUInt64() returns (r: Option<uint64>)
      requires Valid()
      modifies this`readIndex
      ensures Valid()
      ensures (if r.Some? then Some(UInt64Item(r.value)) else None, readIndex) == ReadItem(View(), old(readIndex), UInt64Kind)
    {
      Pow256Values();
      var b := GetReadPointerAndAdvance(8);
      if b.None? {
        return None;
      }
      FromLEBound(b.value);
      r := Some(FromLE(b.value));
    }

    method ReadInt32() returns (r: Option<int32>)
      requires Valid()
      modifies this`readIndex
      ensures Valid() && (r, readIndex) == ReadInt32At(View(), old(readIndex))
    {
      Pow256Values();
      var b := GetReadPointerAndAdvance(4);
      if b.None? {
        return None;
      }
      FromLEBound(b.value);
      r := Some(AsSigned(b.value));
    }

    method ReadString() returns (r: Option<seq<byte>>)
      requires Valid()
      modifies this`readIndex
      ensures Valid()
      ensures (if r.Some? then Some(StringItem(r.value)) else None, readIndex) == ReadItem(View(), old(readIndex), StringKind)
    {
      var n := ReadInt32();
      if n.None? {
        return None;
      }
      r := GetReadPointerAndAdvance(n.value);
    }

    method ReadData() returns (r: Option<seq<byte>>)
      requires Valid()
      modifies this`readIndex
      ensures Valid()
      ensures (if r.Some? then Some(DataItem(r.value)) else None, readIndex) == ReadItem(View(), old(readIndex), DataKind)
    {
      var n := ReadInt32();
      if n.None? {
        return None;
      }
      r := ReadBytes(n.value);
    }

    method ReadBytes(length: int32) returns (r: Option<seq<byte>>)
      requires Valid()
      modifies this`readIndex
      ensures Valid() && (r, readIndex) == FetchedBytes(View(), old(readIndex), length)
    {
      r := GetReadPointerAndAdvance(length);
    }

    method SkipBytes(numBytes: int32) returns (ok: bool)
      requires Valid()
      modifies this`readIndex
      ensures Valid() && (ok, readIndex) == Fetched(View(), old(readIndex), numBytes)
    {
      var b := GetReadPointerAndAdvance(numBytes);
      ok := b.Some?;
    }
  }

  /** Predicts the payload size of a run of writes; `size_t` arithmetic wraps. */
  class PickleSizer {
    var payloadSize: nat

    constructor ()
      ensures payloadSize == 0
    {
      payloadSize := 0;
    }

    method AddBytes(length: int32)
      modifies this
      ensures length >= 0 ==> payloadSize == (old(payloadSize) + AlignUnit(length)) % TWO_64
    {
      var size := if length < 0 then length + TWO_64 else length;
      if length >= 0 {
        AlignSizeIsAlignUp(size, UNIT);
      }
      payloadSize := (payloadSize + AlignSize(size, UNIT)) % TWO_64;
    }

    /** Any fixed-size item; a `bool` is added as a 32-bit integer. */
    method AddFixed(item: Item)
      requires Writable(item) && !item.StringItem? && !item.DataItem? && !item.BytesItem?
      modifies this
      ensures payloadSize == (old(payloadSize) + |Encode(item)|) % TWO_64
    {
      var width := if item.Int16Item? || item.UInt16Item? then 2
                   else if item.Int64Item? || item.UInt64Item? then 8 else 4;
      EncodedLength(item);
      assert Claims(item) == [width] && TotalClaim([width]) == AlignUnit(width);
      hide Encode, Claims, AlignUnit;
      AddBytes(width);
    }

    method AddBlock(length: nat)
      requires length < 0x8000_0000
      modifies this
      ensures payloadSize == (old(payloadSize) + 4 + AlignUnit(length)) % TWO_64
    {
      ghost var start := payloadSize;
      AddBytes(4);
      AddBytes(length);
      Bits.AddModTwice(start, 4, AlignUnit(length), TWO_64);
    }

    method AddString(value: seq<byte>)
      requires |value| < 0x8000_0000
      modifies this
      ensures payloadSize == (old(payloadSize) + |Encode(StringItem(value))|) % TWO_64
    {
      EncodedLength(StringItem(value));
      AddBlock(|value|);
    }

    method AddData(data: seq<byte>)
      requires |data| < 0x8000_0000
      modifies this
      ensures payloadSize == (old(payloadSize) + |Encode(DataItem(data))|) % TWO_64
    {
      EncodedLength(DataItem(data));
      AddBlock(|data|);
    }
  }
}
