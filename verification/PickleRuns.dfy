/** Whole runs of the classes of `base/pickle`: any list of items goes through the typed
    writers, possibly through copies, and back through the typed readers. */
module PickleRuns {
  import opened Bytes
  import opened PickleFormat
  import opened Pickles

  /** The typed writer for the item. */
  method WriteItem(pickle: Pickle, item: Item)
    requires pickle.Writable() && Writable(item)
    requires pickle.writeOffset + |Encode(item)| <= MAX_PAYLOAD
    modifies pickle, pickle.header
    ensures pickle.Writable() && pickle.InSync()
    ensures pickle.Abstract() == old(pickle.Abstract()).Write(item)
    ensures pickle.header == old(pickle.header) || fresh(pickle.header)
  {
    hide Encode, Buffer.Write, FromLE;
    match item
    case StringItem(_) => WriteBlockItem(pickle, item);
    case DataItem(_) => WriteBlockItem(pickle, item);
    case BytesItem(_) => WriteBlockItem(pickle, item);
    case Int32Item(_) => WriteShortItem(pickle, item);
    case BoolItem(_) => WriteShortItem(pickle, item);
    case Int16Item(_) => WriteShortItem(pickle, item);
    case UInt16Item(_) => WriteShortItem(pickle, item);
    case _ => WriteLongItem(pickle, item);
  }

  method WriteBlockItem(pickle: Pickle, item: Item)
    requires pickle.Writable() && Writable(item) && (item.StringItem? || item.DataItem? || item.BytesItem?)
    requires pickle.writeOffset + |Encode(item)| <= MAX_PAYLOAD
    modifies pickle, pickle.header
    ensures pickle.Writable() && pickle.InSync()
    ensures pickle.Abstract() == old(pickle.Abstract()).Write(item)
    ensures pickle.header == old(pickle.header) || fresh(pickle.header)
  {
    hide Encode, Buffer.Write, AlignUnit, FromLE;
    ItemRoom(item);
    match item
    case StringItem(s) => pickle.WriteString(s);
    case DataItem(s) =>
      assert s[..|s|] == s;
      var _ := pickle.WriteData(s, |s|);
    case BytesItem(s) => pickle.WriteBytes(s);
  }

  method WriteShortItem(pickle: Pickle, item: Item)
    requires pickle.Writable() && (item.BoolItem? || item.Int16Item? || item.UInt16Item? || item.Int32Item?)
    requires pickle.writeOffset + |Encode(item)| <= MAX_PAYLOAD
    modifies pickle, pickle.header
    ensures pickle.Writable() && pickle.InSync()
    ensures pickle.Abstract() == old(pickle.Abstract()).Write(item)
    ensures pickle.header == old(pickle.header) || fresh(pickle.header)
  {
    hide Encode, Buffer.Write, AlignUnit, FromLE;
    ItemRoom(item);
    match item
    case BoolItem(v) => pickle.WriteBool(v);
    case Int16Item(v) => pickle.WriteInt16(v);
    case UInt16Item(v) => pickle.WriteUInt16(v);
    case Int32Item(v) => pickle.WriteInt32(v);
  }

  method WriteLongItem(pickle: Pickle, item: Item)
    requires pickle.Writable() && (item.UInt32Item? || item.Int64Item? || item.UInt64Item?)
    requires pickle.writeOffset + |Encode(item)| <= MAX_PAYLOAD
    modifies pickle, pickle.header
    ensures pickle.Writable() && pickle.InSync()
    ensures pickle.Abstract() == old(pickle.Abstract()).Write(item)
    ensures pickle.header == old(pickle.header) || fresh(pickle.header)
  {
    hide Encode, Buffer.Write, AlignUnit, FromLE;
    ItemRoom(item);
    match item
    case UInt32Item(v) => pickle.WriteUInt32(v);
    case Int64Item(v) => pickle.WriteInt64(v);
    case UInt64Item(v) => pickle.WriteUInt64(v);
  }

  /** What a writer asks for is what its item takes. */
  lemma ItemRoom(item: Item)
    requires Writable(item)
    ensures |Encode(item)| ==
            match item
            case Int64Item(_) => 8
            case UInt64Item(_) => 8
            case StringItem(s) => 4 + AlignUnit(|s|)
            case DataItem(s) => 4 + AlignUnit(|s|)
            case BytesItem(s) => AlignUnit(|s|)
            case _ => 4
  {
  }

  method WriteItems(pickle: Pickle, items: seq<Item>)
    requires pickle.Writable() && AllWritable(items)
    requires pickle.writeOffset + |EncodeAll(items)| <= MAX_PAYLOAD
    modifies pickle, pickle.header
    ensures pickle.Writable() && (old(pickle.InSync()) || items != [] ==> pickle.InSync())
    ensures pickle.Abstract() == old(pickle.Abstract()).WriteAll(items)
    ensures pickle.header == old(pickle.header) || fresh(pickle.header)
    decreases |items|
  {
    if items != [] {
      ghost var start := pickle.Abstract();
      assert |start.Write(items[0]).written| == pickle.writeOffset + |Encode(items[0])|;
      hide Encode, Buffer.Write, FromLE;
      WriteItem(pickle, items[0]);
      WriteItems(pickle, items[1..]);
    }
  }

  /** The typed reader for the kind. */
  method ReadKind(reader: PickleIterator, kind: Kind) returns (r: Option<Item>)
    requires reader.Valid()
    modifies reader`readIndex
    ensures reader.Valid() && (r, reader.readIndex) == ReadItem(reader.View(), old(reader.readIndex), kind)
  {
    hide FetchedBytes, ReadBlockAt, ReadInt32At, Fetched, FromLE, AsSigned;
    match kind
    case StringKind => r := ReadBlockKind(reader, kind);
    case DataKind => r := ReadBlockKind(reader, kind);
    case BytesKind(_) => r := ReadBlockKind(reader, kind);
    case BoolKind => r := ReadShortKind(reader, kind);
    case Int16Kind => r := ReadShortKind(reader, kind);
    case UInt16Kind => r := ReadShortKind(reader, kind);
    case Int32Kind => r := ReadShortKind(reader, kind);
    case _ => r := ReadLongKind(reader, kind);
  }

  method ReadBlockKind(reader: PickleIterator, kind: Kind) returns (r: Option<Item>)
    requires reader.Valid() && (kind.StringKind? || kind.DataKind? || kind.BytesKind?)
    modifies reader`readIndex
    ensures reader.Valid() && (r, reader.readIndex) == ReadItem(reader.View(), old(reader.readIndex), kind)
  {
    hide FetchedBytes, ReadBlockAt, ReadInt32At, Fetched, FromLE, AsSigned;
    var b;
    match kind
    case StringKind =>
      b := reader.ReadString();
      r := if b.Some? then Some(StringItem(b.value)) else None;
    case DataKind =>
      b := reader.ReadData();
      r := if b.Some? then Some(DataItem(b.value)) else None;
    case BytesKind(n) =>
      b := reader.ReadBytes(n);
      r := if b.Some? then Some(BytesItem(b.value)) else None;
  }

  method ReadShortKind(reader: PickleIterator, kind: Kind) returns (r: Option<Item>)
    requires reader.Valid() && (kind.BoolKind? || kind.Int16Kind? || kind.UInt16Kind? || kind.Int32Kind?)
    modifies reader`readIndex
    ensures reader.Valid() && (r, reader.readIndex) == ReadItem(reader.View(), old(reader.readIndex), kind)
  {
    hide FetchedBytes, ReadBlockAt, ReadInt32At, Fetched, FromLE, AsSigned;
    match kind
    case BoolKind =>
      var v := reader.ReadBool();
      r := if v.Some? then Some(BoolItem(v.value)) else None;
    case Int16Kind =>
      var v := reader.ReadInt16();
      r := if v.Some? then Some(Int16Item(v.value)) else None;
    case UInt16Kind =>
      var v := reader.ReadUInt16();
      r := if v.Some? then Some(UInt16Item(v.value)) else None;
    case Int32Kind =>
      var v := reader.ReadInt32();
      r := if v.Some? then Some(Int32Item(v.value)) else None;
  }

  method ReadLongKind(reader: PickleIterator, kind: Kind) returns (r: Option<Item>)
    requires reader.Valid() && (kind.UInt32Kind? || kind.Int64Kind? || kind.UInt64Kind?)
    modifies reader`readIndex
    ensures reader.Valid() && (r, reader.readIndex) == ReadItem(reader.View(), old(reader.readIndex), kind)
  {
    hide FetchedBytes, ReadBlockAt, ReadInt32At, Fetched, FromLE, AsSigned;
    match kind
    case UInt32Kind =>
      var v := reader.ReadUInt32();
      r := if v.Some? then Some(UInt32Item(v.value)) else None;
    case Int64Kind =>
      var v := reader.ReadInt64();
      r := if v.Some? then Some(Int64Item(v.value)) else None;
    case UInt64Kind =>
      var v := reader.ReadUInt64();
      r := if v.Some? then Some(UInt64Item(v.value)) else None;
  }

  /** Reads the kinds one after another until one fails. */
  method ReadKinds(reader: PickleIterator, kinds: seq<Kind>) returns (r: Option<seq<Item>>)
    requires reader.Valid()
    modifies reader`readIndex
    ensures reader.Valid() && (r, reader.readIndex) == ReadAll(reader.View(), old(reader.readIndex), kinds)
    decreases |kinds|
  {
    hide ReadItem;
    if kinds == [] {
      return Some([]);
    }
    var first := ReadKind(reader, kinds[0]);
    if first.None? {
      return None;
    }
    var rest := ReadKinds(reader, kinds[1..]);
    r := if rest.Some? then Some([first.value] + rest.value) else None;
  }

  /** A fresh reader over a pickle, and whether it ends at the end. */
  method ReadBack(pickle: Pickle, kinds: seq<Kind>) returns (r: Option<seq<Item>>, atEnd: bool)
    requires pickle.Valid()
    ensures r == ReadAll(pickle.View(), 0, kinds).0
    ensures atEnd <==> ReadAll(pickle.View(), 0, kinds).1 == pickle.View().Size()
  {
    hide ReadAll;
    var reader := new PickleIterator(pickle);
    r := ReadKinds(reader, kinds);
    atEnd := reader.readIndex == reader.endIndex;
  }

  /** A pickle that shows the encoding of the items gives them back. */
  method ReadItemsBack(pickle: Pickle, items: seq<Item>) returns (r: Option<seq<Item>>, atEnd: bool)
    requires pickle.Valid() && AllWritable(items) && pickle.View() == Mapped(EncodeAll(items))
    ensures r == Some(items) && atEnd
  {
    hide Encode, EncodeAll, ReadItem, ReadAll, KindsOf, FromLE;
    RoundTripFresh(items);
    r, atEnd := ReadBack(pickle, KindsOf(items));
  }

  /** A new pickle with the items in it. */
  method WriteNew(items: seq<Item>) returns (pickle: Pickle)
    requires AllWritable(items) && |EncodeAll(items)| <= MAX_PAYLOAD
    ensures fresh(pickle) && pickle.Writable() && fresh(pickle.header)
    ensures pickle.View() == Mapped(EncodeAll(items))
  {
    hide Encode, EncodeAll, Claims, FromLE, Growth.ClaimAll;
    pickle := new Pickle();
    pickle.KeptPayload();
    WriteAllAppends(pickle.Abstract(), items);
    WriteItems(pickle, items);
    pickle.InSyncView();
    assert [] + EncodeAll(items) == EncodeAll(items);
  }

  /** Main result: any list of items written into a new pickle, with whatever growth that
      takes, is read back as written, up to the end, from the pickle itself, from a copy,
      and from any other pickle it is assigned to. */
  method WriteAndReadBack(items: seq<Item>, other: Pickle)
      returns (direct: Option<seq<Item>>, fromCopy: Option<seq<Item>>, fromOther: Option<seq<Item>>, atEnds: bool)
    requires AllWritable(items) && |EncodeAll(items)| <= MAX_PAYLOAD && other.Valid()
    modifies other
    ensures direct == fromCopy == fromOther == Some(items) && atEnds
  {
    hide Encode, EncodeAll, AllWritable, FromLE;
    var pickle := WriteNew(items);
    var end1, end2, end3;
    direct, end1 := ReadItemsBack(pickle, items);
    var copy := new Pickle.Copy(pickle);
    fromCopy, end2 := ReadItemsBack(copy, items);
    other.Assign(pickle);
    fromOther, end3 := ReadItemsBack(other, items);
    atEnds := end1 && end2 && end3;
  }

  /** A copy of an adopted pickle starts writing at the front: the first item written there
      replaces the whole payload it had. */
  method WriteToAdoptedCopy(data: array<byte>, length: int32, item: Item) returns (adopted: Pickle, copy: Pickle)
    requires length <= data.Length && AdoptedHeaderSize(data[..], length) != 0
    requires Writable(item) && |Encode(item)| <= MAX_PAYLOAD
    ensures adopted.Valid() && adopted.View() == Mapped(data[AdoptedHeaderSize(data[..], length)..length])
    ensures copy.Valid() && copy.View() == Mapped(Encode(item))
  {
    hide Encode, FromLE, AdoptedHeaderSize;
    adopted := new Pickle.FromBytes(data, length);
    copy := new Pickle.Copy(adopted);
    assert copy.Written() == [];
    WriteItem(copy, item);
    copy.InSyncView();
    assert [] + Encode(item) == Encode(item);
  }

  /** A message of four bytes of payload is adopted, so there are such copies. */
  lemma SmallMessageIsAdopted(payload: seq<byte>)
    requires |payload| == 4
    ensures AdoptedHeaderSize([4, 0, 0, 0] + payload, 8) == 4
  {
    var image := [4, 0, 0, 0] + payload;
    assert image[..4] == [4, 0, 0, 0];
    assert FromLE([4, 0, 0, 0]) == 4 by {
      assert FromLE([0, 0, 0]) == 0 by {
        assert FromLE([0, 0]) == 0 by {
          assert FromLE([0]) == 0;
        }
      }
    }
    ImageIsAdopted(4, image);
  }
}
