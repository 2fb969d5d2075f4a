/** The wire format of `base/pickle`: what a sequence of typed writes puts in the
    payload, what a sequence of typed reads gets out of arbitrary bytes, how the
    buffer grows, and how messages are delimited in a stream. */
module PickleFormat {
  import opened Bytes
  import opened Bits

  const UNIT: nat := 4
  const PAYLOAD_UNIT: nat := 64
  const HEAP_ALIGN: nat := 4096
  const MAX_PAYLOAD: nat := TWO_32 - 1

  /** One call of a typed writer with its argument. */
  datatype Item =
    | BoolItem(flag: bool)
    | Int16Item(i16: int16)
    | UInt16Item(u16: uint16)
    | Int32Item(i32: int32)
    | UInt32Item(u32: uint32)
    | Int64Item(i64: int64)
    | UInt64Item(u64: uint64)
    | StringItem(text: seq<byte>)
    | DataItem(data: seq<byte>)
    | BytesItem(raw: seq<byte>)

  /** One call of a typed reader; raw bytes are read with a length of the caller's choice. */
  datatype Kind =
    | BoolKind | Int16Kind | UInt16Kind | Int32Kind | UInt32Kind | Int64Kind | UInt64Kind
    | StringKind | DataKind
    | BytesKind(length: int32)

  /** Variable-length items carry their length in an `int`. */
  predicate Writable(item: Item) {
    match item
    case StringItem(s) => |s| < 0x8000_0000
    case DataItem(s) => |s| < 0x8000_0000
    case BytesItem(s) => |s| < 0x8000_0000
    case _ => true
  }

  predicate AllWritable(items: seq<Item>) {
    forall i :: 0 <= i < |items| ==> Writable(items[i])
  }

  function KindOf(item: Item): Kind
    requires Writable(item)
  {
    match item
    case BoolItem(_) => BoolKind
    case Int16Item(_) => Int16Kind
    case UInt16Item(_) => UInt16Kind
    case Int32Item(_) => Int32Kind
    case UInt32Item(_) => UInt32Kind
    case Int64Item(_) => Int64Kind
    case UInt64Item(_) => UInt64Kind
    case StringItem(_) => StringKind
    case DataItem(_) => DataKind
    case BytesItem(s) => BytesKind(|s|)
  }

  function KindsOf(items: seq<Item>): (kinds: seq<Kind>)
    requires AllWritable(items)
    ensures |kinds| == |items|
  {
    if items == [] then [] else [KindOf(items[0])] + KindsOf(items[1..])
  }

  // ---------------------------------------------------------------- writing

  function AlignUnit(n: nat): (r: nat)
    ensures n <= r < n + 4 && r % 4 == 0
  {
    AlignUp(n, UNIT)
  }

  /** Bytes followed by zeros up to the next multiple of four. */
  function Pad(s: seq<byte>): (p: seq<byte>)
    ensures |p| == AlignUnit(|s|) && p[..|s|] == s
  {
    s + Zeros(AlignUnit(|s|) - |s|)
  }

  function PodLE(v: int, width: nat): seq<byte>
    requires -(Pow256(width) as int) <= 2 * v && v < Pow256(width)
  {
    ToLE(if v < 0 then v + Pow256(width) else v, width)
  }

  /** The unpadded little-endian image of each fixed-size item. */
  function Encode(item: Item): seq<byte>
    requires Writable(item)
  {
    Pow256Values();
    match item
    case BoolItem(b) => Pad(PodLE(if b then 1 else 0, 4))
    case Int16Item(v) => Pad(PodLE(v, 2))
    case UInt16Item(v) => Pad(PodLE(v, 2))
    case Int32Item(v) => Pad(PodLE(v, 4))
    case UInt32Item(v) => Pad(PodLE(v, 4))
    case Int64Item(v) => Pad(PodLE(v, 8))
    case UInt64Item(v) => Pad(PodLE(v, 8))
    case StringItem(s) => Pad(PodLE(|s|, 4)) + Pad(s)
    case DataItem(s) => Pad(PodLE(|s|, 4)) + Pad(s)
    case BytesItem(s) => Pad(s)
  }

  function EncodeAll(items: seq<Item>): seq<byte>
    requires AllWritable(items)
  {
    if items == [] then [] else Encode(items[0]) + EncodeAll(items[1..])
  }

  // ---------------------------------------------------------------- reading

  /** What an iterator can see: nothing behind a null pointer, or mapped bytes. */
  datatype View = Null | Mapped(bytes: seq<byte>) {
    function Size(): nat {
      if Null? then 0 else |bytes|
    }
  }

  /** `PickleIterator::Advance`: move past a padded item, stopping at the end. */
  function Advanced(view: View, index: nat, size: nat): (i: nat)
    requires index <= view.Size()
    ensures i <= view.Size()
  {
    if view.Size() - index < AlignUnit(size) then view.Size() else index + AlignUnit(size)
  }

  /** Position after asking for `n` bytes, and whether they are there. */
  function Fetched(view: View, index: nat, n: int): (r: (bool, nat))
    requires index <= view.Size()
    ensures r.1 <= view.Size()
    ensures r.0 ==> view.Mapped? && 0 <= n && index + n <= |view.bytes|
  {
    if n < 0 || view.Size() - index < n then (false, view.Size())
    else (view.Mapped?, Advanced(view, index, n))
  }

  function FetchedBytes(view: View, index: nat, n: int): (r: (Option<seq<byte>>, nat))
    requires index <= view.Size()
    ensures r.1 <= view.Size()
    ensures r.0.Some? ==> |r.0.value| == n
  {
    var (ok, next) := Fetched(view, index, n);
    (if ok then Some(view.bytes[index..index + n]) else None, next)
  }

  function AsSigned(b: seq<byte>): int { Signed(FromLE(b), |b|) }

  /** One typed read at `index`: the value, if any, and the new read index. */
  function ReadItem(view: View, index: nat, kind: Kind): (r: (Option<Item>, nat))
    requires index <= view.Size()
    ensures r.1 <= view.Size()
    ensures r.0.Some? ==> Writable(r.0.value)
  {
    Pow256Values();
    match kind
    case BoolKind =>
      var (b, next) := FetchedBytes(view, index, 1);
      (if b.Some? then Some(BoolItem(b.value[0] != 0)) else None, next)
    case Int16Kind =>
      var (b, next) := FetchedBytes(view, index, 2);
      (if b.Some? then FromLEBound(b.value); Some(Int16Item(AsSigned(b.value))) else None, next)
    case UInt16Kind =>
      var (b, next) := FetchedBytes(view, index, 2);
      (if b.Some? then FromLEBound(b.value); Some(UInt16Item(FromLE(b.value))) else None, next)
    case Int32Kind =>
      var (v, next) := ReadInt32At(view, index);
      (if v.Some? then Some(Int32Item(v.value)) else None, next)
    case UInt32Kind =>
      var (b, next) := FetchedBytes(view, index, 4);
      (if b.Some? then FromLEBound(b.value); Some(UInt32Item(FromLE(b.value))) else None, next)
    case Int64Kind =>
      var (b, next) := FetchedBytes(view, index, 8);
      (if b.Some? then FromLEBound(b.value); Some(Int64Item(AsSigned(b.value))) else None, next)
    case UInt64Kind =>
      var (b, next) := FetchedBytes(view, index, 8);
      (if b.Some? then FromLEBound(b.value); Some(UInt64Item(FromLE(b.value))) else None, next)
    case StringKind =>
      var (b, next) := ReadBlockAt(view, index);
      (if b.Some? then Some(StringItem(b.value)) else None, next)
    case DataKind =>
      var (b, next) := ReadBlockAt(view, index);
      (if b.Some? then Some(DataItem(b.value)) else None, next)
    case BytesKind(n) =>
      var (b, next) := FetchedBytes(view, index, n);
      (if b.Some? then Some(BytesItem(b.value)) else None, next)
  }

  function ReadInt32At(view: View, index: nat): (r: (Option<int32>, nat))
    requires index <= view.Size()
    ensures r.1 <= view.Size()
  {
    Pow256Values();
    var (b, next) := FetchedBytes(view, index, 4);
    (if b.Some? then FromLEBound(b.value); Some(AsSigned(b.value)) else None, next)
  }

  /** A length-prefixed block: `ReadString` and `ReadData`. */
  function ReadBlockAt(view: View, index: nat): (r: (Option<seq<byte>>, nat))
    requires index <= view.Size()
    ensures r.1 <= view.Size()
    ensures r.0.Some? ==> |r.0.value| < 0x8000_0000
  {
    var (n, next) := ReadInt32At(view, index);
    if n.None? then (None, next) else FetchedBytes(view, next, n.value)
  }

  /** Reads of the given kinds one after another; stops at the first failure. */
  function ReadAll(view: View, index: nat, kinds: seq<Kind>): (r: (Option<seq<Item>>, nat))
    requires index <= view.Size()
    decreases |kinds|
  {
    if kinds == [] then (Some([]), index)
    else
      var (item, next) := ReadItem(view, index, kinds[0]);
      if item.None? then (None, next)
      else
        var (rest, end) := ReadAll(view, next, kinds[1..]);
        (if rest.None? then None else Some([item.value] + rest.value), end)
  }

  // ------------------------------------------------------------- round trip

  lemma PodRoundTrip(v: int, width: nat)
    requires -(Pow256(width) as int) <= 2 * v && v < Pow256(width)
    ensures |PodLE(v, width)| == width
    ensures FromLE(PodLE(v, width)) == if v < 0 then v + Pow256(width) else v
    ensures 2 * v < Pow256(width) ==> AsSigned(PodLE(v, width)) == v
  {
    FromToLE(if v < 0 then v + Pow256(width) else v, width);
  }

  /** Padded bytes in the middle of a payload are fetched whole. */
  lemma FetchPadded(pre: seq<byte>, s: seq<byte>, post: seq<byte>)
    ensures FetchedBytes(Mapped(pre + Pad(s) + post), |pre|, |s|) == (Some(s), |pre| + |Pad(s)|)
  {
    var bytes := pre + Pad(s) + post;
    assert bytes[|pre|..|pre| + |s|] == Pad(s)[..|s|] == s;
  }

  lemma ReadPod(pre: seq<byte>, v: int, width: nat, post: seq<byte>)
    requires -(Pow256(width) as int) <= 2 * v && v < Pow256(width)
    ensures var image := PodLE(v, width);
            && FetchedBytes(Mapped(pre + Pad(image) + post), |pre|, width) == (Some(image), |pre| + |Pad(image)|)
            && |image| == width
            && (0 <= v ==> FromLE(image) == v)
            && (2 * v < Pow256(width) ==> AsSigned(image) == v)
  {
    hide Pow256, ToLE, FromLE;
    PodRoundTrip(v, width);
    FetchPadded(pre, PodLE(v, width), post);
  }

  lemma ReadInt32Padded(pre: seq<byte>, v: int32, post: seq<byte>)
    ensures Pow256(4) == TWO_32
    ensures ReadInt32At(Mapped(pre + Pad(PodLE(v, 4)) + post), |pre|) == (Some(v), |pre| + |Pad(PodLE(v, 4))|)
  {
    Pow256Values();
    ReadPod(pre, v, 4, post);
  }

  lemma ReadBlockPadded(pre: seq<byte>, s: seq<byte>, post: seq<byte>)
    requires |s| < 0x8000_0000
    ensures Pow256(4) == TWO_32
    ensures ReadBlockAt(Mapped(pre + (Pad(PodLE(|s|, 4)) + Pad(s)) + post), |pre|)
         == (Some(s), |pre| + |Pad(PodLE(|s|, 4)) + Pad(s)|)
  {
    Pow256Values();
    var length := Pad(PodLE(|s|, 4));
    var bytes := pre + (length + Pad(s)) + post;
    assert bytes == pre + length + (Pad(s) + post);
    assert bytes == (pre + length) + Pad(s) + post;
    ReadInt32Padded(pre, |s|, Pad(s) + post);
    FetchPadded(pre + length, s, post);
  }

  /** `item`, encoded between any two byte strings, is read back whole. */
  ghost predicate ReadBack(pre: seq<byte>, item: Item, post: seq<byte>)
    requires Writable(item)
  {
    ReadItem(Mapped(pre + Encode(item) + post), |pre|, KindOf(item)) == (Some(item), |pre| + |Encode(item)|)
  }

  lemma ReadInt16Item(pre: seq<byte>, v: int16, post: seq<byte>)
    ensures ReadBack(pre, Int16Item(v), post)
  {
    Pow256Values();
    ReadPod(pre, v, 2, post);
  }

  lemma ReadUInt16Item(pre: seq<byte>, v: uint16, post: seq<byte>)
    ensures ReadBack(pre, UInt16Item(v), post)
  {
    Pow256Values();
    ReadPod(pre, v, 2, post);
  }

  lemma ReadUInt32Item(pre: seq<byte>, v: uint32, post: seq<byte>)
    ensures ReadBack(pre, UInt32Item(v), post)
  {
    Pow256Values();
    ReadPod(pre, v, 4, post);
  }

  lemma ReadInt64Item(pre: seq<byte>, v: int64, post: seq<byte>)
    ensures ReadBack(pre, Int64Item(v), post)
  {
    Pow256Values();
    ReadPod(pre, v, 8, post);
  }

  lemma ReadUInt64Item(pre: seq<byte>, v: uint64, post: seq<byte>)
    ensures ReadBack(pre, UInt64Item(v), post)
  {
    Pow256Values();
    ReadPod(pre, v, 8, post);
  }

  lemma ReadInt32Item(pre: seq<byte>, v: int32, post: seq<byte>)
    ensures ReadBack(pre, Int32Item(v), post)
  {
    Pow256Values();
    ReadInt32Padded(pre, v, post);
  }

  lemma ReadStringItem(pre: seq<byte>, v: seq<byte>, post: seq<byte>)
    requires Writable(StringItem(v))
    ensures ReadBack(pre, StringItem(v), post)
  {
    Pow256Values();
    ReadBlockPadded(pre, v, post);
  }

  lemma ReadDataItem(pre: seq<byte>, v: seq<byte>, post: seq<byte>)
    requires Writable(DataItem(v))
    ensures ReadBack(pre, DataItem(v), post)
  {
    Pow256Values();
    ReadBlockPadded(pre, v, post);
  }

  lemma ReadBytesItem(pre: seq<byte>, v: seq<byte>, post: seq<byte>)
    requires Writable(BytesItem(v))
    ensures ReadBack(pre, BytesItem(v), post)
  {
    Pow256Values();
    FetchPadded(pre, v, post);
  }

  lemma ReadOne(pre: seq<byte>, item: Item, post: seq<byte>)
    requires Writable(item)
    ensures ReadBack(pre, item, post)
  {
    hide ReadBack;
    match item
    case BoolItem(v) => ReadBoolItem(pre, v, post);
    case Int16Item(v) => ReadInt16Item(pre, v, post);
    case UInt16Item(v) => ReadUInt16Item(pre, v, post);
    case Int32Item(v) => ReadInt32Item(pre, v, post);
    case UInt32Item(v) => ReadUInt32Item(pre, v, post);
    case Int64Item(v) => ReadInt64Item(pre, v, post);
    case UInt64Item(v) => ReadUInt64Item(pre, v, post);
    case StringItem(v) => ReadStringItem(pre, v, post);
    case DataItem(v) => ReadDataItem(pre, v, post);
    case BytesItem(v) => ReadBytesItem(pre, v, post);
  }

  /** A bool is written as four bytes and read back from the first of them. */
  lemma ReadBoolItem(pre: seq<byte>, b: bool, post: seq<byte>)
    ensures ReadBack(pre, BoolItem(b), post)
  {
    Pow256Values();
    var v := if b then 1 else 0;
    var image := PodLE(v, 4);
    var bytes := pre + Pad(image) + post;
    assert image[0] == v;
    assert bytes[|pre|] == Pad(image)[0] == image[0];
    assert bytes[|pre|..|pre| + 1][0] == v;
  }

  /** Main result: reading the written kinds returns the written values, in order,
      and stops exactly at the end of what was written. */
  lemma {:induction false} RoundTrip(pre: seq<byte>, items: seq<Item>, post: seq<byte>)
    requires AllWritable(items)
    ensures ReadAll(Mapped(pre + EncodeAll(items) + post), |pre|, KindsOf(items))
         == (Some(items), |pre| + |EncodeAll(items)|)
    decreases |items|
  {
    hide ReadItem, Encode, KindOf, Writable;
    if items != [] {
      RoundTrip(pre + Encode(items[0]), items[1..], post);
      RoundTripStep(pre, items, EncodeAll(items[1..]), post);
    }
  }

  lemma RoundTripStep(pre: seq<byte>, items: seq<Item>, rest: seq<byte>, post: seq<byte>)
    requires AllWritable(items) && items != []
    requires ReadAll(Mapped((pre + Encode(items[0])) + rest + post), |pre + Encode(items[0])|, KindsOf(items[1..]))
          == (Some(items[1..]), |pre + Encode(items[0])| + |rest|)
    ensures ReadAll(Mapped(pre + (Encode(items[0]) + rest) + post), |pre|, KindsOf(items))
         == (Some(items), |pre| + |Encode(items[0]) + rest|)
  {
    hide ReadItem, Encode, KindOf, Writable;
    Regroup(pre, Encode(items[0]), rest, post);
    ReadOne(pre, items[0], rest + post);
    KindsOfTail(items);
    assert [items[0]] + items[1..] == items;
  }

  lemma Regroup<T>(a: seq<T>, b: seq<T>, c: seq<T>, d: seq<T>)
    ensures a + (b + c) + d == a + b + (c + d)
    ensures a + (b + c) + d == (a + b) + c + d
    ensures a + (b + c) == (a + b) + c
  {
  }

  lemma KindsOfTail(items: seq<Item>)
    requires AllWritable(items) && items != []
    ensures KindsOf(items)[0] == KindOf(items[0])
    ensures KindsOf(items)[1..] == KindsOf(items[1..])
  {
  }

  lemma RoundTripFresh(items: seq<Item>)
    requires AllWritable(items)
    ensures ReadAll(Mapped(EncodeAll(items)), 0, KindsOf(items)) == (Some(items), |EncodeAll(items)|)
  {
    hide ReadItem, Encode, KindOf, Writable;
    RoundTrip([], items, []);
    assert [] + EncodeAll(items) + [] == EncodeAll(items);
  }

  /** The payload determines the values: equal payloads of equal kinds are equal writes. */
  lemma EncodeInjective(a: seq<Item>, b: seq<Item>)
    requires AllWritable(a) && AllWritable(b)
    requires KindsOf(a) == KindsOf(b) && EncodeAll(a) == EncodeAll(b)
    ensures a == b
  {
    RoundTripFresh(a);
    RoundTripFresh(b);
  }

  /** Every byte a read hands out lies inside the payload, where the cursor stood. */
  lemma ReadsStayInside(view: View, index: nat, n: int)
    requires index <= view.Size()
    ensures var (b, next) := FetchedBytes(view, index, n);
            && index <= next <= view.Size()
            && (b.Some? <==> view.Mapped? && 0 <= n <= |view.bytes| - index)
            && (b.Some? ==> b.value == view.bytes[index..index + n] && next >= index + n)
            && (b.None? && view.Mapped? ==> next == view.Size())
  {
  }

  /** A failed read leaves the cursor at the end of the payload. */
  lemma FailureExhausts(view: View, index: nat, kind: Kind)
    requires index <= view.Size() && ReadItem(view, index, kind).0.None?
    ensures ReadItem(view, index, kind).1 == view.Size()
  {
  }

  /** At the end of the payload every read but a zero-length raw one fails, and stays there. */
  lemma NothingLeft(view: View, kind: Kind)
    ensures ReadItem(view, view.Size(), kind).1 == view.Size()
    ensures kind != BytesKind(0) ==> ReadItem(view, view.Size(), kind).0.None?
  {
  }

  /** Reads of the given kinds one after another, whether or not they succeed. */
  function ReadEach(view: View, index: nat, kinds: seq<Kind>): (r: (seq<Option<Item>>, nat))
    requires index <= view.Size()
    ensures |r.0| == |kinds|
    decreases |kinds|
  {
    if kinds == [] then ([], index)
    else
      var (item, next) := ReadItem(view, index, kinds[0]);
      var (items, last) := ReadEach(view, next, kinds[1..]);
      ([item] + items, last)
  }

  lemma {:induction false} NothingEverLeft(view: View, later: seq<Kind>)
    ensures ReadEach(view, view.Size(), later).1 == view.Size()
    ensures forall i :: 0 <= i < |later| && later[i] != BytesKind(0) ==> ReadEach(view, view.Size(), later).0[i].None?
    decreases |later|
  {
    if later != [] {
      NothingLeft(view, later[0]);
      NothingEverLeft(view, later[1..]);
      hide ReadItem;
      forall i | 0 < i < |later|
        ensures ReadEach(view, view.Size(), later).0[i] == ReadEach(view, view.Size(), later[1..]).0[i - 1]
      {
      }
    }
  }

  /** Main result on failure: after one failed read, every later read, however many there are
      and whatever their kinds, fails too unless it is a raw read of no bytes, and the cursor
      stays at the end. */
  lemma FailureIsForever(view: View, index: nat, failed: Kind, later: seq<Kind>)
    requires index <= view.Size() && ReadItem(view, index, failed).0.None?
    ensures var next := ReadItem(view, index, failed).1;
            && ReadEach(view, next, later).1 == view.Size()
            && forall i :: 0 <= i < |later| && later[i] != BytesKind(0) ==> ReadEach(view, next, later).0[i].None?
  {
    FailureExhausts(view, index, failed);
    NothingEverLeft(view, later);
  }

  // ----------------------------------------------------------------- growth

  /** `ClaimUninitializedBytesInternal`: the capacity chosen when `newSize` does not fit. */
  function GrownCapacity(capacity: nat, newSize: nat): nat {
    var doubled := capacity * 2;
    var rounded := if doubled > HEAP_ALIGN then AlignUp(doubled, HEAP_ALIGN) - PAYLOAD_UNIT else doubled;
    AlignUp(if rounded < newSize then newSize else rounded, PAYLOAD_UNIT)
  }

  function CapacityAfterWrite(capacity: nat, newSize: nat): nat {
    if newSize > capacity then GrownCapacity(capacity, newSize) else capacity
  }

  /** `Reserve`: capacity after asking for room for `length` more bytes. */
  function CapacityAfterReserve(capacity: nat, offset: nat, length: nat): nat {
    var newSize := offset + AlignUnit(length);
    if newSize > capacity then AlignUp(capacity * 2 + newSize, PAYLOAD_UNIT) else capacity
  }

  /** One step of a buffer's life. `abandoned` sums the capacities given up so far. */
  datatype Growth = Growth(capacity: nat, offset: nat, abandoned: nat) {
    function Claim(length: nat): Growth {
      var newSize := offset + AlignUnit(length);
      var newCapacity := CapacityAfterWrite(capacity, newSize);
      Growth(newCapacity, newSize, if newSize > capacity then abandoned + capacity else abandoned)
    }

    function ClaimAll(lengths: seq<nat>): Growth
      decreases |lengths|
    {
      if lengths == [] then this else Claim(lengths[0]).ClaimAll(lengths[1..])
    }

    ghost predicate Inv() {
      && capacity % PAYLOAD_UNIT == 0
      && offset <= capacity
      && capacity < 2 * offset + HEAP_ALIGN
      && abandoned <= 2 * capacity
    }
  }

  lemma GrowthFactor(capacity: nat, newSize: nat)
    requires capacity % PAYLOAD_UNIT == 0 && newSize > capacity
    ensures var grown := GrownCapacity(capacity, newSize);
            && grown % PAYLOAD_UNIT == 0
            && newSize <= grown < 2 * newSize + HEAP_ALIGN
            && 3 * capacity <= 2 * grown
  {
  }

  /** Main result on growth: over any run of claims the capacity stays a multiple of 64,
      holds the payload, wastes less than the payload plus 4096, and all abandoned
      buffers together are at most twice the live one. */
  lemma {:induction false} GrowthInvariant(g: Growth, lengths: seq<nat>)
    requires g.Inv()
    ensures g.ClaimAll(lengths).Inv()
    decreases |lengths|
  {
    if lengths != [] {
      var newSize := g.offset + AlignUnit(lengths[0]);
      if newSize > g.capacity {
        GrowthFactor(g.capacity, newSize);
      }
      GrowthInvariant(g.Claim(lengths[0]), lengths[1..]);
    }
  }

  /** The claims made by one item. */
  function Claims(item: Item): seq<nat>
    requires Writable(item)
  {
    match item
    case BoolItem(_) => [4]
    case Int16Item(_) => [2]
    case UInt16Item(_) => [2]
    case Int32Item(_) => [4]
    case UInt32Item(_) => [4]
    case Int64Item(_) => [8]
    case UInt64Item(_) => [8]
    case StringItem(s) => [4, |s|]
    case DataItem(s) => [4, |s|]
    case BytesItem(s) => [|s|]
  }

  function ClaimsOf(items: seq<Item>): seq<nat>
    requires AllWritable(items)
  {
    if items == [] then [] else Claims(items[0]) + ClaimsOf(items[1..])
  }

  function TotalClaim(lengths: seq<nat>): nat {
    if lengths == [] then 0 else AlignUnit(lengths[0]) + TotalClaim(lengths[1..])
  }

  lemma {:induction false} TotalClaimConcat(a: seq<nat>, b: seq<nat>)
    ensures TotalClaim(a + b) == TotalClaim(a) + TotalClaim(b)
  {
    if a == [] {
      assert a + b == b;
    } else {
      TotalClaimConcat(a[1..], b);
      assert (a + b)[1..] == a[1..] + b;
    }
  }

  /** The sum of aligned claims is the encoded length. */
  lemma {:induction false} ClaimsMeasurePayload(items: seq<Item>)
    requires AllWritable(items)
    ensures TotalClaim(ClaimsOf(items)) == |EncodeAll(items)|
  {
    if items != [] {
      ClaimsMeasurePayload(items[1..]);
      TotalClaimConcat(Claims(items[0]), ClaimsOf(items[1..]));
      EncodedLength(items[0]);
    }
  }

  lemma EncodedLength(item: Item)
    requires Writable(item)
    ensures |Encode(item)| == TotalClaim(Claims(item))
  {
    Pow256Values();
    var claims := Claims(item);
    assert TotalClaim(claims[1..]) == if |claims| == 2 then AlignUnit(claims[1]) else 0;
  }

  lemma {:induction false} NoGrowthWithin(g: Growth, lengths: seq<nat>)
    requires g.offset + TotalClaim(lengths) <= g.capacity
    ensures g.ClaimAll(lengths) == Growth(g.capacity, g.offset + TotalClaim(lengths), g.abandoned)
    decreases |lengths|
  {
    if lengths != [] {
      NoGrowthWithin(g.Claim(lengths[0]), lengths[1..]);
    }
  }

  lemma {:induction false} TotalClaimAligned(lengths: seq<nat>)
    ensures TotalClaim(lengths) % UNIT == 0
  {
    if lengths != [] {
      hide AlignUnit;
      TotalClaimAligned(lengths[1..]);
      SumOfUnits(AlignUnit(lengths[0]), TotalClaim(lengths[1..]));
    }
  }

  lemma SumOfUnits(a: nat, b: nat)
    requires a % UNIT == 0 && b % UNIT == 0
    ensures (a + b) % UNIT == 0
  {
  }

  lemma AlignUpFixed(n: nat)
    requires n % UNIT == 0
    ensures AlignUnit(n) == n
  {
  }

  /** Main result on `Reserve`: reserving the predicted size once, no write of the
      predicted sequence reallocates. */
  lemma ReserveSuffices(capacity: nat, offset: nat, items: seq<Item>)
    requires AllWritable(items)
    ensures var reserved := CapacityAfterReserve(capacity, offset, |EncodeAll(items)|);
            Growth(reserved, offset, 0).ClaimAll(ClaimsOf(items))
            == Growth(reserved, offset + |EncodeAll(items)|, 0)
  {
    var lengths := ClaimsOf(items);
    ClaimsMeasurePayload(items);
    TotalClaimAligned(lengths);
    var total := |EncodeAll(items)|;
    AlignUpFixed(total);
    var reserved := CapacityAfterReserve(capacity, offset, total);
    assert offset + total <= reserved;
    NoGrowthWithin(Growth(reserved, offset, 0), lengths);
  }

  // ------------------------------------------------ a writable pickle, as a value

  /** Header fields behind the payload size, bytes the next write keeps, and capacity. */
  datatype Buffer = Buffer(headerSize: nat, fields: seq<byte>, written: seq<byte>, capacity: nat) {
    function Growing(): Growth { Growth(capacity, |written|, 0) }

    function Append(block: seq<byte>, claims: seq<nat>): Buffer {
      this.(written := written + block, capacity := Growing().ClaimAll(claims).capacity)
    }

    function Write(item: Item): Buffer
      requires Writable(item)
    {
      Append(Encode(item), Claims(item))
    }

    function WriteAll(items: seq<Item>): Buffer
      requires AllWritable(items)
      decreases |items|
    {
      if items == [] then this else Write(items[0]).WriteAll(items[1..])
    }
  }

  lemma {:induction false} ClaimAllRestarts(capacity: nat, offset: nat, a: nat, b: nat, lengths: seq<nat>)
    ensures Growth(capacity, offset, a).ClaimAll(lengths).capacity
         == Growth(capacity, offset, b).ClaimAll(lengths).capacity
    decreases |lengths|
  {
    if lengths != [] {
      var g, h := Growth(capacity, offset, a).Claim(lengths[0]), Growth(capacity, offset, b).Claim(lengths[0]);
      ClaimAllRestarts(g.capacity, g.offset, g.abandoned, h.abandoned, lengths[1..]);
    }
  }

  lemma {:induction false} ClaimAllConcat(g: Growth, a: seq<nat>, b: seq<nat>)
    ensures g.ClaimAll(a + b) == g.ClaimAll(a).ClaimAll(b)
    ensures g.ClaimAll(a).offset == g.offset + TotalClaim(a)
    decreases |a|
  {
    if a == [] {
      assert a + b == b;
    } else {
      ClaimAllConcat(g.Claim(a[0]), a[1..], b);
      assert (a + b)[1..] == a[1..] + b;
    }
  }

  lemma AppendTwice(s: Buffer, block: seq<byte>, claims: seq<nat>, block': seq<byte>, claims': seq<nat>)
    requires |block| == TotalClaim(claims)
    ensures s.Append(block, claims).Append(block', claims') == s.Append(block + block', claims + claims')
  {
    hide Growth.ClaimAll;
    ClaimAllConcat(s.Growing(), claims, claims');
    var mid := s.Growing().ClaimAll(claims);
    ClaimAllRestarts(mid.capacity, mid.offset, mid.abandoned, 0, claims');
    Regroup(s.written, block, block', []);
  }

  /** Main result on writing: a run of writes leaves the custom header fields, puts the
      encoding behind the old payload whatever the capacities were, and grows the buffer
      as one run of claims. */
  lemma {:induction false} WriteAllAppends(s: Buffer, items: seq<Item>)
    requires AllWritable(items)
    ensures s.WriteAll(items) == s.Append(EncodeAll(items), ClaimsOf(items))
    decreases |items|
  {
    hide Encode, Claims, Growth.ClaimAll;
    if items == [] {
      assert s.written + [] == s.written;
      NoClaims(s.Growing());
    } else {
      WriteAllAppends(s.Write(items[0]), items[1..]);
      EncodedLength(items[0]);
      AppendTwice(s, Encode(items[0]), Claims(items[0]), EncodeAll(items[1..]), ClaimsOf(items[1..]));
    }
  }

  /** Writing to an empty pickle and reading the same kinds returns the written values. */
  lemma WrittenIsReadBack(s: Buffer, items: seq<Item>)
    requires AllWritable(items) && s.written == []
    ensures ReadAll(Mapped(s.WriteAll(items).written), 0, KindsOf(items)) == (Some(items), |s.WriteAll(items).written|)
  {
    WriteAllAppends(s, items);
    assert [] + EncodeAll(items) == EncodeAll(items);
    hide Encode, ReadItem, Claims, KindOf, Growth.ClaimAll;
    RoundTripFresh(items);
  }

  lemma OneClaim(s: Buffer, block: seq<byte>, length: nat)
    ensures s.Append(block, [length])
         == s.(written := s.written + block,
               capacity := CapacityAfterWrite(s.capacity, |s.written| + AlignUnit(length)))
  {
    NoClaims(s.Growing().Claim(length));
    assert [length][1..] == [];
  }

  lemma NoClaims(g: Growth)
    ensures g.ClaimAll([]) == g
  {
  }

  // ---------------------------------------------------------------- framing

  /** A serialized pickle: a header whose first four bytes hold the payload size. */
  predicate IsImage(headerSize: nat, image: seq<byte>) {
    && 4 <= headerSize <= |image|
    && headerSize % UNIT == 0
    && FromLE(image[..4]) == |image| - headerSize
  }

  /** `PeekNext`: the size of the message at the front of `bytes`. */
  function PeekNext(headerSize: nat, bytes: seq<byte>): Option<nat>
    requires 4 <= headerSize <= PAYLOAD_UNIT && headerSize % UNIT == 0
  {
    if |bytes| < 4 then None
    else if |bytes| < headerSize then None
    else
      var payload := FromLE(bytes[..4]);
      Some(if payload > TWO_64 - 1 - headerSize then TWO_64 - 1 else headerSize + payload)
  }

  /** `FindNext`: the offset of the following message, if the first one is complete. */
  function FindNext(headerSize: nat, bytes: seq<byte>): (next: Option<nat>)
    requires 4 <= headerSize <= PAYLOAD_UNIT && headerSize % UNIT == 0
    ensures next.Some? ==> headerSize <= next.value <= |bytes|
  {
    match PeekNext(headerSize, bytes)
    case None => None
    case Some(size) => if size > |bytes| then None else Some(size)
  }

  /** Repeated `FindNext`: the complete messages and the unconsumed tail. */
  function Frames(headerSize: nat, bytes: seq<byte>): (r: (seq<seq<byte>>, seq<byte>))
    requires 4 <= headerSize <= PAYLOAD_UNIT && headerSize % UNIT == 0
    decreases |bytes|
  {
    match FindNext(headerSize, bytes)
    case None => ([], bytes)
    case Some(next) =>
      var (rest, tail) := Frames(headerSize, bytes[next..]);
      ([bytes[..next]] + rest, tail)
  }

  function Concat(parts: seq<seq<byte>>): seq<byte> {
    if parts == [] then [] else parts[0] + Concat(parts[1..])
  }

  lemma FindNextAtImage(headerSize: nat, image: seq<byte>, rest: seq<byte>)
    requires headerSize <= PAYLOAD_UNIT && IsImage(headerSize, image)
    ensures FindNext(headerSize, image + rest) == Some(|image|)
  {
    var bytes := image + rest;
    Pow256Values();
    FromLEBound(image[..4]);
    assert bytes[..4] == image[..4];
  }

  lemma FindNextOnPrefix(headerSize: nat, image: seq<byte>, k: nat)
    requires headerSize <= PAYLOAD_UNIT && IsImage(headerSize, image) && k < |image|
    ensures FindNext(headerSize, image[..k]) == None
  {
    if k >= headerSize {
      assert image[..k][..4] == image[..4];
      Pow256Values();
      FromLEBound(image[..4]);
    }
  }

  lemma FramesStep(headerSize: nat, image: seq<byte>, rest: seq<byte>)
    requires headerSize <= PAYLOAD_UNIT && IsImage(headerSize, image)
    ensures Frames(headerSize, image + rest)
         == ([image] + Frames(headerSize, rest).0, Frames(headerSize, rest).1)
  {
    FindNextAtImage(headerSize, image, rest);
    assert (image + rest)[|image|..] == rest && (image + rest)[..|image|] == image;
  }

  /** Main result on framing: splitting a stream of messages, followed by an incomplete
      one or nothing, gives back the messages and the incomplete rest. */
  lemma {:induction false} FramesRecoverImages(headerSize: nat, images: seq<seq<byte>>, last: seq<byte>, k: nat)
    requires headerSize <= PAYLOAD_UNIT && IsImage(headerSize, last) && k < |last|
    requires forall i :: 0 <= i < |images| ==> IsImage(headerSize, images[i])
    ensures Frames(headerSize, Concat(images) + last[..k]) == (images, last[..k])
    decreases |images|
  {
    if images == [] {
      FindNextOnPrefix(headerSize, last, k);
      assert Concat(images) + last[..k] == last[..k];
      assert Frames(headerSize, last[..k]) == ([], last[..k]);
    } else {
      FramesRecoverImages(headerSize, images[1..], last, k);
      FramesStep(headerSize, images[0], Concat(images[1..]) + last[..k]);
      Regroup(images[0], Concat(images[1..]), last[..k], []);
      assert [images[0]] + images[1..] == images;
    }
  }

  // ------------------------------------------------- adopting foreign bytes

  /** `Pickle(const char*, int)`: the header size inferred from the declared payload,
      computed in 32-bit unsigned arithmetic; 0 means the bytes are rejected. */
  function AdoptedHeaderSize(data: seq<byte>, length: int32): nat
    requires length <= |data|
  {
    if length < 4 then 0 else HeaderSizeFor(FromLE(data[..4]), length)
  }

  /** Subtraction of 32-bit unsigned words. */
  function Sub32(a: int, b: int): nat {
    (a - b) % TWO_32
  }

  function HeaderSizeFor(declared: nat, length: int32): nat {
    var size := Sub32(length, declared);
    if size > length then 0
    else if size != AlignUnit(size) then 0
    else size
  }

  /** Main result on hostile bytes: accepted exactly when the declared payload fits and
      leaves a non-empty, 4-aligned header; then header and payload fill the input. */
  lemma AdoptedExactly(data: seq<byte>, length: int32)
    requires length <= |data|
    ensures var size := AdoptedHeaderSize(data, length);
            && (size != 0 <==> length >= 4
                               && FromLE(data[..4]) < length
                               && (length - FromLE(data[..4])) % UNIT == 0)
            && (size != 0 ==> 4 <= size && size + FromLE(data[..4]) == length)
  {
    if length >= 4 {
      Pow256Values();
      FromLEBound(data[..4]);
      WrappedHeaderSize(length, FromLE(data[..4]));
    }
  }

  lemma WrappedHeaderSize(length: int32, declared: nat)
    requires 4 <= length && declared < TWO_32
    ensures var size := Sub32(length, declared);
            && (size <= length <==> declared <= length)
            && (declared <= length ==> size == length - declared)
            && (size == AlignUnit(size) <==> size % UNIT == 0)
  {
    var size := Sub32(length, declared);
    assert size == if declared <= length then length - declared else length - declared + TWO_32;
  }

  /** A message cut out of a stream is adopted with its own header size. */
  lemma ImageIsAdopted(headerSize: nat, image: seq<byte>)
    requires IsImage(headerSize, image) && |image| < 0x8000_0000
    ensures AdoptedHeaderSize(image, |image|) == headerSize
  {
    AdoptedExactly(image, |image|);
  }

  // ------------------------------------------------------ the bytes themselves

  /** The size of the message at the front is known as soon as its header is there. */
  lemma PeekNextAtHeader(headerSize: nat, bytes: seq<byte>)
    requires 4 <= headerSize <= PAYLOAD_UNIT && headerSize % UNIT == 0
    ensures |bytes| >= headerSize ==> PeekNext(headerSize, bytes) == Some(headerSize + FromLE(bytes[..4]))
    ensures |bytes| < headerSize ==> PeekNext(headerSize, bytes) == None
  {
    if |bytes| >= headerSize {
      Pow256Values();
      FromLEBound(bytes[..4]);
    }
  }

  /** The size field, least significant byte first. */
  lemma SizeField(b: seq<byte>)
    requires |b| == 4
    ensures FromLE(b) == b[0] as int + 0x100 * b[1] as int + 0x1_0000 * b[2] as int + 0x100_0000 * b[3] as int
  {
    assert b[1..][1..] == b[2..] && b[2..][1..] == b[3..] && b[3..][1..] == [];
    assert FromLE(b[3..]) == b[3];
    assert FromLE(b[2..]) == b[2] + 256 * FromLE(b[3..]);
    assert FromLE(b[1..]) == b[1] + 256 * FromLE(b[2..]);
  }

  /** Byte `i` of an integer's image: bits `8 * i` and on of its two's complement. */
  lemma PodBytes(v: int, width: nat, i: nat)
    requires -(Pow256(width) as int) <= 2 * v && v < Pow256(width) && i < width
    ensures PodLE(v, width)[i] == (if v < 0 then v + Pow256(width) else v) / Pow256(i) % 256
  {
    ToLEAt(if v < 0 then v + Pow256(width) else v, width, i);
  }

  /** A padded block is the block and then zeros, up to a multiple of four and no further. */
  lemma PadLayout(s: seq<byte>)
    ensures |Pad(s)| % 4 == 0 && |s| <= |Pad(s)| < |s| + 4 && Pad(s)[..|s|] == s
    ensures forall i :: |s| <= i < |Pad(s)| ==> Pad(s)[i] == 0
  {
    var z := Zeros(AlignUnit(|s|) - |s|);
    forall i | |s| <= i < |Pad(s)|
      ensures Pad(s)[i] == z[i - |s|]
    {
    }
  }

  /** Two- and four-byte values take one unit, eight-byte values two, low byte first and zeros
      behind; a bool is a four-byte number. */
  lemma FixedLayout(item: Item)
    requires !item.StringItem? && !item.DataItem? && !item.BytesItem?
    ensures Pow256(2) == 0x1_0000 && Pow256(4) == TWO_32 && Pow256(8) == TWO_64
    ensures match item
            case BoolItem(b) => Encode(item) == [if b then 1 else 0, 0, 0, 0]
            case Int16Item(v) => Encode(item) == PodLE(v, 2) + [0, 0]
            case UInt16Item(v) => Encode(item) == PodLE(v, 2) + [0, 0]
            case Int32Item(v) => Encode(item) == PodLE(v, 4)
            case UInt32Item(v) => Encode(item) == PodLE(v, 4)
            case Int64Item(v) => Encode(item) == PodLE(v, 8)
            case UInt64Item(v) => Encode(item) == PodLE(v, 8)
            case _ => true
  {
    hide ToLE, Pad, AlignUnit, AlignUp, Zeros;
    Pow256Values();
    match item
    case BoolItem(b) =>
      PadWhole(ToLE(if b then 1 else 0, 4));
      SmallLE(if b then 1 else 0);
    case Int16Item(v) => PadHalf(PodLE(v, 2));
    case UInt16Item(v) => PadHalf(PodLE(v, 2));
    case Int32Item(v) => PadWhole(PodLE(v, 4));
    case UInt32Item(v) => PadWhole(PodLE(v, 4));
    case Int64Item(v) => PadWhole(PodLE(v, 8));
    case UInt64Item(v) => PadWhole(PodLE(v, 8));
  }

  /** Strings and data put their length in front; raw bytes put nothing. */
  lemma StringLayout(s: seq<byte>)
    requires |s| < 0x8000_0000
    ensures Pow256(4) == TWO_32 && Encode(StringItem(s)) == PodLE(|s|, 4) + Pad(s)
  {
    hide ToLE, Pad, PodLE, AlignUnit, AlignUp, Zeros;
    LengthWhole(|s|);
  }

  lemma DataLayout(s: seq<byte>)
    requires |s| < 0x8000_0000
    ensures Encode(DataItem(s)) == Encode(StringItem(s)) && Encode(BytesItem(s)) == Pad(s)
  {
    hide ToLE, Pad, PodLE, AlignUnit, AlignUp, Zeros;
  }

  lemma LengthWhole(n: nat)
    requires n < 0x8000_0000
    ensures Pow256(4) == TWO_32 && Pad(PodLE(n, 4)) == PodLE(n, 4)
  {
    Pow256Values();
    PadWhole(PodLE(n, 4));
  }

  lemma PadWhole(s: seq<byte>)
    requires |s| % 4 == 0
    ensures Pad(s) == s
  {
    AlignUpFixed(|s|);
    assert Zeros(0) == [];
  }

  lemma PadHalf(s: seq<byte>)
    requires |s| == 2
    ensures Pad(s) == s + [0, 0]
  {
    assert Zeros(2) == [0, 0];
  }

  lemma SmallLE(v: nat)
    requires v < 256
    ensures ToLE(v, 4) == [v, 0, 0, 0]
  {
    assert ToLE(0, 1) == [0];
    assert ToLE(0, 2) == [0, 0];
    assert ToLE(0, 3) == [0, 0, 0];
  }

  /** The growth policy: doubled up to a page, then whole pages less a unit, unless even more is
      asked for. */
  lemma GrowthPolicy(capacity: nat, newSize: nat)
    requires capacity % PAYLOAD_UNIT == 0 && newSize > capacity
    ensures capacity * 2 <= HEAP_ALIGN && newSize <= capacity * 2 ==> GrownCapacity(capacity, newSize) == capacity * 2
    ensures capacity * 2 > HEAP_ALIGN && newSize <= AlignUp(capacity * 2, HEAP_ALIGN) - PAYLOAD_UNIT ==>
              GrownCapacity(capacity, newSize) == AlignUp(capacity * 2, HEAP_ALIGN) - PAYLOAD_UNIT
    ensures newSize > AlignUp(capacity * 2, HEAP_ALIGN) ==> GrownCapacity(capacity, newSize) == AlignUp(newSize, PAYLOAD_UNIT)
  {
    hide AlignUp;
    UnitFixed(capacity * 2);
    if capacity * 2 > HEAP_ALIGN {
      UnitFixed(AlignUp(capacity * 2, HEAP_ALIGN) - PAYLOAD_UNIT);
    }
  }

  lemma UnitFixed(n: nat)
    requires n % PAYLOAD_UNIT == 0
    ensures AlignUp(n, PAYLOAD_UNIT) == n
  {
    hide AlignUp;
  }
}
