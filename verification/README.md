# Verification of the base and crypto cores

A Dafny model of the stateful algorithms of the repository's `base` and `crypto` directories,
with machine-checked proofs of what they promise. `dafny verify dfyconfig.toml` checks it.

| files | what they model |
|---|---|
| `Bytes`, `Bits` | byte images of integers, alignment, logarithms |
| `PickleFormat`, `Pickle`, `PickleRuns` | the binary message format, the growing buffer, reader and size predictor over it, and whole runs of them |
| `BlockModes`, `CipherContext`, `Streams`, `SymmetricUtil` | ECB and CBC with padding, the cipher context, and the streamed and one-shot calls |
| `CounterMode` | the 128-bit counter, masks and counter mode |
| `RefCounted` | intrusive reference counting with pointers that are members of counted objects |
| `Once` | one-time initialization by any number of threads |
| `PathAlgebra`, `PathLaws`, `PathExtensions`, `FilePath` | paths as strings, their parents, components, joins and extensions |
| `FileTree`, `FileEnumerator`, `FileUtil` | a file system as a finite tree; enumeration, deletion, sizing, creation |
| `Numerals`, `Numbers`, `StrayZeroes` | integer texts, their parsers, and stripping of leading zeroes |
| `HexCodec` | the hexadecimal codec over caller buffers |
| `StringPiece`, `StringUtil` | searching by sets of bytes, and trimming |

Code that updates state is modelled by classes and methods with the source's fields and loops;
each method is proved to compute a function or to satisfy a property, and the promises are
lemmas about those.

Assumptions: a little-endian host with 64-bit `size_t`; checked assertions of the source are
preconditions (string and data lengths below 2^31, pickle payloads below 2^32, sixteen-byte
initialization vectors, non-absolute components), except that the read inside the assertion at
`crypto/symmetric_util.cc:99` is executed; atomic operations are sequentially consistent; a
block cipher is any function on 16-byte blocks with an inverse; the OpenSSL context is the class
`CipherContext`, written from its documented behaviour (a partial block is kept, and a
decrypting context holds back the last block).

## What does not hold

Where a promise is false of the code, the model keeps the code and proves exactly when it holds.

- Streamed encryption equals one-shot encryption only from 16 bytes up; shorter input is
  accepted and produces nothing (`StreamedEncryptionIsOneShotIff`).
- Streamed decryption ignores an incomplete last block where one-shot decryption fails
  (`StreamedDecryptionIsOneShotIff`, and by length alone `StreamedDecryptionByLength`).
- A write appends to the payload exactly if the write offset stands at its end
  (`WriteBytesCommon` and the typed writers). In a copy of an adopted pickle it stands at the
  front, and the first item written replaces the payload (`WriteToAdoptedCopy`).
- Appending a relative path to a parent such as "./" loses a component (`AppendRelativeIff`;
  "././a" below "./" in `DotSlashLosesComponent`).
- Joining relative components to an empty path loses leading "."s (`AppendAllToEmpty`,
  `LeadingDotsOnly`).
- Removing and re-adding an extension loses trailing separators (`RemoveThenAddExtensionIff`,
  `SlashIsLost`).
- Stripping stray leading zeroes can turn a malformed number into a valid one and the other way
  round (`StrippingIsHarmlessIff`, `StrippingCanChange`).
- Hex encoding of nothing with a delimiter computes a needed size of 0 and writes one byte
  (`EncodeWithinNeededIff`); it still stays inside the buffer, which is not empty then.
- Hex decoding accepts the letters G to Z as digits 16 to 35 (`DecodesIff`, `CombineIsShiftOr`).
- Searching for the first byte outside an empty set answers 0 whatever the start
  (`EmptySetFirstIff`).

## Model

| member | source | states |
|---|---|---|
| Bits.AlignSizeIsAlignUp | base/bits.h:37-40 | unless the sum before the mask wraps, `Align` is rounding up to the least multiple |
| Bits.AlignUp | base/bits.h:37-40 | the result is a multiple of the alignment and the least one not below the size |
| Bits.Mask4 | base/bits.h:37-40 | on 64-bit words the mask form and the remainder form agree for items, aligned to 4 |
| Bits.Mask64 | base/bits.h:37-40 | the same for payload capacities, aligned to 64 |
| Bits.Mask4096 | base/bits.h:37-40 | the same for heap blocks, aligned to 4096 |
| Bits.AlignUpAdds | base/bits.h:37-40 | aligning commutes with adding an aligned base |
| Bits.Log2Floor | base/bits.h:12-27 | the binary search for the highest bit brackets `n` between two powers of two, and gives -1 for 0 |
| Bits.Log2Ceiling | base/bits.h:29-35 | the least exponent whose power of two reaches `n`, -1 for 0 |
| PickleFormat.RoundTrip | base/pickle.cc:23-64 | reading the written kinds anywhere inside a payload returns the written values in order and stops exactly behind them, for every sequence of items |
| PickleFormat.RoundTripFresh | base/pickle.cc:23-163 | a fresh reader returns all values of any sequence of writes and ends at the end of the payload |
| PickleFormat.EncodeInjective | base/pickle.cc:270-284 | two sequences of the same kinds with the same payload are the same values |
| PickleFormat.PodRoundTrip | base/pickle.cc:23-33 | two, four and eight byte integers survive their little-endian image, signed and unsigned |
| PickleFormat.ReadBoolItem | base/pickle.cc:76-78 | a bool, written as four bytes and read as one, comes back |
| PickleFormat.ReadsStayInside | base/pickle.cc:35-64 | on any bytes whatever, a read hands out exactly the bytes under the cursor if that many are left and fails otherwise, and the cursor never leaves the payload |
| PickleFormat.FailureExhausts | base/pickle.cc:45-64 | a failed read of any kind leaves the cursor at the end |
| PickleFormat.FailureIsForever | base/pickle.cc:45-64 | after a failed read each of any sequence of later reads, but a raw read of no bytes, fails, and the cursor stays at the end |
| PickleFormat.GrowthFactor | base/pickle.cc:376-382 | a growth yields a multiple of 64, at least the new size and below twice it plus 4096, and at least 1.5 times the old capacity |
| PickleFormat.GrowthInvariant | base/pickle.cc:366-389 | over any run of writes: capacity a multiple of 64 that holds the payload, wasted space bounded, and all abandoned buffers together at most twice the live one |
| PickleFormat.ClaimsMeasurePayload | base/pickle.cc:169-187 | the aligned lengths claimed one by one add up to the length of the encoding |
| PickleFormat.ReserveSuffices | base/pickle.cc:286-296 | after reserving the predicted size none of the predicted writes reallocates |
| PickleFormat.WriteAllAppends | base/pickle.cc:366-397 | a run of writes puts the encoding of all items behind the old payload, whatever the capacities were, and grows the buffer as one run of claims |
| PickleFormat.WrittenIsReadBack | base/pickle.cc:391-397 | what a run of writes leaves in an empty pickle is read back as the written values |
| PickleFormat.FindNextAtImage | base/pickle.cc:320-332 | the message at the front of a stream ends where the next one is found |
| PickleFormat.FindNextOnPrefix | base/pickle.cc:320-356 | no strict prefix of a message is taken for a message |
| PickleFormat.FramesRecoverImages | base/pickle.cc:320-356 | repeated framing of any concatenation of messages, followed by an incomplete one or nothing, gives back exactly the messages and the incomplete rest |
| PickleFormat.AdoptedExactly | base/pickle.cc:217-233 | with the 32-bit subtraction, foreign bytes are accepted if and only if the declared payload leaves a header that is non-empty and a multiple of four; then header and payload fill the input |
| PickleFormat.ImageIsAdopted | base/pickle.cc:217-233 | a message cut out of a stream is adopted with its own header size |
| PickleFormat.PeekNextAtHeader | base/pickle.cc:334-356 | the size of a message is known as soon as its header is there, and not before |
| PickleFormat.SizeField | base/pickle.cc:346-354 | the size is the header field read least significant byte first |
| PickleFormat.PodBytes | base/pickle.h:203-206 | byte i of an integer is bits 8i and on of its two's complement |
| PickleFormat.PadLayout | base/pickle.cc:384-385 | a block is followed by zeros up to a multiple of four and no further |
| PickleFormat.FixedLayout | base/pickle.h:114-140 | which bytes each fixed-size value takes |
| PickleFormat.StringLayout | base/pickle.cc:270-275 | a string is its length in four bytes and its padded bytes |
| PickleFormat.DataLayout | base/pickle.cc:277-284 | data is laid out as a string, raw bytes without a length |
| PickleFormat.GrowthPolicy | base/pickle.cc:376-382 | doubled up to a page, then whole pages less a unit, unless even more is asked for |
| Pickles.Pickle.constructor | base/pickle.cc:195-203 | an empty writable pickle with the plain header |
| Pickles.Pickle.WithHeader | base/pickle.cc:206-214 | an empty writable pickle whose header is rounded up to four |
| Pickles.Pickle.FromBytes | base/pickle.cc:217-233 | the bytes are viewed in place with the inferred header size, or not at all |
| Pickles.Pickle.InferHeaderSize | base/pickle.cc:217-233 | the branches of the constructor compute the inferred header size |
| Pickles.Pickle.Copy | base/pickle.cc:235-242 | a fresh buffer with the same header, payload, write offset, and the least capacity |
| Pickles.Pickle.Assign | base/pickle.cc:249-268 | the same for assignment, from any state; self-assignment changes nothing |
| Pickles.Pickle.ImageIsFramed | base/pickle.h:105-170 | header and payload of any pickle form one message of the stream format |
| Pickles.Pickle.InSyncView | base/pickle.h:159-173 | in step with its write offset, a pickle shows readers exactly what was written |
| Pickles.Pickle.Resize | base/pickle.cc:298-304 | a new buffer of the header plus a multiple of 64 that keeps what fits |
| Pickles.Pickle.Reserve | base/pickle.cc:286-296 | room for the bytes asked for; payload, header and offset unchanged |
| Pickles.Pickle.GrowFor | base/pickle.cc:376-382 | the new capacity is that of the growth policy and the kept bytes survive |
| Pickles.Pickle.ClaimUninitialized | base/pickle.cc:366-389 | the claimed place, its zeroed padding, the stored size, and everything before it unchanged |
| Pickles.Pickle.AppendBytes | base/pickle.cc:391-397 | puts the padded data behind the write offset and changes nothing before it |
| Pickles.Pickle.WriteBytesCommon | base/pickle.cc:391-397 | readers see the data behind the whole old payload if and only if the write offset stood at its end; else what was behind the offset is gone |
| Pickles.Pickle.ExtendsIff | base/pickle.cc:384-386 | a block written behind the kept front is appended to the payload exactly if the front was all of it |
| Pickles.Pickle.WriteInt16 | base/pickle.h:117-119 | the abstract buffer after the write is the old one with this item written: kept bytes, header fields and capacity; readers see the old payload and the item if and only if the pickle was in sync |
| Pickles.Pickle.WriteUInt16 | base/pickle.h:136 | the abstract buffer after the write is the old one with this item written: kept bytes, header fields and capacity; readers see the old payload and the item if and only if the pickle was in sync |
| Pickles.Pickle.WriteInt32 | base/pickle.h:125-127 | the abstract buffer after the write is the old one with this item written: kept bytes, header fields and capacity; readers see the old payload and the item if and only if the pickle was in sync |
| Pickles.Pickle.WriteUInt32 | base/pickle.h:137 | the abstract buffer after the write is the old one with this item written: kept bytes, header fields and capacity; readers see the old payload and the item if and only if the pickle was in sync |
| Pickles.Pickle.WriteInt64 | base/pickle.h:133-135 | the abstract buffer after the write is the old one with this item written: kept bytes, header fields and capacity; readers see the old payload and the item if and only if the pickle was in sync |
| Pickles.Pickle.WriteUInt64 | base/pickle.h:138 | the abstract buffer after the write is the old one with this item written: kept bytes, header fields and capacity; readers see the old payload and the item if and only if the pickle was in sync |
| Pickles.Pickle.WriteBool | base/pickle.h:114-116 | the abstract buffer after the write is the old one with this item written: kept bytes, header fields and capacity; readers see the old payload and the item if and only if the pickle was in sync |
| Pickles.Pickle.WriteString | base/pickle.cc:270-275 | likewise for a length and a padded block |
| Pickles.Pickle.WriteData | base/pickle.cc:277-279 | likewise, refusing a negative length without a trace |
| Pickles.Pickle.WriteBytes | base/pickle.cc:281-284 | likewise for a raw padded block |
| Pickles.Pickle.PeekNextIn | base/pickle.cc:334-356 | the size of the message at the front of a byte range, if its header is there |
| Pickles.Pickle.FindNextIn | base/pickle.cc:320-332 | the position of the message after it, if the first one is complete |
| Pickles.PickleIterator.constructor | base/pickle.cc:17-21 | a cursor at the start of the payload |
| Pickles.PickleIterator.Advance | base/pickle.cc:35-42 | moves past a padded item and stops at the end |
| Pickles.PickleIterator.GetReadPointerAndAdvance | base/pickle.cc:55-64 | the bytes and the new cursor, or none for a negative or too large length |
| Pickles.PickleIterator.ReadBool | base/pickle.cc:76-78 | value and cursor are those of the read in the format that `RoundTrip` is about |
| Pickles.PickleIterator.ReadInt16 | base/pickle.cc:80-82 | value and cursor are those of the read in the format that `RoundTrip` is about |
| Pickles.PickleIterator.ReadInt32 | base/pickle.cc:84-86 | value and cursor are those of the read in the format that `RoundTrip` is about |
| Pickles.PickleIterator.ReadInt64 | base/pickle.cc:88-90 | value and cursor are those of the read in the format that `RoundTrip` is about |
| Pickles.PickleIterator.ReadUInt16 | base/pickle.cc:92-94 | value and cursor are those of the read in the format that `RoundTrip` is about |
| Pickles.PickleIterator.ReadUInt32 | base/pickle.cc:96-98 | value and cursor are those of the read in the format that `RoundTrip` is about |
| Pickles.PickleIterator.ReadUInt64 | base/pickle.cc:100-102 | value and cursor are those of the read in the format that `RoundTrip` is about |
| Pickles.PickleIterator.ReadString | base/pickle.cc:122-133 | value and cursor are those of the read in the format that `RoundTrip` is about |
| Pickles.PickleIterator.ReadData | base/pickle.cc:147-155 | value and cursor are those of the read in the format that `RoundTrip` is about |
| Pickles.PickleIterator.ReadBytes | base/pickle.cc:157-163 | value and cursor are those of the read in the format that `RoundTrip` is about |
| Pickles.PickleIterator.SkipBytes | base/pickle.h:43-45 | success and cursor of reading that many bytes |
| Pickles.PickleSizer.AddBytes | base/pickle.cc:180-182 | the padded length is added, in 64-bit arithmetic |
| Pickles.PickleSizer.AddFixed | base/pickle.h:71-87 | the encoded length of the fixed-size item is added |
| Pickles.PickleSizer.AddString | base/pickle.cc:169-172 | the encoded length of the string is added |
| Pickles.PickleSizer.AddData | base/pickle.cc:174-178 | the encoded length of the block is added |
| PickleRuns.WriteItems | base/pickle.cc:270-284 | any list of items through the typed writers writes the abstract buffer with all of them |
| PickleRuns.ReadKinds | base/pickle.cc:76-163 | any list of kinds through the typed readers reads what the format says, until one fails |
| PickleRuns.WriteAndReadBack | base/pickle.cc:23-397 | any list of items written into a new pickle is read back, up to the end, from it, from a copy, and from any pickle it is assigned to |
| PickleRuns.WriteToAdoptedCopy | base/pickle.cc:217-242 | the first item written to a copy of an adopted pickle replaces the whole payload, because the offset 0 is copied |
| PickleRuns.SmallMessageIsAdopted | base/pickle.cc:217-233 | every message of four payload bytes is adopted, so such copies exist |
| BlockModes.DecEnc | crypto/symmetric_util.cc:79-123 | decryption of whole blocks undoes encryption, in ECB and CBC (NIST SP 800-38A sections 6.1 and 6.2) |
| BlockModes.EncBlockEquation | crypto/symmetric_util.cc:79-123 | each ciphertext block satisfies the block equation of the standard |
| BlockModes.EncConcat | crypto/symmetric_util.cc:84-121 | encrypting in two pieces with the chain carried over is encrypting the whole |
| BlockModes.DecConcat | crypto/symmetric_util.cc:84-121 | the same for decryption |
| BlockModes.DecBlockEquation | crypto/symmetric_util.cc:79-123 | each plaintext block satisfies the block equation of the standard, whatever the ciphertext |
| BlockModes.EncryptIs | crypto/symmetric_crypt.cc:54-112 | whole-message encryption is that of a padded text by the equations of ECB or CBC |
| BlockModes.DecryptIs | crypto/symmetric_crypt.cc:54-112 | decryption succeeds exactly if the ciphertext decrypts by those equations to a padded text, and gives the text |
| BlockModes.Pkcs7Pads | crypto/symmetric_util.cc:115-119 | one to sixteen bytes that say how many they are fill the last block |
| BlockModes.UnpadsExactly | crypto/symmetric_util.cc:115-119 | unpadding succeeds exactly on padded texts |
| BlockModes.XorByteIsXor | crypto/symmetric_crypt.cc:267-269 | masking a byte is the exclusive or of its eight bits |
| BlockModes.XorAt | crypto/symmetric_crypt.cc:267-269 | masking works byte by byte |
| BlockModes.UnpadPkcs7 | crypto/symmetric_util.cc:115-119 | padding is undone, for every length (section 6.3 of RFC 5652) |
| BlockModes.UnpadLastBlock | crypto/symmetric_util.cc:115-119 | unpadding depends on the last block alone, which is why one block is held back |
| BlockModes.DecryptEncrypt | crypto/symmetric_crypt.cc:54-112 | whole-message decryption returns every encrypted text |
| BlockModes.XorTwice | crypto/symmetric_crypt.cc:259-270 | masking with the same bytes again undoes it |
| CipherContexts.CipherContext.Update | crypto/symmetric_util.cc:105-112 | output so far and buffered input stay those of the whole-message cipher over the input so far |
| CipherContexts.CipherContext.Final | crypto/symmetric_util.cc:114-119 | all output together is the whole-message result, or the padding is refused |
| Streams.MemoryInputStream.Available | crypto/memory_input_stream.cc:29-31 | the number of bytes not read yet |
| Streams.MemoryInputStream.ReadAt | crypto/memory_input_stream.cc:55-70 | copies what is there, at most what is asked for, to its place, and consumes it |
| Streams.MemoryInputStream.Read | crypto/memory_input_stream.cc:50-53 | fills the vector as far as there are bytes |
| Streams.MemoryInputStream.Skip | crypto/memory_input_stream.cc:77-91 | moves both ways and stops at both ends |
| Streams.MemoryInputStream.Reset | crypto/memory_input_stream.cc:72-75 | everything can be read again |
| SymmetricUtil.Crypt | crypto/symmetric_crypt.cc:54-112 | one call writes the ECB or CBC encryption of the padded input under the given IV by the standards' equations, or decrypts exactly what such equations allow |
| SymmetricUtil.CryptInternal | crypto/symmetric_util.cc:54-124 | the block-splitting loop, whatever the length, writes what the streamed specification says and consumes what it says |
| SymmetricUtil.EcbEncrypt | crypto/symmetric_util.cc:126-128 | from one block up, writes exactly the ECB encryption of the padded input, block by block as in the standard; below, nothing |
| SymmetricUtil.CbcEncrypt | crypto/symmetric_util.cc:134-137 | the same for CBC: the first block masked with the given IV, each other with the ciphertext block before |
| SymmetricUtil.EcbDecrypt | crypto/symmetric_util.cc:130-132 | on the whole blocks of the input: succeeds exactly if they decrypt to a padded text, and then writes the text |
| SymmetricUtil.CbcDecrypt | crypto/symmetric_util.cc:139-142 | the same for CBC under the given IV |
| SymmetricUtil.StreamedEncryptionIsOneShotIff | crypto/symmetric_util.cc:79-123 | streamed and one-shot encryption agree if and only if there are at least 16 bytes |
| SymmetricUtil.StreamedDecryptionIsOneShotIff | crypto/symmetric_util.cc:79-123 | streamed and one-shot decryption deliver the same if and only if the ciphertext has whole blocks, or its whole blocks are refused by themselves |
| SymmetricUtil.StreamedDecryptionByLength | crypto/symmetric_util.cc:79-123 | from the length alone: on whole blocks streamed and one-shot decryption agree, and below one block they never do |
| SymmetricUtil.CryptRound | crypto/symmetric_util.cc:84-122 | one round of the loop: a block more, or the last one with the extra bytes and the end of the message |
| SymmetricUtil.StreamedRoundTripIff | crypto/symmetric_util.cc:79-123 | streamed decryption of a streamed encryption is the text if and only if it is empty or has at least 16 bytes |
| CounterMode.CarryIncrement | crypto/symmetric_crypt.cc:205-216 | the increment in two words, the carry seen by the low word getting smaller, is +1 modulo 2^128 |
| CounterMode.Counter.Increment | crypto/symmetric_crypt.cc:205-216 | the big-endian 128-bit value goes up by one and wraps |
| CounterMode.ByteSwapTwice | crypto/symmetric_crypt.cc:205-216 | swapping bytes to and from network order is an involution |
| CounterMode.CounterBlockValue | crypto/symmetric_crypt.cc:198-225 | a counter block holds its value modulo 2^128 |
| CounterMode.CounterBlocksDistinct | crypto/symmetric_crypt.cc:205-216 | counter blocks do not repeat within 2^128 steps (Appendix B.1 of NIST SP 800-38A) |
| CounterMode.GenerateCounterMask | crypto/symmetric_crypt.cc:235-257 | fills the mask with consecutive counter blocks, touches nothing behind them, and leaves the counter at start + ceil(n/16) |
| CounterMode.MaskBlock | crypto/symmetric_crypt.cc:235-257 | block i of the mask is the counter block of start + i |
| CounterMode.MaskMessage | crypto/symmetric_crypt.cc:259-270 | the exclusive or of message and mask, in place or not, and nothing written beyond the message |
| CounterMode.KeyStreamBlock | crypto/symmetric_crypt.cc:272-312 | block i of the key stream is the encryption of counter start + i |
| CounterMode.KeyStreamPeriodic | crypto/symmetric_crypt.cc:272-312 | only the counter modulo 2^128 matters |
| CounterMode.CtrBytes | crypto/symmetric_crypt.cc:272-312 | byte i of the output is byte i of the text masked with byte i mod 16 of the encrypted counter start + i/16 |
| CounterMode.CounterBlockBytes | crypto/symmetric_crypt.cc:218-221 | the bytes of a counter block are the big-endian image of the counter |
| CounterMode.BlocksCover | crypto/symmetric_crypt.cc:239-246 | as many mask blocks as the text needs, and no more |
| CounterMode.CtrTwice | crypto/symmetric_crypt.cc:272-312 | the call that encrypts decrypts |
| CounterMode.CtrChunks | crypto/symmetric_crypt.cc:272-312 | encrypting a first chunk of whole blocks and then the rest with the counter moved on is encrypting everything at once |
| CounterMode.CtrChunksStored | crypto/symmetric_crypt.cc:272-312 | the same with the counter between the chunks as it is stored, modulo 2^128 |
| CounterMode.CryptInTwo | crypto/symmetric_crypt.cc:272-312 | two calls on one object, the first with whole blocks, produce what one call over both inputs would |
| CounterMode.CtrSymmetricCrypt.SetCounter | crypto/symmetric_crypt.cc:227-233 | accepts exactly 16 bytes and else keeps the old counter |
| CounterMode.CtrSymmetricCrypt.Crypt | crypto/symmetric_crypt.cc:272-312 | the CTR encryption under the stored counter, which is left behind the last block used; fails without a counter or with a bad key length |
| CounterMode.Ctr128Encrypt | crypto/symmetric_crypt.cc:298-309 | the byte-by-byte routine computes the block specification and the next counter |
| RefCounts.RunCountsPointers | base/ref_counted.h:16-36 | after any run: counts equal the number of live pointers, no pointer targets a deleted object, nothing is deleted twice, and an object that ever had a pointer lives exactly while it has one |
| RefCounts.StepKeepsGreatestSupported | base/ref_counted.h:163-255 | an operation deletes exactly the objects outside the largest set that still supports itself, whatever the order of the cascade; cycles keep themselves alive |
| RefCounts.SurvivorsAreGreatestSupported | base/ref_counted.h:66-70 | the same for any set of references released |
| RefCounts.ReleaseStepKeepsInv | base/ref_counted.h:28-36 | one release, with its deletion and the member references it sets free, keeps every count right and makes progress |
| RefCounts.ReleaseAll | base/ref_counted.h:66-70 | cascades terminate and leave the counting invariant |
| RefCounts.ReleaseInTurn | base/ref_counted.h:66-70 | releasing depth first, as destructors do, gives the same heap |
| RefCounts.DeletedForever | base/ref_counted.h:66-70 | no run brings a deleted object back |
| RefCounts.SelfAssignment | base/ref_counted.h:215-230 | assigning a pointer to itself, or the raw pointer it holds, changes nothing even for the last reference |
| RefCounts.SelfMoveAndSwap | base/ref_counted.h:236-255 | moving or swapping a pointer with itself changes nothing |
| RefCounts.CopyThenDestroy | base/ref_counted.h:171-200 | destroying a fresh copy undoes it |
| RefCounts.NoCyclesNoLeaks | base/ref_counted.h:16-36 | without variables pointing and without cycles everything adopted has been deleted |
| RefCounts.Step | base/ref_counted.h:163-255 | every operation keeps the heap sound |
| RefCounts.Run | base/ref_counted.h:163-255 | so does every run of operations |
| RefCounts.PointerHeap.AddReference | base/ref_counted.h:25-27 | one more reference |
| RefCounts.PointerHeap.Release | base/ref_counted.h:28-36 | counts down and at zero deletes, with the whole cascade |
| RefCounts.PointerHeap.ReleaseTargets | base/ref_counted.h:195-200 | the references of destroyed members are released in turn |
| RefCounts.PointerHeap.DeleteObject | base/ref_counted.h:66-70 | destroys the members, last first, and forgets the object |
| RefCounts.PointerHeap.ConstructFrom | base/ref_counted.h:165-176 | construction and copy construction are the abstract step |
| RefCounts.PointerHeap.MoveConstructFrom | base/ref_counted.h:185-194 | move construction is the abstract step |
| RefCounts.PointerHeap.Assign | base/ref_counted.h:215-230 | assignment adds first, stores, and releases last: the abstract step, also when the cascade deletes the owner of the slot |
| RefCounts.PointerHeap.MoveAssignFrom | base/ref_counted.h:236-245 | move assignment through a temporary and a swap is the abstract step |
| RefCounts.PointerHeap.SwapWith | base/ref_counted.h:247-255 | swapping is the abstract step |
| RefCounts.PointerHeap.DestroyVariable | base/ref_counted.h:195-200 | destruction is the abstract step |
| RefCounts.AssignStores | base/ref_counted.h:215-230 | an assigned slot holds what was assigned, and every other slot that survives keeps its value |
| RefCounts.MoveAssignStores | base/ref_counted.h:236-245 | the destination of a move holds what the source held, and the source nothing unless it is the destination |
| RefCounts.SwapStores | base/ref_counted.h:247-255 | the two slots exchange their values and no other changes |
| RefCounts.ConstructStores | base/ref_counted.h:163-184 | a new variable holds what it was constructed from |
| RefCounts.MoveConstructStores | base/ref_counted.h:185-194 | a moved-to variable holds what the source held, and the source nothing |
| RefCounts.DestroyStores | base/ref_counted.h:195-200 | only the destroyed variable and the members of deleted objects go |
| RefCounts.CreateStores | base/ref_counted.h:58-74 | a new object has count 0 and members that point nowhere |
| RefCounts.StepShrinks | base/ref_counted.h:66-70 | a release takes away the members of deleted objects and no other slot |
| Once.OnceOnly | base/once.cc:15-35 | for any number of threads and any interleaving: the closure is entered at most once and by one thread at a time, and no call returns before it has finished |
| Once.NoEarlyReturn | base/once.cc:15-35 | in no run does a step take a thread out of its call, by whatever way, before the closure has finished |
| Once.LeavesWhenDone | base/once.cc:28-34 | a call is left only by a return, with the word done and the closure finished once |
| Once.StepIsLocal | base/once.cc:15-35 | a step moves one thread; a call is entered only from outside, and outside is reached only by a return |
| Once.ClosureIsBracketed | base/once.cc:22-29 | the closure starts only once the word is taken, and has finished before it is set to done |
| Once.StepKeepsInv | base/once.cc:15-35 | every atomic step keeps the protocol invariant |
| Once.RunKeepsInv | base/once.cc:15-35 | so does every schedule |
| Once.WordClimbs | base/once.h:8-12 | the word moves only up, one state at a time |
| Once.DoneIsFinal | base/once.h:20-25 | once done, the word stays done and the closure is not entered again |
| Once.WaiterReturnsNext | base/once.cc:29-34 | once the word is done, a waiter returns in its next step whatever others do before |
| Once.CallStepsProgress | base/once.cc:15-35 | a step of a call either waits or brings the call nearer to its end |
| Once.NeverStuck | base/once.cc:15-35 | while any call is under way some thread in a call is not waiting |
| Once.AllCallsCanFinish | base/once.cc:15-35 | from every reachable state all calls can be driven to their end |
| PathAlgebra.Strip | base/file_path.cc:411-424 | a non-empty prefix that ends in no separator, unless it is one or two of them |
| PathAlgebra.StripDropsSeparators | base/file_path.cc:411-424 | nothing but separators is cut off |
| PathAlgebra.StripOfSeparators | base/file_path.cc:411-424 | of separators alone two stay two, and any other number becomes one |
| PathAlgebra.TopRunCut | base/file_path.cc:204-219 | the parent of a single run behind separators is "//" after two or three of them and "/" after any other number |
| PathAlgebra.DirTakesLastRun | base/file_path.cc:200-225 | taking the parent stops only at "/", "//" and "."; otherwise it removes exactly the last run, which is the base name |
| PathAlgebra.DirFixedIff | base/file_path.cc:200-225 | exactly which paths are their own parent |
| PathAlgebra.DirIsLower | base/file_path.cc:134-141 | the measure (0 at ".", else the length) by which walking up terminates |
| PathAlgebra.RunsAreMaximal | base/file_path.cc:121-153 | the runs are exactly the maximal separator-free slices |
| PathAlgebra.RootOfDir | base/file_path.cc:200-225 | walking up an absolute path never changes its root, "/" or "//" |
| PathLaws.WalkIsByRuns | base/file_path.cc:121-153 | for every path, the components collected by walking up are its root and runs, up to a leading "." |
| PathLaws.ReferencesParentIff | base/file_path.cc:426-437 | the check is true if and only if some maximal run is ".." |
| PathLaws.BaseAndDirUndoAppend | base/file_path.cc:333-364 | base name and parent undo appending a component |
| PathLaws.AppendComponents | base/file_path.cc:333-364 | appending adds exactly one component, unless the path is "." behind its separators |
| PathLaws.AppendAllComponents | base/file_path.cc:192-197 | so does appending one after another |
| PathLaws.AppendRelativeIff | base/file_path.cc:167-198 | appending the relative path to the parent gives the components of the child if and only if the stripped parent is not "." |
| PathLaws.AppendShape | base/file_path.cc:346-364 | the join is the stripped path and the component, with a separator between them if there is none |
| PathLaws.AppendToEmpty | base/file_path.cc:348-364 | nothing is put in front of what is joined to an empty path |
| PathLaws.AppendAllRuns | base/file_path.cc:192-197 | joining components adds runs, to any path but "." and the empty one |
| PathLaws.AppendAllToEmpty | base/file_path.cc:192-197 | joining components to an empty path gives a relative path with just those runs, less leading "."s |
| PathLaws.LeadingDotsOnly | base/file_path.cc:346-348 | that is all of them if and only if the first of several is not "." |
| PathLaws.DotSlashLosesComponent | base/file_path.cc:343-351 | "././a" lies below "./", and what joining its relative path gives has lost a component |
| PathExtensions.ExtPosShifted | base/file_path.cc:46-79 | the dot found in the whole path is the dot found in its base name, double extensions included |
| PathExtensions.NoExtension | base/file_path.cc:47-54 | a name without a dot, and "." and "..", have no extension |
| PathExtensions.OrdinaryExtension | base/file_path.cc:50-63 | an ordinary extension starts at the last dot |
| PathExtensions.DoublesAre | base/file_path.cc:22 | the suffixes of double extensions, in any case |
| PathExtensions.CompressedOnly | base/file_path.cc:65-78 | a compressed extension with none before it starts at its own dot |
| PathExtensions.DoubleExtension | base/file_path.cc:65-78 | it takes the one before it along exactly if that has one to four characters |
| PathExtensions.RemoveThenAddExtensionIff | base/file_path.cc:247-265 | removing the extension and appending it again is the identity if and only if there is no trailing separator or no extension |
| FilePaths.FilePath.StripTrailingSeparatorsInternal | base/file_path.cc:411-424 | the in-place loop, with its wrapped start position and the special case of "//", computes `Strip` |
| FilePaths.FilePath.DirName | base/file_path.cc:200-225 | computes the parent, with the wrapped position arithmetic |
| FilePaths.FilePath.BaseName | base/file_path.cc:227-245 | computes the base name |
| FilePaths.FilePath.GetComponents | base/file_path.cc:121-153 | terminates on every path and returns its components |
| FilePaths.FilePath.ReferencesParent | base/file_path.cc:426-437 | true if and only if ".." is a maximal run |
| FilePaths.FilePath.AppendComponent | base/file_path.cc:333-364 | computes the join, cutting the component at its first NUL |
| FilePaths.FilePath.AppendRelativePath | base/file_path.cc:167-198 | succeeds if and only if the components are a proper prefix, and then appends the others: an empty target becomes relative with their runs, any other gains them |
| PathExtensions.SlashIsLost | base/file_path.cc:256-265 | "a.b/" comes back as "a.b" |
| FileTrees.FileSystem.ReadDirectory | base/file_enumerator.cc:124-156 | every child of the directory is listed once, with "." and "..", each with what is reported of it: the node, or what a link leads to unless links are shown; fails exactly if there is no such directory |
| FileEnumerators.ListedRemaining | base/file_enumerator.cc:81-107 | listing a directory exchanges it for the batch and the pushed directories without changing what is left to return |
| FileEnumerators.ListedReaches | base/file_enumerator.cc:87-107 | every wanted node below a listed directory is in the batch or below a pushed directory |
| FileEnumerators.UnlistedRemaining | base/file_enumerator.cc:82-83 | a directory that cannot be listed hides nothing |
| FileEnumerators.ListedSound | base/file_enumerator.cc:85-107 | the batch and the stack stay free of duplicates, in step with the tree, and the batch stays in front of the stack |
| FileEnumerators.ListedShadow | base/file_enumerator.cc:72-108 | fewer nodes lie at or below the stack each time: the enumeration terminates |
| FileEnumerators.DirectoriesFirst | base/file_enumerator.cc:69-112 | a directory is returned before its contents |
| FileEnumerators.UnlinkKeeps | base/file_enumerator.cc:69-112 | unlinking a node that was returned disturbs nothing that is still to come |
| FileEnumerators.FileEnumerator.constructor | base/file_enumerator.cc:39-48 | everything wanted below the root is to be returned |
| FileEnumerators.FileEnumerator.Next | base/file_enumerator.cc:69-112 | returns one of the nodes not yet returned, removes exactly that one, none of its ancestors is still to come, and the end is reported exactly when none is left |
| FileEnumerators.FileEnumerator.Sift | base/file_enumerator.cc:85-107 | what one listing adds to the batch and to the stack |
| FileEnumerators.FileEnumerator.ListTop | base/file_enumerator.cc:77-107 | one round of the loop keeps what is left to return and makes progress |
| FileEnumerators.Enumerate | base/file_enumerator.cc:69-112 | drained, an enumerator returns every wanted node below its path exactly once, and every directory before what lies in it |
| FileEnumerators.PushedIsDir | base/file_enumerator.cc:99-101 | only directories of the tree are pushed |
| FileEnumerators.DirectoriesBelow | base/file_enumerator.cc:103-106 | DIRECTORIES alone selects the directories |
| FileEnumerators.FilesBelowOnly | base/file_enumerator.cc:103-106 | FILES alone selects everything else |
| FileEnumerators.EntriesOf | base/file_enumerator.cc:99-106 | without descending, the entries of one directory |
| FileUtil.ComputeDirectorySize | base/file_util.cc:43-50 | the sum of the sizes of all files below the root, each counted once, links counted as what they lead to |
| FileUtil.SizesOf | base/file_util.cc:43-50 | what a file, a link and a directory weigh |
| FileUtil.SumTakes | base/file_util.cc:43-50 | the sum does not depend on the order of the enumeration |
| FileUtil.DeleteFile | base/file_util.cc:194-227 | nothing there counts as deleted, a file is unlinked, a directory goes with exactly its subtree, or only if empty; everything else is unchanged |
| FileUtil.UnlinkFiles | base/file_util.cc:207-219 | deleting while enumerating unlinks every file of the subtree and stacks every directory, deeper ones last |
| FileUtil.RemoveDirectories | base/file_util.cc:221-226 | every directory is empty when its turn comes, so that only the root itself cannot be removed |
| FileUtil.TopIsEmpty | base/file_util.cc:221-226 | the directory on top of the stack is empty |
| FileUtil.SubPaths | base/file_util.cc:285-294 | the path and all paths above it, up to the root |
| FileUtil.CreateDirectoryAndGetError | base/file_util.cc:283-311 | succeeds if and only if no file, and no link to a file or to nothing, stands on the way, then has made exactly the missing directories, and else has made nothing |
| FileUtil.CreateThenDelete | base/file_util.cc:194-311 | deleting the topmost directory that was created restores the tree |
| Numerals.DenotedIsParsed | base/numbers.cc:550-572 | a text that is a numeral of the grammar (spaces, sign, announced base, digits) is parsed as its value if that fits, else refused with the nearest limit |
| Numerals.ParsedIsDenoted | base/numbers.cc:550-572 | what is parsed successfully is such a numeral, and its value fits |
| Numerals.SplitNumeral | base/numbers.cc:426-479 | sign, base and digits of every numeral are found, with bases 0, 16 and 2 to 36 |
| Numerals.SplitReads | base/numbers.cc:426-479 | a split text can be put together again |
| Numerals.TrimFinds | base/numbers.cc:433-438 | trimming finds what stands between the spaces |
| Numerals.DigitRun | base/numbers.cc:489-496 | the digits before the first character that is none |
| Numerals.WidthsInUse | base/numbers.cc:577-595 | the four instantiated types are ones the parsers are proved for |
| Numerals.DecimalAt | base/numbers.cc:405-424 | the digits in the order of the table |
| Numerals.CapitalAt | base/numbers.cc:405-424 | the capitals behind them |
| Numerals.SmallAt | base/numbers.cc:405-424 | the small letters likewise |
| Numerals.OnlyDigits | base/numbers.cc:405-424 | no other character is a digit |
| Numerals.SpacesAre | base/ascii_ctype.h:39 | which characters are spaces |
| Numerals.ValueStep | base/numbers.cc:494-509 | positional value, most significant digit first |
| Numerals.ClampIsNearest | base/numbers.cc:500-508 | what does not fit is replaced with the nearest number that does |
| Numerals.FirstErrorDecides | base/numbers.cc:493-511 | the digits before the first character that is none decide the value left |
| Numerals.MalformedIsParsed | base/numbers.cc:550-572 | so for whole texts with spaces, sign and announced base |
| Numerals.NothingToParse | base/numbers.cc:439-449 | spaces alone, or with a sign alone, give 0 |
| Numerals.MarkAlone | base/numbers.cc:450-470 | a hexadecimal mark alone gives 0 |
| Numerals.ImpossibleBase | base/numbers.cc:471-475 | so does an impossible base |
| Numbers.PositiveRound | base/numbers.cc:491-508 | one more digit: refused exactly when the number no longer fits, and no step overflows |
| Numbers.NegativeRound | base/numbers.cc:528-544 | the same downwards |
| Numbers.SafeParsePositiveInt | base/numbers.cc:482-512 | the value of the leading digits, or the maximum, without any step overflowing |
| Numbers.SafeParseNegativeInt | base/numbers.cc:515-548 | the same downwards; the rounding adjustment is never taken |
| Numbers.NegativeQuotient | base/numbers.cc:522-525 | truncating division of the minimum gives exactly the bound the overflow test needs |
| Numbers.SafeParseSignAndBase | base/numbers.cc:426-479 | computes the split of the text |
| Numbers.SafeIntInternal | base/numbers.cc:550-562 | computes the parse for signed types |
| Numbers.SafeUintInternal | base/numbers.cc:564-572 | computes the parse for unsigned types, refusing a minus sign |
| Numbers.ConsumeStrayLeadingZeroes | base/numbers.cc:241-258 | only zeroes go, all that lead, but one stays if there is nothing else |
| StrayZeroes.StrippingIsHarmlessIff | base/numbers.cc:241-258 | stripping leaves the base-10 reading unchanged if and only if no space or sign comes to the front, or what does is still malformed |
| StrayZeroes.StrippingCanChange | base/numbers.cc:241-258 | "0-5" and "0  " are read differently once stripped |
| HexCodec.DecodeEncode | base/string_encode.cc:94-188 | decoding inverts encoding for all bytes and every delimiter |
| HexCodec.EncodingIsInjective | base/string_encode.cc:94-124 | different bytes have different texts |
| HexCodec.DecodesIff | base/string_encode.cc:150-188 | a text is decoded if and only if it is pairs of digits or letters with the delimiter between them |
| HexCodec.CombineIsShiftOr | base/string_encode.cc:177 | the arithmetic of the model is the shift and or of the code, letters past F included |
| HexCodec.HexDigitIs | base/string_encode.cc:69-74 | the alphabet |
| HexCodec.EitherCase | base/string_encode.cc:76-87 | letters decode alike in both cases |
| HexCodec.OnlyDigitsAndLetters | base/string_encode.cc:76-87 | nothing else decodes |
| HexCodec.HexTextAt | base/string_encode.cc:110-120 | byte i is written at its place, high digit first, the delimiter between bytes |
| HexCodec.HexBytesAt | base/string_encode.cc:166-186 | byte i is decoded from that place, the first digit as the high one |
| HexCodec.EncodeWithinNeededIff | base/string_encode.cc:101-122 | what is written fits in the computed size if and only if there is something to encode or no delimiter |
| HexCodec.HexEncodeWithDelimiter | base/string_encode.cc:94-124 | writes exactly the text and a NUL and nothing behind them, or nothing at all |
| HexCodec.HexDecodeWithDelimiter | base/string_encode.cc:150-188 | writes exactly the bytes, or reports failure, and in no case writes past the computed size |
| StringPieces.BuildLookupTable | base/string_piece.cc:22-29 | the table holds exactly the members of the set |
| StringPieces.FirstHitUnique | base/string_piece.cc:165-228 | there is one first hit, so the searches have no other answer |
| StringPieces.LastHitUnique | base/string_piece.cc:231-296 | there is one last hit |
| StringPieces.FindFirstOf | base/string_piece.cc:165-183 | the first member of the set at or after a position |
| StringPieces.FindFirstNotOf | base/string_piece.cc:186-228 | the first byte outside the set, except that an empty set gives 0 whatever the position |
| StringPieces.EmptySetFirstIff | base/string_piece.cc:192-193 | the answer for an empty set is right if and only if the search starts at 0 |
| StringPieces.FindLastOf | base/string_piece.cc:231-248 | the last member of the set at or before a position |
| StringPieces.FindLastNotOf | base/string_piece.cc:251-296 | the last byte outside the set at or before a position |
| StringPieces.Substr | base/string_piece.cc:298-305 | position and length cut down to what there is |
| StringUtil.TrimIsUnique | base/string_util.cc:107-148 | there is one trimmed string, so both trim functions agree |
| StringUtil.TrimTwice | base/string_util.cc:107-148 | trimming again changes nothing |
| StringUtil.TrimStringT | base/string_util.cc:106-131 | the trimmed string, and flags that say exactly at which ends something was cut off |
| StringUtil.TrimString | base/string_util.cc:133-137 | true if and only if the string was changed |
| StringUtil.TrimStringPieceT | base/string_util.cc:139-148 | the same result through the wrapping arithmetic on "nowhere" |

## Left out

- Pickle floats and doubles, `long` overloads, `ReadStringPiece`, `ReadLength`, `ClaimBytes` and typed custom headers: copies of the integer cases or views of the same bytes.
- The element-count overload of `GetReadPointerAndAdvance` (`base/pickle.cc:66-74`), which nothing calls.
- Pickles: the model keeps one byte array for header and payload; addresses, `realloc` in place and the destructor are not modelled.
- SymmetricUtil.Crypt: does not model the switch that turns padding off, because its one other use is not part of these algorithms.
- SymmetricUtil.CryptInternal: output is returned as sequences; that the source's output buffer is large enough is not claimed.
- CipherContexts.CipherContext.Update: the OpenSSL context is not part of the repository; the class states what the loop relies on.
- CounterMode.CtrChunks: covers a first chunk of whole blocks; after a ragged chunk the rest of its last block is skipped, which `CtrSymmetricCrypt.Crypt` states through the counter it leaves.
- RefCounts.Run: does not model `int` overflow of the count, raw pointers kept outside the smart pointers, or the thread-safe variant.
- Once.OnceOnly: does not model weak memory orders or a closure that throws or calls itself.
- FilePaths.FilePath.AppendComponent: the branches for drive letters are left out, since no path has one on POSIX systems.
- `InsertBeforeExtension`, `ReplaceExtension`, `MatchesExtension` and the comparisons of `FilePath`: easy once the extension is located.
- FileEnumerators.FileEnumerator.Next: no name pattern and no `INCLUDE_DOT_DOT`. No modelled path leads through a link to a directory: the path listed must not, and a recursive enumeration without `SHOW_SYM_LINKS` requires that there are no such links below it, since the source would descend into them, around cycles too.
- FileTrees.FileSystem.ReadDirectory: nothing is stated about a directory reached through a link; a name cannot vanish between being listed and being examined.
- FileEnumerators.FileEnumerator.constructor: paths are sequences of names, so joining and stripping of path strings is the matter of the path files instead.
- FileUtil.ComputeDirectorySize: sums are unbounded integers, so overflow of the 64-bit total is not modelled; links to directories below the root are excluded.
- FileUtil.DeleteFile: system calls fail only for the reasons the tree gives, not for permissions or concurrent changes; the path may be a link but not lead through one to a directory.
- FileUtil.CreateDirectoryAndGetError: paths are absolute, free of "." and "..", and have no link to a directory at or above them, which the source would follow; the only error is that of an existing name.
- Numbers.SafeIntInternal: characters are any `char`; those beyond a byte count as no digit, as bytes above 127 do.
- The `strto*` adapters, floating-point parsing and `ParseDoubleRange`: they depend on the C library.
- HexCodec.HexEncodeWithDelimiter: the needed size is computed without 64-bit wrap-around, for sources below 2^62 bytes.
- StringUtil.TrimStringT: the output is returned; that it may be the input string itself is not modelled.
- Substring searches, `UTF8Encode` and `Escape` of the string files; file streams, temporary directories, monitors, time, logging, RPC services, SM2 and the other asymmetric code.
