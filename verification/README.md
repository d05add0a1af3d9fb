# Verified model of the bundle pipeline

Rugix turns payload files into bundles and streams bundles back onto devices. This project models
that pipeline and the three state machines around it, and proves what they are for: every payload
comes back exactly as it was packed, with whatever local block cache, network and scheduling.

* **Chunking** (`Chunking`, `Buzhash`, `Casync`, `Chunkers`): what it means to cut a stream into blocks by a rule,
  and the streaming chunkers that do it. The Casync chunker skips, fills a 48-byte ring and rolls a
  Buzhash over it; it is proved to find the block ends of a rule on the bytes of the block alone.
* **STLV** (`BundleSource`, `Varint`, `Stlv`, `StlvReader`, `Schema`, `Codec`, `Budget`, `Decoder`): varints, atom heads,
  trees of segments, and the limited structure codec, for every schema. The meaning of a structure is
  defined on trees; the decoder on bytes is proved to compute it, exactly within the limits.
* **Blocks** (`BlockIndexing`, `BlockEncoding`, `PayloadDecoding`, `PayloadReader`): block index, hash table,
  parallel encoder with its sort buffer, and the decoder with store, bundle data and target.
* **Bundles** (`Tags`, `Format`, `Sections`, `Bundle`, `BundlePacking`, `BundleTree`, `BundleReader`,
  `BundleBuilder`, `Limits`, `BundleLimits`): layout, packing, reading, hashing and signing of whole bundle files, and
  what the limits of readers mean in bytes.
* **Local blocks** (`IndexFiles`, `StoredHashes`, `KnownBlocks`, `BlockDb`, `SoundBlocks`, `PayloadDb`): stored indices
  and the database of blocks of local files, as it is stored and as far as it can be relied on.
* **HTTP** (`HttpEvents`, `HttpSources`): lazy skips, range requests, retries and reconnects, over a finite script of
  what the network does next.
* **Pipe** (`Pipes`): interleaved steps of one reader and one writer under a lock with a condition variable.
* **Apps** (`AppSteps`, `AppSafety`, `AppRuns`, `AppCollection`, `AppResidue`, `AppOutcomes`, `AppManagers`): the
  persisted state machine of app generations, with every way a step can end, power cuts included.

Code that works step by step is a method or a class with the same fields and loops, proved to compute a
specification function; the results are then proved about these functions.

Some parts are parameters: the digest, the compressor (of which only the round trip is known), the
table of hash words, parsers of names, the answers of the block store, the order in which workers deliver,
and how input is split into buffers and reads. Where digests matter, a result assumes that the blocks
involved do not collide, or exhibits a collision. All failures, panics included, are one error value, except
where it matters that the program does not panic (`Outcomes`).

Where the code promises less than its comments, the code is followed and the exact condition proved:

* Varints of ten digits and more can lose high bits (`Varint.OverlongExample`); accepted encodings are
  canonical exactly up to nine digits (`Varint.CanonicalIffShort`).
* An overlong head costs a decoder less than its size (`Budget.OverlongHeadEscapes`), so that the byte limit
  holds exactly if the excess is covered (`Budget.DecodeWithinLimits`, `Budget.RunWithinLimits`).
* The reader has limits that the writer does not check: a packed bundle can be read exactly if it is within
  them (`BundleBuilder.PackThenRead`, and in bytes `BundleLimits.BundleReadInBytes`).
* The first chunk of an HTTP source is not checked to be a range (`HttpSources.Open`). If it is the whole file,
  a skip inside the file can underflow (`HttpSources.SkipAfterWholeFile`); besides, exactly skipping beyond the
  end of a file trips an assertion (`HttpSources.HttpSource.Read`).
* A block store can make decoding fail that succeeds without it, exactly if it cannot read a block it is asked
  for (`PayloadDecoding.StoreOnlyHelps`).
* An index file with more hashes than sizes confuses the blocks of later files: they are found with the
  dimensions of other blocks, or finding them panics (`BlockDb.ShiftedBlock`, `BlockDb.PanicsExactly`,
  `SoundBlocks.ConfusedExample`).
* A pipe without capacity can get stuck, and only such a pipe (`Pipes.NoDeadlock`).
* Recovery from the error state can end well without leaving it (`AppResidue.RecoveryInError`), or leave two
  generations set up (`AppResidue.ErrorRecoveryExact`).
* A failed deactivation leaves a switch behind (`AppResidue.FailedDeactivation`), after which an activation
  deactivates nothing (`AppResidue.ActivationWithoutCurrent`), and neither does removing the app
  (`AppResidue.RemovalExactly`).

## Model

| member | source | states |
|---|---|---|
| `Chunking.FeedSplit` | crates/libs/rugix-chunker/src/lib.rs:152-177 | feeding `a` and then `b` completes the same blocks and leaves the same open block as feeding `a + b`, for every cutting rule and every split, empty parts included |
| `Chunking.FeedNoCut` | crates/libs/rugix-chunker/src/lib.rs:153-156 | input without a block end only extends the open block: blocks, completed blocks and open block are those of the extended block with the remaining input |
| `Chunking.FeedCut` | crates/libs/rugix-chunker/src/lib.rs:153-156 | input up to the first block end completes exactly that block, and everything else is as after a fresh start |
| `Chunking.ChunksCompleted` | crates/libs/rugix-chunker/src/lib.rs:159-177 | the blocks of a stream are the completed ones followed by the open one, if it is not empty |
| `Chunking.Resynchronise` | crates/libs/rugix-chunker/src/lib.rs:159-177 | if `a` ends at a boundary, the blocks of `a + b` are those of `a` followed by those of `b` |
| `Chunking.ChunksAreChunking` | crates/libs/rugix-chunker/src/lib.rs:159-177 | the blocks of a stream are a partition of it in which every block but the last ends, and ends exactly where the rule first says so |
| `Chunking.ChunkingUnique` | crates/libs/rugix-chunker/src/lib.rs:159-177 | there is no other such partition: any partition with exact block ends is the one computed |
| `Buzhash.ShiftWindow` | crates/libs/rugix-chunker/src/casync.rs:143-157 | rotating a partial window hash once more leaves behind exactly the term of the first byte and the partial hash of the moved window |
| `Buzhash.RotateValue` | crates/libs/rugix-chunker/src/casync.rs:280-282 | rotating by one doubles the number a word stands for, and brings the top bit back at the bottom |
| `Buzhash.RotateSteps` | crates/libs/rugix-chunker/src/casync.rs:280-282 | rotating further is rotating by one again, from no rotation on |
| `Buzhash.ValueBits` | crates/libs/rugix-chunker/src/casync.rs:161-165 | words stand for numbers below 2 to the 32, and different words for different numbers |
| `Buzhash.RollingHash` | crates/libs/rugix-chunker/src/casync.rs:143-157 | the incrementally updated hash of a full window is the from-scratch Buzhash of the window moved by one byte |
| `Casync.RingPush` | crates/libs/rugix-chunker/src/casync.rs:193-226 | writing a byte to the slot for the current block length keeps the ring holding the newest bytes, whatever stale bytes other slots hold |
| `Casync.OldestSlot` | crates/libs/rugix-chunker/src/casync.rs:209-212 | the slot that is written next holds the byte that leaves a full window, over all wraparounds |
| `Casync.BlockSizes` | crates/libs/rugix-chunker/src/casync.rs:59-88 | every block but the last has between the minimum and the maximum size, the last one at most the maximum, and none is empty |
| `Casync.BlocksCutByHash` | crates/libs/rugix-chunker/src/casync.rs:161-228 | the blocks of a payload make it up; each but the last ends at the maximum size or at the first position from the minimum size on where the hash of the 48 bytes before it, modulo the discriminator, is the largest remainder; and there is no such position inside any block |
| `Casync.ShortBlocksContinue` | crates/libs/rugix-chunker/src/casync.rs:161-165 | no block ends below the minimum size |
| `Casync.CasyncChunker.constructor` | crates/libs/rugix-chunker/src/casync.rs:121-134 | a new chunker is at the start of a block |
| `Casync.CasyncChunker.Reset` | crates/libs/rugix-chunker/src/casync.rs:136-140 | after a reset the chunker is at the start of a block although the window keeps its stale bytes |
| `Casync.CasyncChunker.Start` | crates/libs/rugix-chunker/src/casync.rs:143-151 | after the window was filled, the hash is the from-scratch hash of the last 48 bytes of the block |
| `Casync.CasyncChunker.Advance` | crates/libs/rugix-chunker/src/casync.rs:153-165 | one step gives the hash of the last 48 bytes with the new byte, and breaks exactly where the block ends |
| `Casync.CasyncChunker.SkipHead` | crates/libs/rugix-chunker/src/casync.rs:175-192 | the bytes that are not hashed are counted, up to the start of the first window or the end of the input |
| `Casync.CasyncChunker.FillWindow` | crates/libs/rugix-chunker/src/casync.rs:193-203 | the window is filled as far as the input goes and holds the newest bytes of the block |
| `Casync.CasyncChunker.RollByte` | crates/libs/rugix-chunker/src/casync.rs:213-226 | one byte more: the chunker says whether the block ends with it, and starts afresh or holds the extended block |
| `Casync.CasyncChunker.Roll` | crates/libs/rugix-chunker/src/casync.rs:209-228 | rolling over the input finds the first block end, or none exists in the input |
| `Casync.CasyncChunker.Scan` | crates/libs/rugix-chunker/src/casync.rs:175-228 | a scan returns the position of the first block end in the input, at least 1, and is then at the start of a block; without a block end in the input it returns nothing and the open block grows by the input |
| `Chunkers.FixedSizeChunker.Scan` | crates/libs/rugix-chunker/src/lib.rs:200-211 | the fixed-size chunker refines the rule that ends blocks at the block size, over any split of the input |
| `Chunkers.AnyChunker.Scan` | crates/libs/rugix-chunker/src/lib.rs:142-150 | either chunker returns the first block end of its rule |
| `Chunkers.AnyChunker.Chunks` | crates/libs/rugix-chunker/src/lib.rs:159-177 | the chunks of a slice are its blocks, the first one without what was open before, and make up the slice |
| `Chunkers.FixedBlockSizes` | crates/libs/rugix-chunker/src/lib.rs:182-211 | all blocks but the last have exactly the block size |
| `Chunkers.BlocksFitU32` | crates/libs/rugix-bundle/src/block_encoding/block_index.rs:194-208 | blocks of either algorithm are not empty and smaller than 4 GiB, so that their sizes never truncate |
| `Chunkers.NamedSizesUsable` | crates/libs/rugix-chunker/src/lib.rs:55-69 | a chunker of either kind can be made for every size in KiB that a name can give, except zero |
| `Varint.ReadEncode` | crates/libs/rugix-bundle/src/format/stlv.rs:533-588 | reading inverts writing for every 63-bit integer, whatever follows |
| `Varint.CanonicalIffShort` | crates/libs/rugix-bundle/src/format/stlv.rs:533-557 | an accepted encoding is the one the writer produces if and only if it has at most nine digits |
| `Varint.OverlongExample` | crates/libs/rugix-bundle/src/format/stlv.rs:537-545 | an encoding of 2^64 in ten digits is read as 0, because the shift loses high bits silently |
| `Varint.SizeExact` | crates/libs/rugix-bundle/src/format/stlv.rs:590-594 | the computed size is the number of digits written |
| `Varint.Write` | crates/libs/rugix-bundle/src/format/stlv.rs:574-588 | the writer appends the base-128 digits from the highest down, all but the last marked |
| `Stlv.ReadEncodeHead` | crates/libs/rugix-bundle/src/format/stlv.rs:277-369 | reading inverts writing for every head whose length fits, and the computed head size is the number of bytes written |
| `Stlv.CanonicalHead` | crates/libs/rugix-bundle/src/format/stlv.rs:345-369 | an accepted head is what the writer produces if and only if it has at most nine optional length digits |
| `Stlv.ReadHead` | crates/libs/rugix-bundle/src/format/stlv.rs:345-369 | what is left is a proper suffix of the input, and the length of the value fits |
| `Varint.ContinueReading` | crates/libs/rugix-bundle/src/format/stlv.rs:533-557 | one digit more either ends the varint, makes reading fail, or leaves the result to the remaining digits; what is left is determined in every case |
| `Stlv.BehindHead` | crates/libs/rugix-bundle/src/reader.rs:32-35 | what is left after a head that can be read is what follows it; it is defined for heads that cannot be read as well |
| `Stlv.ReadSerialized` | crates/libs/rugix-bundle/src/format/stlv.rs:374-393 | the serialization of any tree is read back as the tree, and nothing else is consumed |
| `Stlv.SmallNodeFits` | crates/libs/rugix-bundle/src/reader.rs:402-439 | a tree whose copy ends below the limit is never rejected while it is copied |
| `Stlv.CopyIsSerialize` | crates/libs/rugix-bundle/src/reader.rs:402-439 | copying a value or segment yields the writer's bytes of the tree that is read, exactly if it fits the limit |
| `StlvReader.ReadTag` | crates/libs/rugix-bundle/src/format/stlv.rs:516-531 | a tag is read under arbitrary short reads; nothing is read at the end; a partial tag is an error |
| `StlvReader.ReadVarint` | crates/libs/rugix-bundle/src/format/stlv.rs:533-557 | the reading loop on a source with arbitrary short reads computes the varint at the front of its bytes and consumes exactly it; what is left is determined also when reading fails |
| `StlvReader.ReadAtomHead` | crates/libs/rugix-bundle/src/format/stlv.rs:345-369 | the head at the front of the source is read and exactly it is consumed; what is left is determined also when reading fails |
| `StlvReader.Skip` | crates/libs/rugix-bundle/src/format/stlv.rs:374-393 | skipping succeeds exactly if one balanced tree follows, and consumes exactly it |
| `StlvReader.ReadIntoVec` | crates/libs/rugix-bundle/src/reader.rs:402-439 | the copied bytes and what is left are those of the copying function, for every source |
| `BundleSource.Source.Read` | crates/libs/rugix-bundle/src/source.rs:145-152 | a read returns the next bytes, possibly fewer than asked for, and none only at the end |
| `BundleSource.Source.ReadExact` | crates/libs/rugix-bundle/src/source.rs:35-44 | the next bytes in full, or an error when there are not enough |
| `BundleSource.Source.Skip` | crates/libs/rugix-bundle/src/source.rs:178-190 | skipping by reading advances by exactly the given length, or fails when there are not enough bytes |
| `Schema.TreeRoundTrip` | crates/libs/rugix-bundle/src/format/macros.rs:23-74 | for every schema with distinct tags, every value is decoded from the tree that encodes it, with required, optional and repeated fields at any nesting |
| `Schema.StripKeepsMeaning` | crates/libs/rugix-bundle/src/format/macros.rs:31-53 | removing every unknown optional tree, at every level, does not change what is decoded, nor whether decoding fails |
| `Schema.StripInserted` | crates/libs/rugix-bundle/src/format/macros.rs:31-53 | inserting a tree of any shape with an unknown optional tag anywhere between the nodes of a struct is undone by the removal |
| `Schema.StripNested` | crates/libs/rugix-bundle/src/format/macros.rs:31-53 | such insertions inside nested structs are undone as well |
| `Schema.UnknownByFirstByte` | crates/libs/rugix-bundle/src/format/macros.rs:45-48 | a tree with an unknown tag, anywhere in a struct, makes decoding fail if the first byte of the tag is below 128, and does not matter otherwise |
| `Codec.SkipTree` | crates/libs/rugix-bundle/src/format/decode.rs:110-141 | skipping a tree consumes exactly it and charges its size, and fails exactly if its depth or size exceeds the limits |
| `Codec.DecodeTree` | crates/libs/rugix-bundle/src/format/macros.rs:23-63 | decoding the bytes of any tree gives what the tree encodes and consumes exactly the tree; it fails exactly if the tree encodes nothing or its depth or charge exceeds the limits |
| `Codec.RoundTrip` | crates/libs/rugix-bundle/src/format/macros.rs:23-74 | decoding the encoding of any value of any schema with distinct tags gives the value exactly if the limits allow, whatever follows |
| `Codec.ForwardCompatible` | crates/libs/rugix-bundle/src/format/macros.rs:31-53 | two encodings within the limits that differ only in unknown optional trees, at any level, decode to the same value or both fail |
| `Codec.UnknownInBytes` | crates/libs/rugix-bundle/src/format/macros.rs:45-48 | the same of bytes: decoding fails if the first byte of an unknown tag is below 128; otherwise, within the limits, the result is as without its tree |
| `Codec.WrongEndRejected` | crates/libs/rugix-bundle/src/format/macros.rs:50-51 | a segment that is closed with another tag is rejected, both decoding and skipping |
| `Codec.DecodedHasType` | crates/libs/rugix-bundle/src/format/decode.rs:160-259 | whatever is decoded, from any bytes, is a value of the schema: required fields are there, optional ones at most once |
| `Budget.HeadCharged` | crates/libs/rugix-bundle/src/format/decode.rs:62-87 | the size charged for a head is the number of bytes it was read from if these are at most 14, the longest head the writer produces, and less if they are more |
| `Budget.DecodeWithinLimits` | crates/libs/rugix-bundle/src/format/decode.rs:62-151 | from any bytes, a successful decode has closed every segment it opened; it has consumed at most what it was charged if and only if the excess bytes of the overlong heads it read are at most the value bytes it read, and at most the limit if and only if they are at most those and what is left of the budget; without overlong heads there is no excess |
| `Budget.SkipSegmentBalanced` | crates/libs/rugix-bundle/src/format/decode.rs:125-141 | skipping a segment of any shape, in any bytes, consumes exactly what it is charged and the excess bytes of the overlong heads it reads, and closes the segment |
| `Budget.SkipWithinCharge` | crates/libs/rugix-bundle/src/format/decode.rs:125-141 | skipping a segment consumes at most what it is charged if and only if none of the heads it reads is overlong |
| `Budget.DecodeFieldsBalanced` | crates/libs/rugix-bundle/src/format/macros.rs:23-63 | decoding the fields of a struct from any bytes: bytes consumed and values read again make up what is charged and the excess of the heads that are read |
| `Budget.RunWithinLimits` | crates/libs/rugix-bundle/src/format/decode.rs:62-123 | at every point of every run of calls that has not failed, the open segments are those counted and at most the depth limit, and the bytes consumed are within the byte limit if and only if the excess of overlong heads is covered by values read or pending and the rest of the budget |
| `Budget.OverlongHeadEscapes` | crates/libs/rugix-bundle/src/format/decode.rs:62-87 | with an overlong head, a decoder allowed 133 bytes consumes 142 |
| `Decoder.Decoder.CheckAndSubtractSize` | crates/libs/rugix-bundle/src/format/decode.rs:144-151 | the budget goes down by the size, or is exhausted |
| `Decoder.Decoder.NextAtomHead` | crates/libs/rugix-bundle/src/format/decode.rs:62-87 | reads a head, charges the whole atom, counts depth down at starts and up at ends, and remembers a value's length |
| `Decoder.Decoder.ReadValue` | crates/libs/rugix-bundle/src/format/decode.rs:89-96 | reads exactly the value announced and charges it again |
| `Decoder.Decoder.Skip` | crates/libs/rugix-bundle/src/format/decode.rs:110-123 | skips the rest of one value or segment |
| `Decoder.Decoder.SkipSegment` | crates/libs/rugix-bundle/src/format/decode.rs:125-141 | the loop consumes exactly the rest of the open segment, nested segments included |
| `Decoder.Decoder.DecodeItem` | crates/libs/rugix-bundle/src/format/decode.rs:178-259 | the decoder of a primitive or struct computes the decoding function |
| `Decoder.Decoder.DecodeStruct` | crates/libs/rugix-bundle/src/format/macros.rs:23-63 | the field loop computes the decoding function, with fields in whatever order they come |
| `Decoder.DecodeSlice` | crates/libs/rugix-bundle/src/format/decode.rs:154-158 | decoding a slice works with a depth of 32 and no limit on the size |
| `Decoder.Encode` | crates/libs/rugix-bundle/src/format/macros.rs:65-76 | the encoder appends the serialization of the value's tree |
| `BlockIndexing.BlockIndexBuilder.ProcessChunk` | crates/libs/rugix-bundle/src/block_encoding/block_index.rs:250-263 | one scan step adds the pending block to the index exactly at the first block end, or extends it by the whole input |
| `BlockIndexing.BlockIndexBuilder.Process` | crates/libs/rugix-bundle/src/block_encoding/block_index.rs:250-263 | however the payload is split into buffers, the index describes the completed blocks and the hasher holds the open one |
| `BlockIndexing.BlockIndexBuilder.FinalizeBlock` | crates/libs/rugix-bundle/src/block_encoding/block_index.rs:273-284 | the pending block is added with its digest, its offset and its size, and the next one starts empty |
| `BlockIndexing.BlockIndexBuilder.Finalize` | crates/libs/rugix-bundle/src/block_encoding/block_index.rs:265-271 | the open block is added unless it is empty |
| `BlockIndexing.NewChunker` | crates/libs/rugix-chunker/src/lib.rs:55-69 | a chunker is made exactly for usable options, and is at the start of a block |
| `BlockIndexing.ComputeBlockIndex` | crates/libs/rugix-bundle/src/block_encoding/block_index.rs:51-70 | the index describes exactly the blocks of the file, for any buffers; computing it fails exactly if the chunker's options are not usable |
| `BlockIndexing.IndexSound` | crates/libs/rugix-bundle/src/block_encoding/block_index.rs:129-145 | blocks are non-empty and contiguous from the start to the end of the file, sizes fit 32 bits, and every recorded hash is the digest of the recorded range |
| `BlockIndexing.HashesAt` | crates/libs/rugix-bundle/src/block_encoding/block_index.rs:17-36 | among hashes stored back to back, the one at a number is that of the block with the number |
| `BlockEncoding.BlockTable.Insert` | crates/libs/rugix-bundle/src/block_encoding/block_table.rs:43-73 | a block is inserted exactly if its hash has no earlier occurrence, and the table keeps the first occurrence of every hash |
| `BlockEncoding.BlockTable.Get` | crates/libs/rugix-bundle/src/block_encoding/block_table.rs:36-41 | the block found is inserted, has the hash, and has no earlier occurrence; none is found exactly if no inserted block has the hash |
| `BlockEncoding.AllDelivered` | crates/libs/rugix-bundle/src/block_encoding/mod.rs:104-119 | after as many deliveries as were sent, each index has been delivered |
| `BlockEncoding.WriteReady` | crates/libs/rugix-bundle/src/block_encoding/mod.rs:107-116 | all waiting blocks that continue the sequence are written, in order, and the next one is not waiting |
| `BlockEncoding.ReceiveInOrder` | crates/libs/rugix-bundle/src/block_encoding/mod.rs:101-119 | for every order of delivery, the blocks are written and their sizes recorded in the order they were sent; the buffer drains and every block is written |
| `BlockEncoding.Worker` | crates/libs/rugix-bundle/src/block_encoding/mod.rs:45-82 | a worker delivers the compressed bytes of exactly the block it was sent, from its range of the payload file |
| `BlockEncoding.SendBlock` | crates/libs/rugix-bundle/src/block_encoding/mod.rs:45-93 | a block is sent to a worker exactly if its hash has no earlier occurrence, or without deduplication |
| `BlockEncoding.SendBlocks` | crates/libs/rugix-bundle/src/block_encoding/mod.rs:45-93 | exactly the blocks without an earlier occurrence are sent, or all without deduplication, in order, each read from its range of the file and compressed |
| `BlockEncoding.EncodePayloadFile` | crates/libs/rugix-bundle/src/block_encoding/mod.rs:22-156 | for all buffers and all orders of delivery, the encoding and the data are those of the simple specification on the blocks of the payload; without a usable chunker, encoding fails |
| `BlockEncoding.EncodableExactly` | crates/libs/rugix-bundle/src/block_encoding/mod.rs:140-150 | encoding a payload fails exactly if a stored block has 4 GiB or more after compression |
| `BlockEncoding.EncodedExactly` | crates/libs/rugix-bundle/src/block_encoding/mod.rs:122-156 | sizes are left out exactly for fixed-size blocks without compression; the data is made of the stored blocks, each compressed by itself if there is compression |
| `BlockEncoding.StoredExactly` | crates/libs/rugix-bundle/src/block_encoding/mod.rs:45-93 | with deduplication, every hash is stored for exactly one block; without, every block is stored |
| `PayloadDecoding.Verified` | crates/libs/rugix-bundle/src/reader.rs:216-326 | with any store, every block that is written has the digest the index lists for it |
| `PayloadDecoding.CacheTransparent` | crates/libs/rugix-bundle/src/reader.rs:224-294 | two successful runs with whatever stores consume the same bytes and size indices and leave the same data; they write the same blocks or exhibit two blocks with the same digest |
| `PayloadDecoding.StoreOnlyHelps` | crates/libs/rugix-bundle/src/reader.rs:224-294 | where decoding succeeds without a store, it succeeds with a store if and only if the store can read, or does not have, every block it is asked for; blocks copied from the target are not asked for |
| `PayloadDecoding.UnreadableStore` | crates/libs/rugix-bundle/src/reader.rs:236-253 | a store whose first answer cannot be read makes decoding fail that succeeds without a store |
| `PayloadDecoding.StoreReplacesData` | crates/libs/rugix-bundle/src/reader.rs:235-294 | with a store that has every block it is asked for, decoding does not depend on the bytes of the data, only on how many there are |
| `PayloadDecoding.NextSizeExact` | crates/libs/rugix-bundle/src/reader.rs:226-233 | for every stored block the decoder determines its exact size, even without a size list, where only the last block can be short |
| `PayloadDecoding.RunExpected` | crates/libs/rugix-bundle/src/reader.rs:216-326 | decoding the first `n` blocks of encoded data, with any store and no collision, succeeds exactly if the store can read what it is asked for, and then gives these blocks and consumes exactly the stored blocks among them |
| `PayloadDecoding.PrepareEncoded` | crates/libs/rugix-bundle/src/reader.rs:183-207 | from the encoding the decoder recovers exactly the hashes and sizes that were encoded |
| `PayloadDecoding.PayloadRoundTrip` | crates/libs/rugix-bundle/src/reader.rs:174-351 | for every payload, chunker, deduplication, compression and store, decoding the encoding succeeds exactly if the store can read the blocks it is asked for, and then gives the payload, consumes exactly the data and every recorded size, and leaves what follows |
| `PayloadReader.FileTarget.Write` | crates/libs/rugix-bundle/src/reader.rs:377-381 | writing appends at the position and leaves what is behind it |
| `PayloadReader.FileTarget.ReadBlock` | crates/libs/rugix-bundle/src/reader.rs:382-399 | a written block is read back and the position for writing restored |
| `PayloadReader.BlockDecoder.Fetch` | crates/libs/rugix-bundle/src/reader.rs:224-294 | a block comes from the store, and is skipped in the bundle, if the stored bytes have the hash looked for; else from the bundle |
| `PayloadReader.BlockDecoder.Copy` | crates/libs/rugix-bundle/src/reader.rs:295-318 | a repeated block is read back from the target at its recorded offset and verified |
| `PayloadReader.BlockDecoder.DecodeBlock` | crates/libs/rugix-bundle/src/reader.rs:216-326 | one round of the loop is one step of the specification |
| `PayloadReader.BlockDecoder.Locate` | crates/libs/rugix-bundle/src/reader.rs:221-222 | the table tells whether a block is fresh, and if it is not, the first block with its hash, which is before it and has been written |
| `PayloadReader.BlockDecoder.DecodeBlocks` | crates/libs/rugix-bundle/src/reader.rs:216-326 | the loop computes the run of the specification, or fails exactly if that does |
| `PayloadReader.CopyData` | crates/libs/rugix-bundle/src/reader.rs:327-340 | without block encoding, the data is copied as it is |
| `PayloadReader.DecodeInto` | crates/libs/rugix-bundle/src/reader.rs:174-351 | on success the target holds exactly the specified payload and the source is behind the end of its segment; it fails exactly if the specification does |
| `PayloadReader.DecodePayload` | crates/libs/rugix-bundle/src/reader.rs:341-346 | a payload that is delivered has the file hash of its index entry |
| `PayloadReader.SegmentRoundTrip` | crates/libs/rugix-bundle/src/reader.rs:174-351 | decoding the segment of a packed payload gives the payload and leaves the source just behind its end tag, with or without block encoding, exactly if the store can read the blocks it is asked for |
| `Sections.AdvanceUntil` | crates/libs/rugix-bundle/src/reader.rs:443-491 | a source is advanced to the first atom looked for, over balanced optional trees only |
| `Sections.SkipOptional` | crates/libs/rugix-bundle/src/reader.rs:443-491 | any run of optional trees before the atom looked for is skipped, and nothing else |
| `Sections.OthersByFirstByte` | crates/libs/rugix-bundle/src/reader.rs:443-491 | an atom that is not looked for is an error if the first byte of its tag is below 128, and else is skipped as a balanced tree; the end of the source is an error |
| `Format.FormatWellFormed` | crates/libs/rugix-bundle/src/format/mod.rs:30-180 | no structure of the bundle format uses a tag twice, at any nesting: bundle and payload headers with all they contain, signatures, stored indices and signed metadata; so that the generic results hold for all of them |
| `Bundle.FindWritten` | crates/libs/rugix-bundle/src/reader.rs:402-456 | a written structure is found and copied byte by byte, and what follows it left, exactly if it fits the size limit, and decoded to the same value exactly if depth and charge are within the limits |
| `Bundle.MetadataByFirstByte` | crates/libs/rugix-bundle/src/reader.rs:111-131 | the same between header and payloads, where a second segment of signatures is an error |
| `Bundle.TrailingIgnored` | crates/libs/rugix-bundle/src/format/decode.rs:154-158 | bytes behind a structure in a slice do not matter |
| `Bundle.ExpectedHashDecides` | crates/libs/rugix-bundle/src/reader.rs:42-48 | an expected hash makes opening fail exactly if the header has another one, and changes nothing else |
| `Bundle.OpenedAsListed` | crates/libs/rugix-bundle/src/reader.rs:75-108 | a payload is only opened if its header bytes have the hash in the index, and with the encoding they describe |
| `Bundle.HashPinsContents` | crates/libs/rugix-bundle/src/reader.rs:31-108 | two files of any bytes that are read with the same expected hash, by whatever stores, have header bytes with that digest; and if the header bytes are the same, they have the same payloads or exhibit two different ones with the same digest |
| `BundlePacking.InterpretHeader` | crates/libs/rugix-bundle/src/reader.rs:183-204 | the header of a packed payload is interpreted as exactly the encoding of its data |
| `BundlePacking.PackableExactly` | crates/libs/rugix-bundle/src/builder.rs:30-110 | a payload without block encoding can always be packed; any other exactly if its names are known, a chunker can be made, and no stored block has 4 GiB or more after compression |
| `BundlePacking.OpenPacked` | crates/libs/rugix-bundle/src/reader.rs:75-108 | opening a packed payload checks its header against the index and gives its encoding, its length, and the source at its data, exactly if the header is within the reader's limits |
| `BundlePacking.ReadPacked` | crates/libs/rugix-bundle/src/reader.rs:75-108 | reading the packed payloads from any one on gives their contents, in order, exactly if their headers are within the reader's limits and the stores can read the blocks they are asked for |
| `BundlePacking.OpenFile` | crates/libs/rugix-bundle/src/reader.rs:32-57 | starting to read a bundle file gives its header, its exact header bytes and its signatures, and the source at the payloads, exactly if header and signatures are within the reader's limits |
| `BundlePacking.BundleRoundTrip` | crates/libs/rugix-bundle/src/reader.rs:32-108 | reading a bundle with the hash of its header gives the contents of all payloads, whatever signatures and stores there are, exactly if header, signatures and payload headers are within the reader's limits and the stores can read the blocks they are asked for |
| `BundlePacking.BundleHashExact` | crates/libs/rugix-bundle/src/lib.rs:51-66 | the hash of a bundle file is the hash of the header bytes that were packed, exactly if the header is within the reader's limits; else there is an error |
| `BundlePacking.SigningAppends` | crates/libs/rugix-bundle/src/lib.rs:78-110 | signing a bundle keeps the header bytes, the earlier signatures and the payloads with all that follows, and appends exactly one signature; it succeeds exactly if the header fits and the earlier signatures are within the limits |
| `BundlePacking.SignThenOpen` | crates/libs/rugix-bundle/src/lib.rs:78-110 | reading a bundle after signing it gives the earlier signatures in order and then the new one, with header and payloads as before, exactly if the signatures are within the limits |
| `BundleTree.BundleIsTree` | crates/libs/rugix-bundle/src/builder.rs:14-136 | a packed file is one balanced tree and nothing else: header, signatures if there are any, and a section with a segment for every payload, of its header and its data |
| `Limits.FitsExactly` | crates/libs/rugix-bundle/src/reader.rs:402-439 | a tree is within the size limit of copying exactly if its last value ends below it |
| `Limits.HeightWithinDepth` | crates/libs/rugix-bundle/src/format/decode.rs:62-87 | the tree of a value is nested no deeper than its schema |
| `Limits.ChargeAtMostTwice` | crates/libs/rugix-bundle/src/format/decode.rs:62-96 | decoding a tree is charged at most twice its size |
| `BundleLimits.DecodedInBytes` | crates/libs/rugix-bundle/src/format/decode.rs:154-158 | a slice with any tree that fits into memory is decoded to what the tree means exactly if it is nested no more than 32 levels deep |
| `BundleLimits.BundleReadInBytes` | crates/libs/rugix-bundle/src/reader.rs:32-108 | in bytes: a packed bundle that fits into memory is read back, signed or not, exactly if the last value of its header ends before byte 131072, the last values of the payload headers and of the signatures before byte 33554432, and the stores can read the blocks they are asked for |
| `BundleLimits.SmallBundleComesBack` | crates/libs/rugix-bundle/src/lib.rs:43-48 | so packing and then reading gives all payloads back if the header has fewer than 131072 bytes and the payload headers fewer than 33554432 |
| `BundleLimits.HashInBytes` | crates/libs/rugix-bundle/src/lib.rs:51-66 | a bundle file that fits into memory has the hash of its packed header bytes exactly if their last value ends before byte 131072 |
| `BundleLimits.SigningInBytes` | crates/libs/rugix-bundle/src/lib.rs:78-110 | it can be signed exactly if the last value of the header ends before byte 131072, and that of the earlier signatures before byte 33554432 |
| `BundleReader.ReadOptionalMetadata` | crates/libs/rugix-bundle/src/reader.rs:111-131 | the signatures before the payloads are returned if there are any, a second segment of them is an error, other optional atoms are skipped, and the source is behind the start of the payloads |
| `BundleReader.StartBundle` | crates/libs/rugix-bundle/src/reader.rs:32-57 | a reader starts exactly if the header behind the first head, read or not, can be decoded and has the hash asked for, and then has the header, its bytes, its index and the signatures |
| `BundleReader.BundleReader.NextPayload` | crates/libs/rugix-bundle/src/reader.rs:75-108 | payloads are opened one after the other, as many as the index has, each exactly if the header behind the next head, read or not, has the hash in the index and can be decoded |
| `BundleReader.ReadNext` | crates/libs/rugix-bundle/src/reader.rs:75-108 | opening and decoding the next payload into a file gives the specified payload and leaves the source behind its segment |
| `BundleReader.ReadBundleFile` | crates/libs/rugix-bundle/src/reader.rs:31-108 | starting, opening and decoding payload after payload computes exactly the function that the end-to-end results are about |
| `BundleReader.HashBundle` | crates/libs/rugix-bundle/src/lib.rs:51-66 | the hash of the copied header by the algorithm the header names |
| `BundleReader.AddBundleSignature` | crates/libs/rugix-bundle/src/lib.rs:78-110 | the output is the specified copy with one more signature |
| `BundleBuilder.PreparePayload` | crates/libs/rugix-bundle/src/builder.rs:30-110 | what is prepared for a payload is its encoded data, its header, and the index entry with both hashes; it fails exactly if the payload cannot be encoded |
| `BundleBuilder.Pack` | crates/libs/rugix-bundle/src/builder.rs:14-136 | the written file is header, payload segments and end tags in the specified layout, and the hash returned is that of the header bytes |
| `BundleBuilder.PackThenRead` | crates/libs/rugix-bundle/src/builder.rs:14-136 | reading a packed bundle with the hash packing returned gives the contents of all payloads, whatever stores are used, exactly if the bundle header and all payload headers are within the reader's limits and the stores can read the blocks they are asked for |
| `KnownBlocks.TableOfKnows` | crates/apps/rugix-ctrl/src/payload_db.rs:98-117 | the table has entries for exactly the known hashes, each with the first block with it and its file |
| `KnownBlocks.TableOfExtended` | crates/apps/rugix-ctrl/src/payload_db.rs:98-117 | blocks of later files never change the entries of earlier ones |
| `PayloadDb.BlockProvider.Enter` | crates/apps/rugix-ctrl/src/payload_db.rs:98-117 | the dimensions of a block are added, and it is entered exactly if its hash is not there already; the program panics exactly if the block has no hash |
| `PayloadDb.BlockProvider.AddIndices` | crates/apps/rugix-ctrl/src/payload_db.rs:65-124 | the first index with the right algorithms that is one is added to the raw tables, whatever they hold; without one nothing changes; one that cannot be read or decoded is an error and changes nothing; the outcome, panics included, and the new tables are those of the specification |
| `PayloadDb.SelectedExactly` | crates/apps/rugix-ctrl/src/payload_db.rs:70-92 | by position: no index is used exactly if every stored index has other algorithms, or opens and is something else; otherwise the first one that does not is used exactly if it opens and loads, and is an error exactly if not |
| `PayloadDb.BlockProvider.Query` | crates/apps/rugix-ctrl/src/payload_db.rs:132-142 | whatever the tables hold, a query looks the hash up and takes the dimensions and the file by number; it panics exactly if one of these is out of bounds |
| `PayloadDb.BlockProvider.AddFiles` | crates/apps/rugix-ctrl/src/cli.rs:907-926 | adding files leaves the tables as adding their indices one after the other, passes over those that cannot be decoded, and panics exactly if one of them makes it panic |
| `BlockDb.AddedExactly` | crates/apps/rugix-ctrl/src/payload_db.rs:93-122 | adding an index to any tables panics exactly if its hashes, with a part of one left over from before, are too few for its sizes; otherwise all its hashes and dimensions are added, with prefix sums as offsets |
| `BlockDb.EnteredTable` | crates/apps/rugix-ctrl/src/payload_db.rs:98-117 | after blocks have been entered, the table has the entries it had, and one for every new hash, for the first block with it |
| `BlockDb.HashReadIs` | crates/apps/rugix-ctrl/src/payload_db.rs:93-98 | the hash that a block is entered with is that of the index exactly up to the part of a hash left over before it |
| `BlockDb.ShiftedBlock` | crates/apps/rugix-ctrl/src/payload_db.rs:93-142 | the query for a new block gives the dimensions of the block of the index that is later by the number of whole hashes without sizes in earlier indices, and panics if there is none: so it is right if there are none |
| `BlockDb.PanicsExactly` | crates/apps/rugix-ctrl/src/payload_db.rs:93-142 | after any index has been added, a query panics if and only if it did and the new dimensions do not reach its block, or its hash is that of a new block with no such later block in the index |
| `SoundBlocks.AddSound` | crates/apps/rugix-ctrl/src/payload_db.rs:93-122 | added to a sound database, an index panics exactly if it has fewer hashes than sizes; otherwise exactly its blocks become known, and the database is sound with the surplus hashes of this index, of which there are none exactly if it has one hash for every size |
| `SoundBlocks.FindSound` | crates/apps/rugix-ctrl/src/payload_db.rs:132-142 | queries of a sound database never panic, also with surplus hashes at the end; they find the first known block with the hash, with its file, offset and size, and nothing exactly if there is none |
| `SoundBlocks.EachSound` | crates/apps/rugix-ctrl/src/payload_db.rs:65-142 | if all indices but the last one have one hash for every size, adding them panics exactly if the last one has too few, and otherwise gives a sound database with the blocks of all of them |
| `SoundBlocks.EachNumbered` | crates/apps/rugix-ctrl/src/payload_db.rs:93-122 | whatever indices are added, there are never more dimensions than whole hashes, and entries are for files there are |
| `SoundBlocks.ConfusedExample` | crates/apps/rugix-ctrl/src/payload_db.rs:93-142 | after an index with two hashes and one size, the block of the next file, whose index is right, makes its query panic |
| `SoundBlocks.IndexedFileTruthful` | crates/apps/rugix-ctrl/src/payload_db.rs:65-142 | the stored index of a file that is unchanged makes only truthful blocks known: every known range has the digest it is found under |
| `PayloadDb.AddAllIsEach` | crates/apps/rugix-ctrl/src/cli.rs:907-926 | adding files is adding the indices that are used, and nothing else |
| `PayloadDb.UsedExactly` | crates/apps/rugix-ctrl/src/payload_db.rs:70-92 | the indices used are exactly those that decide, by position, for one of the files |
| `PayloadDb.UpToDateReliable` | crates/apps/rugix-ctrl/src/cli.rs:907-926 | if the indices made with the wanted algorithms are up to date, whatever others there are, adding files does not panic, the blocks of every index used become known, and everything known is true of the contents of the files |
| `PayloadDb.KnownExactly` | crates/apps/rugix-ctrl/src/cli.rs:907-926 | a hash is known exactly if it was before or an index that is used lists it |
| `PayloadDb.FoundExactly` | crates/apps/rugix-ctrl/src/cli.rs:907-926 | with up-to-date indices, a query finds a block if and only if for some file the first wanted index that is one loads and lists the hash; and the range found has the hash |
| `IndexFiles.LoadStored` | crates/apps/rugix-ctrl/src/payload_db.rs:79-92 | a stored index is loaded as it was, exactly if its charge is within the limit |
| `IndexFiles.LoadInBytes` | crates/apps/rugix-ctrl/src/payload_db.rs:79-92 | a stored index that fits into memory is loaded as it was |
| `IndexFiles.LoadTree` | crates/apps/rugix-ctrl/src/payload_db.rs:79-92 | a file with any tree of an index that fits into memory, unknown trees included, is loaded exactly if the tree is nested no more than 16 levels deep and means an index |
| `IndexFiles.LoadExactly` | crates/apps/rugix-ctrl/src/payload_db.rs:83-90 | a file that begins with an atom head is something else exactly if that is not the start of an index; an empty file is an error |
| `IndexFiles.LoadIndexFile` | crates/apps/rugix-ctrl/src/payload_db.rs:79-92 | loading tells apart files that are not indices, indices that cannot be decoded, and indices with their hashes and sizes |
| `IndexFiles.EncodeIndex` | crates/libs/rugix-bundle/src/block_encoding/block_index.rs:129-145 | an index is stored as the structure with its hashes and its sizes truncated to 32 bits |
| `IndexFiles.StoredIndexOf` | crates/libs/rugix-bundle/src/block_encoding/block_index.rs:129-145 | for the index of any file no size is truncated: what is stored describes exactly the blocks of the file |
| `HttpSources.HttpSource.constructor` | crates/apps/rugix-ctrl/src/http_source.rs:154-188 | a source is at position 0 with the given response and nothing counted |
| `HttpSources.GetWithRetry` | crates/apps/rugix-ctrl/src/http_source.rs:86-117 | a request ends as the specified attempts do, after as many of them |
| `HttpEvents.AnsweredExactly` | crates/apps/rugix-ctrl/src/http_source.rs:86-117 | a request is answered if and only if all attempts before the first answer fail with errors that may pass, and are at most as many as the retries; and then with that answer |
| `HttpEvents.ReadsExactly` | crates/apps/rugix-ctrl/src/http_source.rs:328-380 | on the network alone: a read in range mode within the file comes through if and only if some event gives bytes of a response, and every event before can be survived: answers are accepted, and broken bodies and refused requests since the last answer are never more than the retries; it then uses exactly the events up to that one |
| `HttpEvents.SkipsExactly` | crates/apps/rugix-ctrl/src/http_source.rs:283-321 | skipping within a response stops when all is skipped, or at the first event that gives nothing; the response is then given up, and skipping fails exactly if it has broken and there are no retries left |
| `HttpSources.Open` | crates/apps/rugix-ctrl/src/http_source.rs:125-190 | by what the network does: opening panics exactly if the server tells a length of zero, fails exactly if else the second request is not answered, and otherwise gives a source at the start with the bytes of the response; it follows the file exactly if the length told is right, and is then in step exactly if the first chunk was answered with a range, or the file is no longer than the chunk, or ranges are not used |
| `HttpSources.SkipAfterWholeFile` | crates/apps/rugix-ctrl/src/http_source.rs:263-283 | when the first chunk is answered with the whole file, reading beyond the chunk and skipping inside the file makes the next read panic |
| `HttpSources.HttpSource.SmoothlyReads` | crates/apps/rugix-ctrl/src/http_source.rs:263-381 | without trouble, a read within the file comes through, with at most three events more than bytes to skip |
| `HttpSources.HttpSource.FetchRangeWithRetry` | crates/apps/rugix-ctrl/src/http_source.rs:201-259 | a request succeeds exactly if it is answered within the retries, by a partial response that does not contradict the expected length; it then gives the bytes of the range and resets the retries, and uses exactly the events of its attempts |
| `HttpSources.HttpSource.SkipByReading` | crates/apps/rugix-ctrl/src/http_source.rs:283-321 | skipped bytes within the chunk are read and dropped; what could not be read is returned and the response given up, or skipping fails, exactly as the network has it |
| `HttpSources.HttpSource.MakeSkips` | crates/apps/rugix-ctrl/src/http_source.rs:265-327 | skips move the position by their length and keep every byte counted as read or skipped, those beyond the chunk or without a response as skipped; a subtraction underflows exactly if a skip is pending and the position is behind the end of the chunk; otherwise they fail exactly as the network has it |
| `HttpSources.HttpSource.NextChunk` | crates/apps/rugix-ctrl/src/http_source.rs:329-349 | the next range begins at the position and reaches exactly as far as the minimum chunk, the read and the hint ask for, within the file; or the position is the end of the file; an assertion fails exactly if the position is beyond the end |
| `HttpSources.HttpSource.ReadResponse` | crates/apps/rugix-ctrl/src/http_source.rs:350-379 | bytes are taken from the response at the position; an ended response, or one that breaks with retries left, is given up without losing the position; it fails exactly if the read cannot come through |
| `HttpSources.HttpSource.Read` | crates/apps/rugix-ctrl/src/http_source.rs:263-381 | for every behaviour of the network, a read that does not panic succeeds exactly if it comes through, over any number of lost responses, and leaves the events and the retries behind it; it returns what the file has at the caller's position, and nothing only at the end of the file; it panics exactly if ranges are used and a skip is pending with the position behind the end of the chunk, or the caller has skipped beyond the end of the file: for a source in step exactly the latter; and a source in step stays in step |
| `HttpSources.HttpSource.HintNextChunk` | crates/apps/rugix-ctrl/src/http_source.rs:383-387 | a hint that is not zero is recorded from the position on, and does not change it |
| `HttpSources.HttpSource.Skip` | crates/apps/rugix-ctrl/src/http_source.rs:389-392 | a skip moves the caller's position, and nothing else happens |
| `HttpSources.HttpSource.BytesRead` | crates/apps/rugix-ctrl/src/http_source.rs:394-398 | the bytes read, skipped and still to be skipped add up to the caller's position |
| `HttpSources.HttpSource.ReadExact` | crates/libs/rugix-bundle/src/source.rs:35-44 | reading exactly a number of bytes gives the bytes of the file at the caller's position, over all reconnects, and succeeds without trouble; it panics exactly if the first read does |
| `Pipes.PipeIsFifo` | crates/libs/rugix-common/src/pipe.rs:33-112 | over every interleaving, what is delivered is a prefix of what was accepted, the rest is in the buffer, and the buffer never exceeds the capacity |
| `Pipes.StepKeeps` | crates/libs/rugix-common/src/pipe.rs:33-112 | every step of either thread keeps the invariant, by which no thread sleeps while it could go on |
| `Pipes.WriteProgress` | crates/libs/rugix-common/src/pipe.rs:67-90 | over reachable states, a write that does not sleep hands over all its bytes, or as many of the first as fill the buffer, and says how many; it sleeps exactly while the buffer is full and the reader there, and fails exactly if the reader has gone, and then hands over nothing |
| `Pipes.ReadProgress` | crates/libs/rugix-common/src/pipe.rs:33-50 | over reachable states, a read that does not sleep gets as many bytes as it wants or all there are, the next ones accepted; it sleeps exactly while there are none and the writer is there |
| `Pipes.EndOfStream` | crates/libs/rugix-common/src/pipe.rs:33-50 | a reader that asks for bytes and gets none has got everything that is ever accepted, and the writer is closed |
| `Pipes.FlushMeansDrained` | crates/libs/rugix-common/src/pipe.rs:92-102 | a flush succeeds exactly if everything accepted is delivered, and fails exactly if the reader is gone and something is left |
| `Pipes.NoDeadlock` | crates/libs/rugix-common/src/pipe.rs:33-112 | a state with both threads asleep is reachable if and only if the capacity is zero |
| `Pipes.Deadlock` | crates/libs/rugix-common/src/pipe.rs:33-112 | without capacity, a read and a write suffice to get stuck |
| `Pipes.SleeperIsHelped` | crates/libs/rugix-common/src/pipe.rs:33-112 | a sleeping thread has an open other end and the other thread awake, and whatever is handed over, taken or closed wakes it |
| `Pipes.DeliveredGrows` | crates/libs/rugix-common/src/pipe.rs:33-91 | what has been accepted and delivered is never taken back |
| `Pipes.NothingAfterClose` | crates/libs/rugix-common/src/pipe.rs:105-112 | once the writer is closed nothing is accepted any more |
| `Pipes.PipeState.Read` | crates/libs/rugix-common/src/pipe.rs:33-50 | under the lock, the oldest bytes are taken off the buffer one by one, or the reader waits exactly if the buffer is empty and the writer open |
| `Pipes.PipeState.Write` | crates/libs/rugix-common/src/pipe.rs:67-90 | under the lock, as many bytes as fit are appended, or the writer waits exactly if there is no space, or fails exactly if the reader is gone |
| `Pipes.PipeState.Flush` | crates/libs/rugix-common/src/pipe.rs:92-102 | under the lock, a flush waits, fails or succeeds by the buffer and the reader |
| `AppManagers.AppManager.DoSwitch` | crates/apps/rugix-ctrl/src/apps/manager.rs:366-468 | a switch, cut off or failing anywhere, keeps all generations and a recorded current one, and ends well only with exactly the resources of the generation named by the state, if it begins with those of its generations; it refines its step function |
| `AppManagers.AppManager.FinishSwitch` | crates/apps/rugix-ctrl/src/apps/manager.rs:400-468 | activation with cleanup and rollback refines its step function, on all its error paths |
| `AppManagers.AppManager.RunActivate` | crates/apps/rugix-ctrl/src/apps/manager.rs:471-501 | when activation ends well, the state names the generation, its resources are set up and its activation is recorded; it refines its step function |
| `AppManagers.AppManager.RunDeactivate` | crates/apps/rugix-ctrl/src/apps/manager.rs:504-527 | deactivation changes nothing but the resources of the generation, which are torn down when it ends well; it refines its step function |
| `AppManagers.AppManager.RecoverApp` | crates/apps/rugix-ctrl/src/apps/manager.rs:118-171 | recovery keeps all generations and a recorded current one, and gets an interrupted switch to exactly the right resources if it ends well; it refines its step function |
| `AppManagers.AppManager.ChangeWorkload` | crates/apps/rugix-ctrl/src/apps/manager.rs:535-579 | the generation is active again whatever the orchestrator's outcome, exactly if the state could be written, or not even be changed; all ends well exactly if the orchestrator's operation does, too |
| `AppRuns.WorkloadEndsActive` | crates/apps/rugix-ctrl/src/apps/manager.rs:535-579 | the same of the step function: the outcome of the orchestrator does not matter for the state |
| `AppManagers.AppManager.ActivateGeneration` | crates/apps/rugix-ctrl/src/apps/manager.rs:335-348 | an incomplete generation is rejected and nothing happens; otherwise it is switched to from the current one, with exactly the outcomes of a switch; from a settled state, if it ends well, the new generation or the one that was current is active, and exactly it is set up; and a recorded current generation is kept, however it ends |
| `AppManagers.AppManager.Deactivate` | crates/apps/rugix-ctrl/src/apps/manager.rs:353-359 | when a deactivation ends well the app is inactive, and from a settled state nothing is set up; a recorded current generation is kept otherwise |
| `AppManagers.AppManager.StartApp` | crates/apps/rugix-ctrl/src/apps/manager.rs:535-553 | starting ends with the generation active under the same exact condition |
| `AppManagers.AppManager.StopApp` | crates/apps/rugix-ctrl/src/apps/manager.rs:561-579 | stopping ends with the generation active under the same exact condition |
| `AppManagers.AppManager.Rollback` | crates/apps/rugix-ctrl/src/apps/manager.rs:725-744 | without an earlier generation that was active nothing happens; otherwise the last such one is activated, with all that activation promises |
| `AppManagers.AppManager.InstallGeneration` | crates/apps/rugix-ctrl/src/apps/manager.rs:197-243 | an installation, however it ends, gets a number above all existing ones, leaves all existing generations as they were, and keeps a recorded current one; if it ends well, the new generation is complete, and from a settled state it or the one that was current is active and alone |
| `AppManagers.AppManager.NextGenerationNumber` | crates/apps/rugix-ctrl/src/apps/manager.rs:211-227 | the next number is one more than the highest, in whatever order the directory is read |
| `AppManagers.AppManager.RemoveGeneration` | crates/apps/rugix-ctrl/src/apps/manager.rs:750-757 | a removal, however it ends, leaves the generation as it was, incomplete, or gone |
| `AppManagers.AppManager.CollectGarbage` | crates/apps/rugix-ctrl/src/apps/manager.rs:766-807 | collection keeps a recorded current generation, and with successful removals leaves exactly it and the `keep` highest others with recorded activations, unchanged |
| `AppManagers.AppManager.RemoveApp` | crates/apps/rugix-ctrl/src/apps/manager.rs:812-823 | removing an app keeps a recorded current generation, however it ends; it refines its step function |
| `AppSteps.NextNumber` | crates/apps/rugix-ctrl/src/apps/manager.rs:211-227 | the next number exceeds every existing one and is 1 or one more than an existing one |
| `AppSteps.PreviousActivated` | crates/apps/rugix-ctrl/src/apps/manager.rs:725-736 | the highest lower number with a recorded activation, and none exactly if there is none |
| `AppSafety.SwitchFacts` | crates/apps/rugix-ctrl/src/apps/manager.rs:366-501 | a switch, however it ends or is cut off, keeps all generations and records, and a current generation that exists and is recorded |
| `AppSafety.SwitchExact` | crates/apps/rugix-ctrl/src/apps/manager.rs:366-501 | a switch from the resources of its two generations gets, if it ends well, to exactly those of the generation named by the state, and otherwise has none but theirs set up |
| `AppSafety.CrashSafeSwitch` | crates/apps/rugix-ctrl/src/apps/manager.rs:118-131 | a switch cut off by any number of power cuts and resumed after each, with deactivation never failing, ends well only with exactly the generation named by the state set up, or none |
| `AppSafety.RecordedSwitchArrives` | crates/apps/rugix-ctrl/src/apps/manager.rs:118-131 | when nothing fails, a recorded switch ends with the new generation, or with none if there is none, however often it is cut off; never with an error and never with the old one |
| `AppSafety.SwitchSucceeds` | crates/apps/rugix-ctrl/src/apps/manager.rs:366-501 | without trouble, a switch ends well with the new generation |
| `AppSafety.BrokenIsRolledBack` | crates/apps/rugix-ctrl/src/apps/manager.rs:407-452 | when the new generation cannot be loaded, a switch ends well with the old one |
| `AppOutcomes.SwitchEnds` | crates/apps/rugix-ctrl/src/apps/manager.rs:366-468 | a switch that is not cut off ends with the new generation exactly if that can be set up, by loadability, metadata and the steps it takes; otherwise with the old one exactly if that is complete and can be set up again; and otherwise fails, with the error recorded exactly if possible; whether the old generation can be deactivated does not matter |
| `AppOutcomes.ActivationArrivesAlone` | crates/apps/rugix-ctrl/src/apps/manager.rs:335-468 | without trouble, activating a sound generation while another is current ends with it active and exactly its resources set up; and if it cannot be loaded, with the other one |
| `AppOutcomes.RollbackArrives` | crates/apps/rugix-ctrl/src/apps/manager.rs:725-744 | without trouble, going back ends with the last earlier generation that was active, alone |
| `AppOutcomes.InstallationArrives` | crates/apps/rugix-ctrl/src/apps/manager.rs:197-243 | without trouble, an installed generation is active and alone; if its manifest cannot be loaded, the one that was current is |
| `AppOutcomes.DeactivationEnds` | crates/apps/rugix-ctrl/src/apps/manager.rs:353-404 | from a settled state, a deactivation that ends well leaves nothing set up, and it does without trouble |
| `AppOutcomes.SwitchRecovered` | crates/apps/rugix-ctrl/src/apps/manager.rs:118-131 | recovery of an interrupted switch ends exactly as a switch does |
| `AppOutcomes.WorkloadRecovered` | crates/apps/rugix-ctrl/src/apps/manager.rs:132-146 | recovery of an interrupted start or stop repeats it, and makes the generation active again exactly if that can be recorded, whatever the orchestrator does; nothing else changes |
| `AppOutcomes.WorkloadCutOff` | crates/apps/rugix-ctrl/src/apps/manager.rs:535-579 | the state says whether a start or a stop was cut off, until the generation is active again |
| `AppRuns.AlwaysSafe` | crates/apps/rugix-ctrl/src/apps/manager.rs:118-823 | over all runs of all operations, with failures and power cuts anywhere, the current generation exists and records an activation |
| `AppRuns.InstallIsNew` | crates/apps/rugix-ctrl/src/apps/manager.rs:197-227 | an installation gets a number above all existing ones and leaves all existing generations as they were |
| `AppRuns.CompleteIsInstalled` | crates/apps/rugix-ctrl/src/apps/manager.rs:245-261 | a generation is complete only with its payloads and its metadata, however the installation ends or is cut off |
| `AppRuns.InterruptedRemoval` | crates/apps/rugix-ctrl/src/apps/manager.rs:746-757 | a removal that fails or is cut off leaves the generation as it was, or incomplete |
| `AppRuns.RemovalAfterDeactivation` | crates/apps/rugix-ctrl/src/apps/manager.rs:812-823 | while a generation is current, removing an app has removed nothing |
| `AppCollection.GcExact` | crates/apps/rugix-ctrl/src/apps/manager.rs:766-807 | with successful removals, collection leaves exactly the current generation and the `keep` highest others with recorded activations, unchanged |
| `AppCollection.AboveSize` | crates/apps/rugix-ctrl/src/apps/manager.rs:786-792 | in an ascending list, the number of elements above one is given by its place |
| `AppResidue.RecoveryInError` | crates/apps/rugix-ctrl/src/apps/manager.rs:147-166 | recovery from the error state never fails, and leaves the app in it exactly if, by loadability, metadata and the next steps, neither the generation tried first nor the other one can be activated |
| `AppResidue.ErrorRecoveryExact` | crates/apps/rugix-ctrl/src/apps/manager.rs:147-166 | recovery that leaves the error state activates the generation tried first, or the other one if that fails, and exactly its resources are set up if and only if no other was set up before or by the failing first attempt |
| `AppResidue.FallbackLeavesResidue` | crates/apps/rugix-ctrl/src/apps/manager.rs:156-165 | a run in which the fallback leaves two generations set up |
| `AppResidue.FailedDeactivation` | crates/apps/rugix-ctrl/src/apps/manager.rs:383-404 | a deactivation leaves the app in the middle of a switch exactly if the switch is recorded and then the generation cannot be loaded, its orchestrator fails, or the end cannot be recorded |
| `AppResidue.ActivationWithoutCurrent` | crates/apps/rugix-ctrl/src/apps/manager.rs:335-348 | an activation while no generation is current sets up exactly its resources if and only if nothing else was set up |
| `AppResidue.DeactivationLeavesResidue` | crates/apps/rugix-ctrl/src/apps/manager.rs:350-396 | a run in which a failed deactivation followed by an activation leaves two generations set up |
| `AppResidue.RemovalExactly` | crates/apps/rugix-ctrl/src/apps/manager.rs:812-823 | removing an app takes down exactly the resources of a current generation that exists: no resources stay behind if and only if no others were set up |
| `AppResidue.RemovalLeavesResidue` | crates/apps/rugix-ctrl/src/apps/manager.rs:812-823 | a run in which an app is removed after a failed deactivation and its generation stays set up |

## Left out

- Casync.CasyncChunker.Scan: holds for every table of 256 hash words and every discriminator between the minimum and the maximum size; the program's table and its floating-point formula for the discriminator are not modelled.
- BundleSource.Source.Skip: models skipping by reading; a seeking source may move beyond the end of a file without an error.
- StlvReader.Skip: fails when a value is longer than what is left, as sources that skip by reading do.
- Codec.ForwardCompatible: both encodings are within the limits; `Codec.DecodeTree` says exactly when an encoding is.
- BundlePacking.SigningAppends: is about files that packing and signing write; optional atoms between header and payloads other than signatures are dropped by signing.
- BundleBuilder.Pack: the leading fields of the header (manifest, incremental flag, hash algorithm) are given as values; reading them from a bundle directory and delta encoding are not modelled.
- BlockEncoding.EncodePayloadFile: the worker threads and channels are modelled by the order in which results are delivered, which can be any; a panic of a worker is not modelled.
- PayloadReader.DecodeInto: the target starts at position 0; progress callbacks and hints to the source are not modelled. Reading a repeated block needs a target that can read blocks, as files can.
- PayloadDb.BlockProvider.AddIndices: after a panic nothing is said about the tables.
- Decoder.Decoder.DecodeItem: a panic is an error like any other: a `bool` or an integer given as a segment, too few block sizes, or bytes that are not XZ are not told apart from bytes that are rejected.
- BlockIndexing.NewChunker: a fixed block size of zero is an error like other options that are not usable; the program panics on it.
- HttpSources.Open: the total length told by the server and the status of its answers are what is modelled of its headers; the declared content length without range requests is not used. An underflow is a panic, as with overflow checks.
- PayloadDb.BlockProvider.Query: the hash table is a map, whose keys are compared as the program compares hashes; its internals are not modelled.
- HttpSources.HttpSource.Read: 64-bit overflow of positions and counters and the waiting time between retries are not modelled. The server is assumed to serve the range it says it does. Calls after a failed call are not covered, as the caller gives up then.
- Pipes.PipeIsFifo: the capacity of the buffer is fixed; it is the one the buffer is allocated with.
- AppManagers.AppManager.RecoverApp: whether a workload runs is not part of the model, so that starting and stopping differ only in the state that is recorded; reading the state file does not fail in the model, and a write of it that fails leaves the old state.
- AppManagers.AppManager.InstallGeneration: installs one app; writing payload files is one step that may leave anything. The number of a generation in its metadata is that of its directory. Wrap-around of 64-bit numbers is not modelled.
- AppManagers.AppManager.CollectGarbage: the list of removed generations is not returned, and listing and sorting the directory is one step.
- AppSafety.CrashSafeSwitch: resumes until the app is in the error state; `AppResidue.ErrorRecoveryExact` is about recovery from there.
- Real files, threads and locks, XZ, digests, JSON, TOML and UTF-8.
- Chunker names, size parsing and printing, and the pretty printer of bundles.
- The public key infrastructure, delta encoding of payloads, boot flows, partitioning, file system and device helpers, environment codecs, command line and daemons.
- `num_blocks` of a block index returns the byte length of the hashes; blocks are counted by their offsets here, as iteration does.
