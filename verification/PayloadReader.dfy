/** Decoding a payload into a target file, as it works on the source and the file. */
module PayloadReader {
  import opened Base
  import opened BundleSource
  import opened BlockIndexing
  import opened BlockEncoding
  import opened PayloadDecoding
  import opened Sections
  import opened Stlv
  import Tags

  /** A file or block device with a position. It may have had contents before. */
  class FileTarget {
    var contents: seq<byte>
    var pos: nat

    ghost predicate Valid()
      reads this
    {
      pos <= |contents|
    }

    /** What has been written, if writing began at the start of the file. */
    ghost function Written(): seq<byte>
      reads this
      requires Valid()
    {
      contents[..pos]
    }

    constructor (contents: seq<byte>)
      ensures Valid() && this.contents == contents && pos == 0
    {
      this.contents := contents;
      pos := 0;
    }

    /** Overwrite or extend the file at its position. */
    method Write(bytes: seq<byte>)
      requires Valid()
      modifies this
      ensures Valid() && Written() == old(Written()) + bytes
      ensures |contents| >= |old(contents)| && contents[pos..] == old(contents)[Min(pos, |old(contents)|)..]
    {
      var end := pos + |bytes|;
      contents := contents[..pos] + bytes + contents[Min(end, |contents|)..];
      pos := end;
    }

    /** Read a block that has been written, and return to the position for writing. */
    method ReadBlock(offset: nat, size: nat) returns (r: Result<seq<byte>>)
      requires Valid()
      modifies this`pos
      ensures Valid() && pos == old(pos)
      ensures r == if offset + size <= |contents| then Ok(contents[offset..offset + size]) else Err
    {
      var position := pos;
      pos := Min(offset, |contents|);
      if offset + size > |contents| {
        pos := position;
        return Err;
      }
      r := Ok(contents[pos..pos + size]);
      pos := position;
    }
  }

  /** Decodes the data of one payload. */
  class BlockDecoder {
    const source: Source
    const target: FileTarget
    const setup: Setup
    /** The uncompressed hashes, stored back to back. */
    const rawHashes: seq<byte>
    const table: BlockTable
    var remainingData: nat
    var nextSizeIdx: nat
    var currentTargetOffset: nat
    var targetOffsets: seq<nat>
    var targetSizes: seq<nat>
    ghost var blocks: seq<seq<byte>>

    constructor (source: Source, target: FileTarget, setup: Setup, rawHashes: seq<byte>, remainingData: nat)
      requires source.Valid() && target.Valid() && target.pos == 0
      requires 0 < setup.config.algorithm.size && setup.hashes == SplitHashes(setup.config.algorithm, rawHashes)
      ensures Valid() && Progress() == Begin(source.Rest(), remainingData) && fresh(table)
      ensures this.source == source && this.target == target && this.setup == setup && this.rawHashes == rawHashes
    {
      this.source, this.target, this.setup, this.rawHashes := source, target, setup, rawHashes;
      table := new BlockTable();
      this.remainingData, nextSizeIdx, currentTargetOffset := remainingData, 0, 0;
      targetOffsets, targetSizes, blocks := [], [], [];
    }

    /** The target holds the blocks written so far, at the recorded offsets. */
    ghost predicate Ready()
      reads this, source, target
    {
      source.Valid() && target.Valid() && 0 < setup.config.algorithm.size &&
      setup.hashes == SplitHashes(setup.config.algorithm, rawHashes) &&
      target.Written() == Flatten(blocks) && |blocks| <= |setup.hashes| &&
      currentTargetOffset == |Flatten(blocks)| &&
      targetOffsets == Offsets(blocks) && targetSizes == Sizes(blocks)
    }

    ghost predicate Valid()
      reads this, source, target, table
    {
      Ready() && table.Knows(setup.hashes, |blocks|)
    }

    ghost function Progress(): PayloadDecoding.Progress
      reads this, source, target
      requires Ready()
    {
      PayloadDecoding.Progress(blocks, source.Rest(), remainingData, nextSizeIdx)
    }

    /** Determine the size of the next block in the bundle. */
    method BlockSize() returns (r: Result<nat>)
      requires Ready()
      modifies this`nextSizeIdx
      ensures Ready() && r == NextSize(setup, old(Progress()))
      ensures r.Ok? ==> Progress() == old(Progress()).(nextSize := old(nextSizeIdx) + 1)
    {
      var size: nat;
      if setup.sizes.Some? {
        if nextSizeIdx >= |setup.sizes.value| {
          return Err;
        }
        size := setup.sizes.value[nextSizeIdx];
      } else if setup.config.chunking.Fixed? {
        size := setup.config.chunking.blockSize;
      } else {
        return Err;
      }
      nextSizeIdx := nextSizeIdx + 1;
      return Ok(Min(size, remainingData));
    }

    /** Skip the next bytes of payload data. */
    method SkipData(size: nat) returns (r: Result<()>)
      requires Ready() && size <= remainingData
      modifies source`pos, this`remainingData
      ensures Ready()
      ensures if size <= |old(source.Rest())|
        then r == Ok(())
          && Progress() == old(Progress()).(rest := old(source.Rest())[size..], remaining := old(remainingData) - size)
        else r == Err
    {
      r := source.Skip(size);
      remainingData := remainingData - size;
    }

    /** Read the next bytes of payload data. */
    method ReadData(size: nat) returns (r: Result<seq<byte>>)
      requires Ready() && size <= remainingData
      modifies source`pos, this`remainingData
      ensures Ready()
      ensures if size <= |old(source.Rest())|
        then r == Ok(old(source.Rest())[..size])
          && Progress() == old(Progress()).(rest := old(source.Rest())[size..], remaining := old(remainingData) - size)
        else r == Err
    {
      r := source.ReadExact(size);
      remainingData := remainingData - size;
    }

    /** Read a block from the bundle and verify it. */
    method FromBundle(size: nat, hash: seq<byte>) returns (r: Result<seq<byte>>)
      requires Ready() && size <= remainingData
      modifies source`pos, this`remainingData
      ensures Ready()
      ensures r.Ok? ==>
        size <= |old(source.Rest())| &&
        Progress() == old(Progress()).(rest := old(source.Rest())[size..], remaining := old(remainingData) - size)
      ensures r == if size > |old(source.Rest())| then Err
        else match setup.config.Uncompress(old(source.Rest())[..size])
          case Ok(block) => if setup.config.algorithm.digest(block) == hash then Ok(block) else Err
          case Err => Err
    {
      var raw := ReadData(size);
      if raw.Err? {
        return Err;
      }
      var block := setup.config.Uncompress(raw.value);
      if block.Err? || setup.config.algorithm.digest(block.value) != hash {
        return Err;
      }
      return block;
    }

    /** Get a block of known size from the store, or else from the bundle. */
    method TakeBlock(size: nat, hash: seq<byte>, answer: Answer) returns (r: Result<seq<byte>>)
      requires Ready() && size <= remainingData
      modifies source`pos, this`remainingData
      ensures Ready()
      ensures match Take(setup.config, old(Progress()), size, hash, answer)
        case Ok((block, p)) => r == Ok(block) && Progress() == p
        case Err => r == Err
    {
      if answer == Unreadable {
        return Err;
      }
      if answer.StoredBlock? && setup.config.algorithm.digest(answer.bytes) == hash {
        var skipped := SkipData(size);
        return if skipped.Err? then Err else Ok(answer.bytes);
      }
      r := FromBundle(size, hash);
    }

    /** Get the next block from the store, or else from the bundle. */
    method Fetch(hash: seq<byte>, answer: Answer) returns (r: Result<seq<byte>>)
      requires Ready()
      modifies source`pos, this`remainingData, this`nextSizeIdx
      ensures Ready()
      ensures match PayloadDecoding.Fetch(setup, old(Progress()), hash, answer)
        case Ok((block, p)) => r == Ok(block) && Progress() == p
        case Err => r == Err
    {
      var size := BlockSize();
      if size.Err? {
        return Err;
      }
      r := TakeBlock(size.value, hash, answer);
    }

    /** Read a deduplicated block back from the target. */
    method Copy(first: nat, hash: seq<byte>) returns (r: Result<seq<byte>>)
      requires Ready() && first < |blocks|
      modifies target`pos
      ensures Ready() && Progress() == old(Progress())
      ensures r == if setup.config.algorithm.digest(blocks[first]) == hash then Ok(blocks[first]) else Err
    {
      var offset, size := targetOffsets[first], targetSizes[first];
      Layout(blocks, first);
      assert target.contents[offset..offset + size] == target.Written()[offset..offset + size];
      var block := target.ReadBlock(offset, size);
      if setup.config.algorithm.digest(block.value) != hash {
        return Err;
      }
      return block;
    }

    /** Write a block to the target and record where it is. */
    method Append(block: seq<byte>)
      requires Ready() && |blocks| < |setup.hashes|
      modifies this`currentTargetOffset, this`targetOffsets, this`targetSizes, this`blocks, target
      ensures Ready() && Progress() == old(Progress()).(blocks := old(blocks) + [block])
    {
      FlattenPush(blocks, block);
      OffsetsPush(blocks, block);
      targetOffsets := targetOffsets + [currentTargetOffset];
      targetSizes := targetSizes + [|block|];
      currentTargetOffset := currentTargetOffset + |block|;
      target.Write(block);
      blocks := blocks + [block];
    }

    /** Enter the next block into the table, and find the first block with its hash. */
    method Locate() returns (hash: seq<byte>, isFresh: bool, firstIdx: nat)
      requires Valid() && |blocks| < |setup.hashes|
      modifies table
      ensures Ready() && Progress() == old(Progress()) && table.Knows(setup.hashes, |blocks| + 1)
      ensures hash == setup.hashes[|blocks|] && isFresh == Fresh(setup.hashes, |blocks|)
      ensures !isFresh ==>
        hash in setup.hashes[..|blocks|] && firstIdx == FirstIndex(setup.hashes[..|blocks|], hash) < |blocks|
    {
      var idx := |targetOffsets|;
      SplitAt(setup.config.algorithm, rawHashes, idx);
      hash := HashAt(setup.config.algorithm, rawHashes, idx);
      isFresh := table.Insert(setup.config.algorithm, rawHashes, idx, setup.hashes);
      var first := table.Get(hash, setup.hashes, idx + 1);
      assert first.Some?;
      firstIdx := first.value;
      FirstOccurrence(setup.hashes, idx, firstIdx);
    }

    /** Decode the next block: the program asserts that a block that is not fresh has its first
        occurrence before it. */
    method DecodeBlock(answer: Answer) returns (ok: bool)
      requires Valid() && |blocks| < |setup.hashes|
      modifies this, source`pos, target, table
      ensures match Step(setup, old(Progress()), answer)
        case Ok(p) => ok && Valid() && Progress() == p
        case Err => !ok
    {
      var hash, isFresh, firstIdx := Locate();
      var block;
      if isFresh || !setup.config.deduplicate {
        block := Fetch(hash, answer);
      } else {
        assert firstIdx < |targetOffsets|;
        block := Copy(firstIdx, hash);
      }
      if block.Err? {
        return false;
      }
      Append(block.value);
      return true;
    }

    /** Decode the next block of a run. */
    method DecodeNext(ghost start: PayloadDecoding.Progress, answers: Store) returns (ok: bool)
      requires Valid() && |blocks| < |setup.hashes| && start.blocks == []
      requires Run(setup, start, answers, |blocks|) == Ok(Progress())
      modifies this, source`pos, target, table
      ensures ok ==>
        Valid() && |blocks| == |old(blocks)| + 1 && Run(setup, start, answers, |blocks|) == Ok(Progress())
      ensures !ok ==> Run(setup, start, answers, |setup.hashes|) == Err
    {
      ghost var n := |blocks|;
      RunOne(setup, start, Progress(), answers, n);
      ok := DecodeBlock(answers(|targetOffsets|));
      if !ok {
        RunStops(setup, start, answers, n + 1, |setup.hashes|);
      }
    }

    /** Decode all blocks. */
    method DecodeBlocks(answers: Store) returns (r: Result<()>)
      requires Valid() && blocks == []
      modifies this, source`pos, target, table
      ensures match Run(setup, old(Progress()), answers, |setup.hashes|)
        case Ok(p) => r == Ok(()) && Valid() && Progress() == p
        case Err => r == Err
    {
      ghost var start := Progress();
      for i := 0 to |setup.hashes|
        invariant Valid() && |blocks| == i && Run(setup, start, answers, |blocks|) == Ok(Progress())
      {
        var ok := DecodeNext(start, answers);
        if !ok {
          return Err;
        }
      }
      return Ok(());
    }
  }

  lemma RunOne(setup: Setup, start: Progress, p: Progress, answers: Store, n: nat)
    requires start.blocks == [] && n < |setup.hashes| && Run(setup, start, answers, n) == Ok(p)
    ensures |p.blocks| == n && Run(setup, start, answers, n + 1) == Step(setup, p, answers(n))
  {
  }

  lemma OffsetsPush(blocks: seq<seq<byte>>, block: seq<byte>)
    ensures Offsets(blocks + [block]) == Offsets(blocks) + [|Flatten(blocks)|]
    ensures Sizes(blocks + [block]) == Sizes(blocks) + [|block|]
  {
    assert (blocks + [block])[..|blocks|] == blocks;
    forall i | 0 <= i < |blocks|
      ensures (blocks + [block])[..i] == blocks[..i]
    {
    }
  }

  /** The first occurrence of a hash is the block itself or the first among the earlier ones. */
  lemma FirstOccurrence(hashes: seq<seq<byte>>, i: nat, first: nat)
    requires i < |hashes| && first <= i && hashes[first] == hashes[i] && Fresh(hashes, first)
    ensures Fresh(hashes, i) <==> first == i
    ensures first < i ==> hashes[i] in hashes[..i] && FirstIndex(hashes[..i], hashes[i]) == first
  {
    if first < i {
      assert hashes[..i][first] == hashes[i];
      var k := FirstIndex(hashes[..i], hashes[i]);
      assert hashes[k] == hashes[i];
    }
  }

  /** How a payload is block encoded, if it is. */
  type BlockEncoded = e: Option<(Config, Encoding)> | e.Some? ==> 0 < e.value.0.algorithm.size witness None

  /** Decode the data of a payload: block by block, or as it is if it has no block encoding. */
  function DecodeData(encoding: BlockEncoded, rest: seq<byte>, length: nat, answers: Store):
    Result<(seq<byte>, seq<byte>)>
  {
    if encoding.Some? then
      var setup :- Prepare(encoding.value.0, encoding.value.1);
      var p :- Run(setup, Begin(rest, length), answers, |setup.hashes|);
      Ok((Flatten(p.blocks), p.rest))
    else
      var n := Min(length, |rest|);
      Ok((rest[..n], rest[n..]))
  }

  /** Decode a payload, check it as a whole, and leave its segment: the payload and what follows. */
  function DecodePayload(encoding: BlockEncoded, rest: seq<byte>, length: nat, answers: Store,
                         digest: Digest, fileHash: seq<byte>): (r: Result<(seq<byte>, seq<byte>)>)
    ensures r.Ok? ==> digest(r.value.0) == fileHash
  {
    var (payload, rest') :- DecodeData(encoding, rest, length, answers);
    if digest(payload) != fileHash then Err
    else
      var (_, rest'') :- SkipUntil(GoalEnd(Tags.PAYLOAD), rest');
      Ok((payload, rest''))
  }

  lemma {:induction false} RunStops(setup: Setup, start: PayloadDecoding.Progress, answers: Store, n: nat, m: nat)
    requires start.blocks == [] && n <= m <= |setup.hashes| && Run(setup, start, answers, n) == Err
    ensures Run(setup, start, answers, m) == Err
  {
    if n < m {
      RunStops(setup, start, answers, n, m - 1);
    }
  }

  /** Copy a payload without block encoding. */
  method CopyData(source: Source, target: FileTarget, length: nat)
    requires source.Valid() && target.Valid() && target.pos == 0
    modifies source`pos, target
    ensures source.Valid() && target.Valid()
    ensures var n := Min(length, |old(source.Rest())|);
      target.Written() == old(source.Rest())[..n] && source.Rest() == old(source.Rest())[n..]
  {
    var remaining: nat := length;
    while true
      invariant source.Valid() && target.Valid() && |target.Written()| + remaining == length
      invariant old(source.Rest()) == target.Written() + source.Rest()
      decreases remaining
    {
      var chunk := source.Read(Min(8192, remaining));
      if chunk == [] {
        break;
      }
      remaining := remaining - |chunk|;
      target.Write(chunk);
    }
  }

  /** Decode the payload at the source into the target. On success the target begins with the
      payload, and the source is just behind the payload's segment. */
  method DecodeInto(source: Source, target: FileTarget, encoding: BlockEncoded, length: nat,
                    answers: Store, digest: Digest, fileHash: seq<byte>) returns (r: Result<nat>)
    requires source.Valid() && target.Valid() && target.pos == 0
    modifies source`pos, target
    ensures match DecodePayload(encoding, old(source.Rest()), length, answers, digest, fileHash)
      case Ok((payload, rest)) => r == Ok(|payload|) && source.Valid() && target.Valid()
        && target.Written() == payload && source.Rest() == rest
      case Err => r == Err
  {
    if encoding.Some? {
      var (config, blockEncoding) := encoding.value;
      var raw := config.Uncompress(blockEncoding.blockHashes);
      var setup := Prepare(config, blockEncoding);
      if setup.Err? {
        return Err;
      }
      var decoder := new BlockDecoder(source, target, setup.value, raw.value, length);
      var decoded := decoder.DecodeBlocks(answers);
      if decoded.Err? {
        return Err;
      }
    } else {
      CopyData(source, target, length);
    }
    var payload := target.contents[..target.pos];
    if digest(payload) != fileHash {
      return Err;
    }
    var end := AdvanceUntil(source, GoalEnd(Tags.PAYLOAD));
    if end.Err? {
      return Err;
    }
    return Ok(|payload|);
  }

  /** The data of a payload in a bundle, with or without block encoding. */
  ghost function EncodeData(config: Option<Config>, payload: seq<byte>): Result<(BlockEncoded, seq<byte>)>
    requires config.Some? ==> config.value.Valid()
  {
    if config.Some? then
      var (encoding, data) :- Encoded(config.value, config.value.Blocks(payload));
      Ok((Some((config.value, encoding)), data))
    else Ok((None, payload))
  }

  /** No hash of the payload's blocks collides. */
  ghost predicate Harmless(config: Option<Config>, payload: seq<byte>, answers: Store)
    requires config.Some? ==> config.value.Valid()
  {
    config.Some? ==> NoCollision(config.value, config.value.Blocks(payload), answers)
  }

  /** The store can read every block of the payload that it is asked for. */
  ghost predicate StoreReadable(config: Option<Config>, payload: seq<byte>, answers: Store)
    requires config.Some? ==> config.value.Valid()
  {
    config.Some? ==> ReadableFor(config.value, payload, answers)
  }

  /** Round trip of a payload in a bundle: decoding its segment from the data on gives exactly the
      payload, and leaves the source just behind the segment, exactly if the store can read the blocks it is
      asked for. */
  lemma SegmentRoundTrip(config: Option<Config>, payload: seq<byte>, tail: seq<byte>, answers: Store,
                         digest: Digest)
    requires config.Some? ==> config.value.Valid()
    requires EncodeData(config, payload).Ok? && Harmless(config, payload, answers)
    ensures var (encoding, data) := EncodeData(config, payload).value;
      DecodePayload(encoding, data + (EncodeHead(End(Tags.PAYLOAD)) + tail), |data|, answers, digest, digest(payload))
      == if StoreReadable(config, payload, answers) then Ok((payload, tail)) else Err
  {
    var end := EncodeHead(End(Tags.PAYLOAD)) + tail;
    FoundAtOnce(GoalEnd(Tags.PAYLOAD), End(Tags.PAYLOAD), tail);
    if config.Some? {
      PayloadRoundTrip(config.value, payload, end, answers);
    } else {
      assert (payload + end)[..|payload|] == payload && (payload + end)[|payload|..] == end;
    }
  }
}
