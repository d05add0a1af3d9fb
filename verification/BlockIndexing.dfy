/** The block index of a payload: hash, offset and size of every block, built while streaming. */
module BlockIndexing {
  import opened Base
  import opened Chunking
  import opened Chunkers
  import Casync

  /** A digest of fixed size. Nothing else is assumed about it. */
  datatype HashAlgorithm = HashAlgorithm(size: nat, digest: Digest) {
    ghost predicate Valid() {
      0 < size && forall bytes :: |digest(bytes)| == size
    }
  }

  /** Hashes are stored back to back. */
  datatype BlockIndex = BlockIndex(hashes: seq<byte>, offsets: seq<nat>, sizes: seq<nat>)

  function Hashes(algorithm: HashAlgorithm, blocks: seq<seq<byte>>): seq<seq<byte>> {
    seq(|blocks|, i requires 0 <= i < |blocks| => algorithm.digest(blocks[i]))
  }

  function Sizes(blocks: seq<seq<byte>>): seq<nat> {
    seq(|blocks|, i requires 0 <= i < |blocks| => |blocks[i]|)
  }

  function Offsets(blocks: seq<seq<byte>>): seq<nat> {
    seq(|blocks|, i requires 0 <= i < |blocks| => |Flatten(blocks[..i])|)
  }

  /** The index describes exactly these blocks of a payload, from its start on. */
  ghost predicate Indexes(algorithm: HashAlgorithm, index: BlockIndex, blocks: seq<seq<byte>>) {
    index == BlockIndex(Flatten(Hashes(algorithm, blocks)), Offsets(blocks), Sizes(blocks))
  }

  lemma IndexPush(algorithm: HashAlgorithm, index: BlockIndex, blocks: seq<seq<byte>>, block: seq<byte>)
    requires Indexes(algorithm, index, blocks)
    ensures Indexes(algorithm,
                    BlockIndex(index.hashes + algorithm.digest(block),
                               index.offsets + [|Flatten(blocks)|], index.sizes + [|block|]),
                    blocks + [block])
  {
    FlattenPush(Hashes(algorithm, blocks), algorithm.digest(block));
    assert Hashes(algorithm, blocks + [block]) == Hashes(algorithm, blocks) + [algorithm.digest(block)];
    assert (blocks + [block])[..|blocks|] == blocks;
    forall i | 0 <= i < |blocks|
      ensures (blocks + [block])[..i] == blocks[..i]
    {
    }
    assert Offsets(blocks + [block]) == Offsets(blocks) + [|Flatten(blocks)|];
  }

  /** Block `i` of a concatenation sits between the sizes of the blocks before and after. */
  lemma {:induction false} BlockAt(blocks: seq<seq<byte>>, i: nat)
    requires i < |blocks|
    ensures var offset := |Flatten(blocks[..i])|;
      offset + |blocks[i]| <= |Flatten(blocks)| && Flatten(blocks)[offset..offset + |blocks[i]|] == blocks[i]
  {
    var before, after := blocks[..i], blocks[i + 1..];
    assert blocks == before + ([blocks[i]] + after);
    FlattenAppend(before, [blocks[i]] + after);
    assert ([blocks[i]] + after)[1..] == after;
    assert Flatten([blocks[i]] + after) == blocks[i] + Flatten(after);
  }

  /** Feeding `bytes` completes the given blocks and then amounts to feeding the rest of them. */
  ghost predicate Fed(rule: Rule, open: seq<byte>, bytes: seq<byte>,
                      completed: seq<seq<byte>>, open': seq<byte>, rest: seq<byte>)
  {
    Completed(rule, open, bytes) == completed + Completed(rule, open', rest) &&
    Pending(rule, open, bytes) == Pending(rule, open', rest)
  }

  lemma FedScan(rule: Rule, open: seq<byte>, bytes: seq<byte>, completed: seq<seq<byte>>,
                open': seq<byte>, rest: seq<byte>, boundary: Option<nat>, n: nat)
    requires Fed(rule, open, bytes, completed, open', rest) && n <= |rest|
    requires if boundary.Some? then FirstCut(rule, open', rest, n) else n == |rest| && NoCut(rule, open', rest, n)
    ensures if boundary.Some? then Fed(rule, open, bytes, completed + [open' + rest[..n]], [], rest[n..])
            else Fed(rule, open, bytes, completed, open' + rest, [])
  {
    if boundary.Some? {
      FeedCut(rule, open', rest, n);
    } else {
      FeedNoCut(rule, open', rest, n);
      assert rest[..n] == rest && rest[n..] == [];
    }
  }

  class BlockIndexBuilder {
    const algorithm: HashAlgorithm
    const chunker: AnyChunker
    /** The bytes the pending hasher has been fed. */
    var hasher: seq<byte>
    var index: BlockIndex
    var pendingOffset: nat
    var pendingSize: nat
    ghost var blocks: seq<seq<byte>>

    ghost predicate Valid()
      reads this, chunker.Repr()
    {
      this !in chunker.Repr() && chunker.Valid() && Consistent() && hasher == chunker.Open()
    }

    ghost predicate Consistent()
      reads this
    {
      Indexes(algorithm, index, blocks) &&
      pendingOffset == |Flatten(blocks)| && pendingSize == |hasher|
    }

    constructor (algorithm: HashAlgorithm, chunker: AnyChunker)
      requires chunker.Valid() && chunker.Open() == []
      ensures Valid() && this.algorithm == algorithm && this.chunker == chunker && blocks == []
    {
      this.algorithm := algorithm;
      this.chunker := chunker;
      hasher, index, pendingOffset, pendingSize := [], BlockIndex([], [], []), 0, 0;
      blocks := [];
    }

    /** Add the pending block to the index. */
    method FinalizeBlock()
      requires Consistent()
      modifies this
      ensures Consistent() && blocks == old(blocks) + [old(hasher)] && hasher == []
    {
      IndexPush(algorithm, index, blocks, hasher);
      FlattenPush(blocks, hasher);
      index := BlockIndex(index.hashes + algorithm.digest(hasher),
                          index.offsets + [pendingOffset], index.sizes + [pendingSize]);
      blocks := blocks + [hasher];
      hasher := [];
      pendingOffset := pendingOffset + pendingSize;
      pendingSize := 0;
    }

    /** Hash the next chunk of the input, and add the pending block if the chunk ends it. */
    method ProcessChunk(input: seq<byte>) returns (boundary: Option<nat>, offset: nat)
      requires Valid() && input != []
      modifies this, chunker.Repr()
      ensures Valid() && 0 < offset <= |input|
      ensures boundary.Some? ==>
        offset == boundary.value && FirstCut(chunker.Algorithm().Rule(), old(chunker.Open()), input, offset) &&
        blocks == old(blocks) + [old(chunker.Open()) + input[..offset]] && chunker.Open() == []
      ensures boundary == None ==>
        offset == |input| && NoCut(chunker.Algorithm().Rule(), old(chunker.Open()), input, offset) &&
        blocks == old(blocks) && chunker.Open() == old(chunker.Open()) + input
    {
      boundary := chunker.Scan(input);
      offset := if boundary.Some? then boundary.value else |input|;
      hasher := hasher + input[..offset];
      pendingSize := pendingSize + offset;
      if boundary.Some? {
        FinalizeBlock();
      }
    }

    /** Process the next bytes of the payload. */
    method Process(bytes: seq<byte>)
      requires Valid()
      modifies this, chunker.Repr()
      ensures Valid()
      ensures var rule := chunker.Algorithm().Rule();
        blocks == old(blocks) + Completed(rule, old(chunker.Open()), bytes) &&
        chunker.Open() == Pending(rule, old(chunker.Open()), bytes)
    {
      ghost var rule, open := chunker.Algorithm().Rule(), chunker.Open();
      ghost var completed: seq<seq<byte>> := [];
      var input := bytes;
      while input != []
        invariant Valid() && blocks == old(blocks) + completed
        invariant Fed(rule, open, bytes, completed, chunker.Open(), input)
        decreases |input|
      {
        ghost var before := chunker.Open();
        var boundary, offset := ProcessChunk(input);
        FedScan(rule, open, bytes, completed, before, input, boundary, offset);
        if boundary.Some? {
          completed := completed + [before + input[..offset]];
        }
        input := input[offset..];
      }
    }

    /** Add the last block, if it is pending, and return the index. */
    method Finalize() returns (r: BlockIndex)
      requires Valid()
      modifies this
      ensures Indexes(algorithm, r, old(blocks) + (if old(hasher) == [] then [] else [old(hasher)]))
    {
      if pendingSize > 0 {
        FinalizeBlock();
      } else {
        assert blocks + [] == blocks;
      }
      r := index;
    }
  }

  /** Make a chunker, which fails for invalid options and for a block size of zero. */
  method NewChunker(algorithm: Algorithm) returns (r: Result<AnyChunker>)
    ensures r.Ok? <==> algorithm.Valid()
    ensures r.Ok? ==>
      r.value.Valid() && r.value.Open() == [] && r.value.Algorithm() == algorithm && fresh(r.value.Repr())
  {
    if !algorithm.Valid() {
      return Err;
    }
    match algorithm
    case Content(options) =>
      var c := new Casync.CasyncChunker(options);
      return Ok(ContentDefined(c));
    case Fixed(blockSize) =>
      var c := new FixedSizeChunker(blockSize);
      return Ok(FixedSize(c));
  }

  /** Index a payload file that is read in arbitrary non-empty buffers: the index describes the
      blocks of the file, however it is split. It fails exactly if no chunker can be made. */
  method ComputeBlockIndex(algorithm: HashAlgorithm, chunking: Algorithm, buffers: seq<seq<byte>>)
    returns (r: Result<BlockIndex>)
    requires forall buffer :: buffer in buffers ==> buffer != []
    ensures r.Ok? <==> chunking.Valid()
    ensures r.Ok? ==> Indexes(algorithm, r.value, Chunks(chunking.Rule(), [], Flatten(buffers)))
  {
    var chunker :- NewChunker(chunking);
    var builder := new BlockIndexBuilder(algorithm, chunker);
    ghost var rule := chunking.Rule();
    for i := 0 to |buffers|
      invariant builder.Valid() && fresh(builder) && fresh(chunker.Repr())
      invariant builder.blocks == Completed(rule, [], Flatten(buffers[..i]))
      invariant chunker.Open() == Pending(rule, [], Flatten(buffers[..i]))
    {
      assert buffers[..i + 1] == buffers[..i] + [buffers[i]];
      FlattenPush(buffers[..i], buffers[i]);
      FeedSplit(rule, [], Flatten(buffers[..i]), buffers[i]);
      builder.Process(buffers[i]);
    }
    assert buffers[..|buffers|] == buffers;
    ChunksCompleted(rule, [], Flatten(buffers));
    var index := builder.Finalize();
    return Ok(index);
  }

  /** What the index of a payload says about it: the blocks partition the payload without gaps,
      none is empty, the recorded digests, offsets and sizes are theirs, and sizes fit 32 bits. */
  lemma IndexSound(algorithm: HashAlgorithm, chunking: Algorithm, payload: seq<byte>, index: BlockIndex, i: nat)
    requires algorithm.Valid() && chunking.Valid()
    requires Indexes(algorithm, index, Chunks(chunking.Rule(), [], payload)) && i < |index.offsets|
    ensures |index.sizes| == |index.offsets| && |index.hashes| == |index.offsets| * algorithm.size
    ensures index.offsets[i] + index.sizes[i] <= |payload| && 0 < index.sizes[i] < 0x1_0000_0000
    ensures index.offsets[i] + index.sizes[i]
         == if i + 1 < |index.offsets| then index.offsets[i + 1] else |payload|
    ensures HashAt(algorithm, index.hashes, i)
         == algorithm.digest(payload[index.offsets[i]..index.offsets[i] + index.sizes[i]])
  {
    var blocks := Chunks(chunking.Rule(), [], payload);
    ChunksAreChunking(chunking.Rule(), [], payload);
    BlocksFitU32(chunking, blocks);
    assert [] + payload == payload;
    DescribesBlock(algorithm, index, blocks, i);
  }

  lemma DescribesBlock(algorithm: HashAlgorithm, index: BlockIndex, blocks: seq<seq<byte>>, i: nat)
    requires algorithm.Valid() && Indexes(algorithm, index, blocks) && i < |blocks|
    ensures var payload := Flatten(blocks);
      |index.sizes| == |index.offsets| == |blocks| && |index.hashes| == |blocks| * algorithm.size &&
      index.sizes[i] == |blocks[i]| && index.offsets[i] + index.sizes[i] <= |payload| &&
      index.offsets[i] + index.sizes[i] == (if i + 1 < |blocks| then index.offsets[i + 1] else |payload|) &&
      payload[index.offsets[i]..index.offsets[i] + index.sizes[i]] == blocks[i] &&
      HashAt(algorithm, index.hashes, i) == algorithm.digest(blocks[i])
  {
    RangeOfBlock(blocks, i);
    HashOfBlock(algorithm, blocks, i);
  }

  lemma RangeOfBlock(blocks: seq<seq<byte>>, i: nat)
    requires i < |blocks|
    ensures var payload, offsets := Flatten(blocks), Offsets(blocks);
      offsets[i] + |blocks[i]| <= |payload| && payload[offsets[i]..offsets[i] + |blocks[i]|] == blocks[i] &&
      offsets[i] + |blocks[i]| == if i + 1 < |blocks| then offsets[i + 1] else |payload|
  {
    Layout(blocks, i);
  }

  lemma HashOfBlock(algorithm: HashAlgorithm, blocks: seq<seq<byte>>, i: nat)
    requires algorithm.Valid() && i < |blocks|
    ensures |Flatten(Hashes(algorithm, blocks))| == |blocks| * algorithm.size
    ensures HashAt(algorithm, Flatten(Hashes(algorithm, blocks)), i) == algorithm.digest(blocks[i])
  {
    HashesAt(algorithm, Hashes(algorithm, blocks), i);
  }

  /** Consecutive blocks are adjacent, and the last one ends with the payload. */
  lemma Layout(blocks: seq<seq<byte>>, i: nat)
    requires i < |blocks|
    ensures var offset, payload := |Flatten(blocks[..i])|, Flatten(blocks);
      offset + |blocks[i]| <= |payload| && payload[offset..offset + |blocks[i]|] == blocks[i] &&
      offset + |blocks[i]| == if i + 1 < |blocks| then |Flatten(blocks[..i + 1])| else |payload|
  {
    BlockAt(blocks, i);
    FlattenPush(blocks[..i], blocks[i]);
    assert blocks[..i + 1] == blocks[..i] + [blocks[i]];
    assert blocks[..|blocks|] == blocks;
  }

  function Slice(s: seq<byte>, start: nat, end: nat): seq<byte> {
    if start <= end <= |s| then s[start..end] else []
  }

  /** The hash with the given number among hashes stored back to back. */
  function HashAt(algorithm: HashAlgorithm, hashes: seq<byte>, i: nat): seq<byte> {
    Slice(hashes, i * algorithm.size, (i + 1) * algorithm.size)
  }

  lemma Times(i: nat, n: nat)
    ensures (i + 1) * n == i * n + n
  {
  }

  lemma SliceShift(s: seq<byte>, n: nat, start: nat, end: nat)
    requires n <= |s|
    ensures Slice(s, start + n, end + n) == Slice(s[n..], start, end)
  {
  }

  lemma HashAtShift(algorithm: HashAlgorithm, raw: seq<byte>, i: nat)
    requires algorithm.size <= |raw|
    ensures HashAt(algorithm, raw, i + 1) == HashAt(algorithm, raw[algorithm.size..], i)
  {
    var n := algorithm.size;
    Times(i, n);
    Times(i + 1, n);
    SliceShift(raw, n, i * n, (i + 1) * n);
  }

  lemma {:induction false} HashesAt(algorithm: HashAlgorithm, hashes: seq<seq<byte>>, i: nat)
    requires i < |hashes| && forall k :: 0 <= k < |hashes| ==> |hashes[k]| == algorithm.size
    ensures |Flatten(hashes)| == |hashes| * algorithm.size
    ensures HashAt(algorithm, Flatten(hashes), i) == hashes[i]
    decreases |hashes|
  {
    var n, tail := algorithm.size, Flatten(hashes[1..]);
    FlattenFirst(hashes);
    Times(|hashes| - 1, n);
    if |hashes| > 1 {
      HashesAt(algorithm, hashes[1..], if i == 0 then 0 else i - 1);
    }
    if i == 0 {
      Times(0, n);
      assert Flatten(hashes)[0..n] == hashes[0];
    } else {
      HashAtShift(algorithm, Flatten(hashes), i - 1);
    }
  }

  lemma FlattenFirst(parts: seq<seq<byte>>)
    requires parts != []
    ensures Flatten(parts) == parts[0] + Flatten(parts[1..]) && Flatten(parts)[|parts[0]|..] == Flatten(parts[1..])
    ensures |parts| == 1 ==> Flatten(parts[1..]) == []
  {
  }
}
