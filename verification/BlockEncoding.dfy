/** Encoding a payload: deduplicate the blocks, compress them in parallel, and restore their order. */
module BlockEncoding {
  import opened Base
  import opened Chunking
  import opened Chunkers
  import opened BlockIndexing

  /** A compressor of which only the round trip is known. Uncompressing other bytes may fail. */
  datatype Xz = Xz(compress: seq<byte> -> seq<byte>, uncompress: seq<byte> -> Result<seq<byte>>) {
    ghost predicate Valid() {
      forall bytes :: uncompress(compress(bytes)) == Ok(bytes)
    }
  }

  datatype Config = Config(algorithm: HashAlgorithm, chunking: Algorithm, deduplicate: bool, compression: Option<Xz>) {
    /** Hashes have their size, and compression can be undone. */
    ghost predicate Sound() {
      algorithm.Valid() && (compression.Some? ==> compression.value.Valid())
    }

    ghost predicate Valid() {
      Sound() && chunking.Valid()
    }

    function Compress(bytes: seq<byte>): seq<byte> {
      if compression.Some? then compression.value.compress(bytes) else bytes
    }

    function Uncompress(bytes: seq<byte>): Result<seq<byte>> {
      if compression.Some? then compression.value.uncompress(bytes) else Ok(bytes)
    }

    /** Sizes are left out if every stored block but the last has the block size. */
    predicate IncludesSizes() {
      !chunking.Fixed? || compression.Some?
    }

    ghost function Blocks(payload: seq<byte>): seq<seq<byte>>
      requires chunking.Valid()
    {
      Chunks(chunking.Rule(), [], payload)
    }
  }

  /** The block has no earlier occurrence, as far as hashes tell. */
  predicate Fresh(hashes: seq<seq<byte>>, i: nat)
    requires i < |hashes|
  {
    forall j :: 0 <= j < i ==> hashes[j] != hashes[i]
  }

  /** The blocks among the first `n` whose data goes into the bundle. */
  function Sent(deduplicate: bool, hashes: seq<seq<byte>>, blocks: seq<seq<byte>>, n: nat): seq<seq<byte>>
    requires n <= |blocks| == |hashes|
  {
    if n == 0 then []
    else
      Sent(deduplicate, hashes, blocks, n - 1)
      + if !deduplicate || Fresh(hashes, n - 1) then [blocks[n - 1]] else []
  }

  function SentBlocks(config: Config, blocks: seq<seq<byte>>): seq<seq<byte>> {
    Sent(config.deduplicate, Hashes(config.algorithm, blocks), blocks, |blocks|)
  }

  function CompressAll(config: Config, blocks: seq<seq<byte>>): seq<seq<byte>> {
    seq(|blocks|, i requires 0 <= i < |blocks| => config.Compress(blocks[i]))
  }

  /** A 32-bit integer in big-endian order. */
  function EncodeU32(n: nat): seq<byte>
    requires n < 0x1_0000_0000
  {
    [n / 0x100_0000, n / 0x1_0000 % 0x100, n / 0x100 % 0x100, n % 0x100]
  }

  predicate AllU32(sizes: seq<nat>) {
    forall i :: 0 <= i < |sizes| ==> sizes[i] < 0x1_0000_0000
  }

  function EncodeSizes(sizes: seq<nat>): seq<byte>
    requires AllU32(sizes)
  {
    if sizes == [] then [] else EncodeSizes(sizes[..|sizes| - 1]) + EncodeU32(sizes[|sizes| - 1])
  }

  /** What the payload header records about the encoding, besides the configuration. */
  datatype Encoding = Encoding(blockHashes: seq<byte>, blockSizes: Option<seq<byte>>)

  /** The encoding and the data of a payload with the given blocks. The program panics if stored
      blocks do not fit 32-bit sizes that it has to include. */
  function Encoded(config: Config, blocks: seq<seq<byte>>): Result<(Encoding, seq<byte>)> {
    var stored := CompressAll(config, SentBlocks(config, blocks));
    if config.IncludesSizes() && !AllU32(Sizes(stored)) then Err
    else
      Ok((Encoding(config.Compress(Flatten(Hashes(config.algorithm, blocks))),
                   if config.IncludesSizes() then Some(config.Compress(EncodeSizes(Sizes(stored)))) else None),
          Flatten(stored)))
  }

  /** Sizes are left out exactly for blocks of a fixed size that are not compressed. The data is made of the stored
      blocks, each compressed by itself if there is compression. */
  lemma EncodedExactly(config: Config, blocks: seq<seq<byte>>)
    requires Encoded(config, blocks).Ok?
    ensures var (encoding, data) := Encoded(config, blocks).value;
      (encoding.blockSizes == None <==> config.chunking.Fixed? && config.compression == None) &&
      match config.compression
      case None => data == Flatten(SentBlocks(config, blocks))
      case Some(xz) => data == Flatten(Mapped(xz.compress, SentBlocks(config, blocks)))
  {
    var sent := SentBlocks(config, blocks);
    match config.compression
    case None => assert CompressAll(config, sent) == sent;
    case Some(xz) => assert CompressAll(config, sent) == Mapped(xz.compress, sent);
  }

  function Mapped(f: seq<byte> -> seq<byte>, blocks: seq<seq<byte>>): seq<seq<byte>> {
    seq(|blocks|, i requires 0 <= i < |blocks| => f(blocks[i]))
  }

  ghost predicate Distinct(hashes: seq<seq<byte>>) {
    forall i, j :: 0 <= i < j < |hashes| ==> hashes[i] != hashes[j]
  }

  /** Encoding a payload fails exactly if a stored block has 4 GiB or more after compression. */
  lemma EncodableExactly(config: Config, payload: seq<byte>)
    requires config.Valid()
    ensures Encoded(config, config.Blocks(payload)).Ok? <==>
      forall xz, b :: config.compression == Some(xz) && b in SentBlocks(config, config.Blocks(payload)) ==>
        |xz.compress(b)| < 0x1_0000_0000
  {
    var blocks := config.Blocks(payload);
    var sent := SentBlocks(config, blocks);
    ChunksAreChunking(config.chunking.Rule(), [], payload);
    BlocksFitU32(config.chunking, blocks);
    SentAmong(config.deduplicate, Hashes(config.algorithm, blocks), blocks, |blocks|);
    var sizes := Sizes(CompressAll(config, sent));
    assert forall i :: 0 <= i < |sent| ==> sent[i] in sent && sizes[i] == |config.Compress(sent[i])|;
  }

  lemma {:induction false} SentAmong(deduplicate: bool, hashes: seq<seq<byte>>, blocks: seq<seq<byte>>, n: nat)
    requires n <= |blocks| == |hashes|
    ensures forall b :: b in Sent(deduplicate, hashes, blocks, n) ==> b in blocks
  {
    if n > 0 {
      SentAmong(deduplicate, hashes, blocks, n - 1);
    }
  }

  /** With deduplication, every hash is stored for exactly one block; without, every block is stored. */
  lemma StoredExactly(config: Config, blocks: seq<seq<byte>>)
    ensures var stored := SentBlocks(config, blocks);
      if config.deduplicate then
        Distinct(Hashes(config.algorithm, stored)) &&
        forall h :: h in Hashes(config.algorithm, stored) <==> h in Hashes(config.algorithm, blocks)
      else stored == blocks
  {
    var hashes := Hashes(config.algorithm, blocks);
    if config.deduplicate {
      SentOnce(config.algorithm, blocks, |blocks|);
      assert hashes[..|blocks|] == hashes;
    } else {
      AllSent(hashes, blocks, |blocks|);
      assert blocks[..|blocks|] == blocks;
    }
  }

  lemma {:induction false} AllSent(hashes: seq<seq<byte>>, blocks: seq<seq<byte>>, n: nat)
    requires n <= |blocks| == |hashes|
    ensures Sent(false, hashes, blocks, n) == blocks[..n]
  {
    if n > 0 {
      AllSent(hashes, blocks, n - 1);
    }
  }

  lemma {:induction false} SentOnce(algorithm: HashAlgorithm, blocks: seq<seq<byte>>, n: nat)
    requires n <= |blocks|
    ensures var hashes := Hashes(algorithm, blocks);
      var stored := Hashes(algorithm, Sent(true, hashes, blocks, n));
      Distinct(stored) && forall h :: h in stored <==> h in hashes[..n]
  {
    if n > 0 {
      var hashes := Hashes(algorithm, blocks);
      var before := Sent(true, hashes, blocks, n - 1);
      SentOnce(algorithm, blocks, n - 1);
      FreshExactly(hashes, n - 1);
      assert hashes[..n] == hashes[..n - 1] + [hashes[n - 1]];
      if Fresh(hashes, n - 1) {
        assert Sent(true, hashes, blocks, n) == before + [blocks[n - 1]];
        assert Hashes(algorithm, before + [blocks[n - 1]]) == Hashes(algorithm, before) + [hashes[n - 1]];
        DistinctPush(Hashes(algorithm, before), hashes[n - 1]);
      } else {
        assert Sent(true, hashes, blocks, n) == before + [] == before;
      }
    }
  }

  lemma DistinctPush(hashes: seq<seq<byte>>, hash: seq<byte>)
    requires Distinct(hashes) && hash !in hashes
    ensures Distinct(hashes + [hash])
  {
  }

  lemma FreshExactly(hashes: seq<seq<byte>>, i: nat)
    requires i < |hashes|
    ensures Fresh(hashes, i) <==> hashes[i] !in hashes[..i]
  {
  }

  /** Hash table of blocks, from their hash to the first block with it. */
  class BlockTable {
    var table: map<seq<byte>, nat>

    constructor ()
      ensures table == map[]
    {
      table := map[];
    }

    /** The table knows the first occurrence of exactly the first `n` hashes. */
    ghost predicate Knows(hashes: seq<seq<byte>>, n: nat)
      reads this
      requires n <= |hashes|
    {
      (forall i :: 0 <= i < n ==> hashes[i] in table) &&
      (forall h :: h in table ==> table[h] < n && hashes[table[h]] == h && Fresh(hashes, table[h]))
    }

    /** Insert a block unless its hash is there already. Tells whether it was inserted. */
    method Insert(algorithm: HashAlgorithm, index: seq<byte>, block: nat, ghost hashes: seq<seq<byte>>)
      returns (inserted: bool)
      requires block < |hashes| && Knows(hashes, block)
      requires HashAt(algorithm, index, block) == hashes[block]
      modifies this
      ensures Knows(hashes, block + 1) && inserted == Fresh(hashes, block)
    {
      var hash := HashAt(algorithm, index, block);
      if hash in table {
        return false;
      }
      table := table[hash := block];
      return true;
    }

    /** Find the first of the inserted blocks with a hash, if there is one. */
    method Get(hash: seq<byte>, ghost hashes: seq<seq<byte>>, ghost n: nat) returns (r: Option<nat>)
      requires n <= |hashes| && Knows(hashes, n)
      ensures match r
        case Some(i) => i < n && hashes[i] == hash && Fresh(hashes, i)
        case None => forall i :: 0 <= i < n ==> hashes[i] != hash
    {
      r := if hash in table then Some(table[hash]) else None;
    }
  }

  /** Every index below `n` is delivered exactly once. */
  ghost predicate Permutation(order: seq<nat>, n: nat) {
    |order| == n && (forall i :: 0 <= i < n ==> order[i] < n) &&
    (forall i, j :: 0 <= i < j < n ==> order[i] != order[j])
  }

  function Indices(order: seq<nat>, n: nat): set<nat>
    requires n <= |order|
  {
    set i | 0 <= i < n :: order[i]
  }

  lemma {:induction false} IndicesCount(order: seq<nat>, n: nat, i: nat)
    requires Permutation(order, n) && i <= n
    ensures |Indices(order, i)| == i
  {
    if i > 0 {
      IndicesCount(order, n, i - 1);
      assert Indices(order, i) == Indices(order, i - 1) + {order[i - 1]};
    }
  }

  function Below(n: nat): (s: set<nat>)
    ensures |s| == n && forall k :: k in s <==> 0 <= k < n
  {
    if n == 0 then {} else Below(n - 1) + {n - 1}
  }

  lemma SubsetOfSameSize(a: set<nat>, b: set<nat>)
    requires a <= b && |a| == |b|
    ensures a == b
  {
    if x :| x in b && x !in a {
      SmallerSubset(a, b - {x});
    }
  }

  lemma {:induction false} SmallerSubset(a: set<nat>, b: set<nat>)
    requires a <= b
    ensures |a| <= |b|
  {
    if a != {} {
      var x :| x in a;
      SmallerSubset(a - {x}, b - {x});
    }
  }

  lemma AllDelivered(order: seq<nat>, n: nat)
    requires Permutation(order, n)
    ensures Indices(order, n) == Below(n)
  {
    IndicesCount(order, n, n);
    SubsetOfSameSize(Indices(order, n), Below(n));
  }

  lemma {:induction false} LeastKeyBelow(m: map<nat, seq<byte>>, k: nat) returns (least: nat)
    requires k in m
    ensures least in m && forall j :: j in m ==> least <= j
    decreases k
  {
    if j :| j in m && j < k {
      least := LeastKeyBelow(m, j);
    } else {
      least := k;
    }
  }

  /** The first key of an ordered map. */
  function FirstKey(m: map<nat, seq<byte>>): (k: nat)
    requires m != map[]
    ensures k in m && forall j :: j in m ==> k <= j
  {
    assert exists k :: k in m && forall j :: j in m ==> k <= j by {
      var k :| k in m;
      var least := LeastKeyBelow(m, k);
    }
    var k :| k in m && forall j :: j in m ==> k <= j;
    k
  }

  /** What the receiving loop knows after some deliveries: blocks below `next` are written in order,
      all other delivered blocks wait in the buffer. */
  ghost predicate Receiving(items: seq<seq<byte>>, delivered: set<nat>, buffer: map<nat, seq<byte>>,
                            next: nat, data: seq<byte>, sizes: seq<nat>)
  {
    next <= |items| && data == Flatten(items[..next]) && sizes == Sizes(items[..next]) &&
    (forall k: nat :: k < next ==> k in delivered) &&
    (forall k :: k in delivered ==> k < |items| && (k < next || k in buffer)) &&
    (forall k :: k in buffer ==> k in delivered && next <= k < |items| && buffer[k] == items[k])
  }

  /** Write out the waiting blocks that continue the sequence. */
  method WriteReady(buffer: map<nat, seq<byte>>, next: nat, data: seq<byte>, sizes: seq<nat>,
                    ghost items: seq<seq<byte>>, ghost delivered: set<nat>)
    returns (buffer': map<nat, seq<byte>>, next': nat, data': seq<byte>, sizes': seq<nat>)
    requires Receiving(items, delivered, buffer, next, data, sizes)
    ensures Receiving(items, delivered, buffer', next', data', sizes') && next' !in buffer'
  {
    buffer', next', data', sizes' := buffer, next, data, sizes;
    while buffer' != map[] && FirstKey(buffer') == next'
      invariant Receiving(items, delivered, buffer', next', data', sizes')
      decreases |items| - next'
    {
      var block := buffer'[next'];
      WrittenOneMore(items, next');
      data' := data' + block;
      sizes' := sizes' + [|block|];
      buffer' := buffer' - {next'};
      next' := next' + 1;
    }
  }

  lemma WrittenOneMore(items: seq<seq<byte>>, n: nat)
    requires n < |items|
    ensures Flatten(items[..n + 1]) == Flatten(items[..n]) + items[n]
    ensures Sizes(items[..n + 1]) == Sizes(items[..n]) + [|items[n]|]
  {
    assert items[..n + 1] == items[..n] + [items[n]];
    FlattenPush(items[..n], items[n]);
  }

  /** Receive blocks in any order of delivery: they are written in the order they were sent, and
      nothing is left waiting. */
  method ReceiveInOrder(items: seq<seq<byte>>, order: seq<nat>) returns (data: seq<byte>, sizes: seq<nat>)
    requires Permutation(order, |items|)
    ensures data == Flatten(items) && sizes == Sizes(items)
  {
    var buffer: map<nat, seq<byte>> := map[];
    var next: nat := 0;
    data, sizes := [], [];
    for i := 0 to |order|
      invariant Receiving(items, Indices(order, i), buffer, next, data, sizes) && next !in buffer
    {
      var index, block := order[i], items[order[i]];
      assert index !in Indices(order, i);
      assert Indices(order, i + 1) == Indices(order, i) + {index};
      buffer := buffer[index := block];
      buffer, next, data, sizes := WriteReady(buffer, next, data, sizes, items, Indices(order, i + 1));
    }
    AllDelivered(order, |items|);
    assert next == |items|;
    assert buffer == map[];
    assert items[..next] == items;
  }

  lemma SentOneMore(config: Config, hashes: seq<seq<byte>>, blocks: seq<seq<byte>>, n: nat)
    requires n < |blocks| == |hashes|
    ensures CompressAll(config, Sent(config.deduplicate, hashes, blocks, n + 1))
         == CompressAll(config, Sent(config.deduplicate, hashes, blocks, n))
            + SentAt(config, hashes, blocks, n)
  {
  }

  /** What is sent of a block. */
  function SentAt(config: Config, hashes: seq<seq<byte>>, blocks: seq<seq<byte>>, n: nat): seq<seq<byte>>
    requires n < |blocks| == |hashes|
  {
    if !config.deduplicate || Fresh(hashes, n) then [config.Compress(blocks[n])] else []
  }

  /** Send the blocks that are not deduplicated to the workers, and collect the workers' results
      by the order of sending. */
  method SendBlocks(config: Config, buffers: seq<seq<byte>>, index: BlockIndex) returns (items: seq<seq<byte>>)
    requires config.Valid() && Indexes(config.algorithm, index, config.Blocks(Flatten(buffers)))
    ensures items == CompressAll(config, SentBlocks(config, config.Blocks(Flatten(buffers))))
  {
    ghost var blocks := config.Blocks(Flatten(buffers));
    ghost var hashes := Hashes(config.algorithm, blocks);
    var table := new BlockTable();
    items := [];
    for block := 0 to |index.offsets|
      invariant config.deduplicate ==> table.Knows(hashes, block)
      invariant items == CompressAll(config, Sent(config.deduplicate, hashes, blocks, block))
    {
      var sent := SendBlock(config, buffers, index, table, block, hashes);
      SentOneMore(config, hashes, blocks, block);
      items := items + sent;
    }
  }

  /** Send a block to a worker, unless it is deduplicated. */
  method SendBlock(config: Config, buffers: seq<seq<byte>>, index: BlockIndex, table: BlockTable, block: nat,
                   ghost hashes: seq<seq<byte>>)
    returns (sent: seq<seq<byte>>)
    requires config.Valid() && Indexes(config.algorithm, index, config.Blocks(Flatten(buffers)))
    requires block < |index.offsets| && hashes == Hashes(config.algorithm, config.Blocks(Flatten(buffers)))
    requires config.deduplicate ==> table.Knows(hashes, block)
    modifies table
    ensures config.deduplicate ==> table.Knows(hashes, block + 1)
    ensures sent == SentAt(config, hashes, config.Blocks(Flatten(buffers)), block)
  {
    if config.deduplicate {
      HashesAt(config.algorithm, hashes, block);
      var inserted := table.Insert(config.algorithm, index.hashes, block, hashes);
      if !inserted {
        return [];
      }
    }
    var item := Worker(config, buffers, index, block);
    return [item];
  }

  /** Encode a payload file read in arbitrary buffers, with the workers delivering in any order. Without a
      chunker, encoding fails. */
  method EncodePayloadFile(config: Config, buffers: seq<seq<byte>>, order: seq<nat>)
    returns (r: Result<(Encoding, seq<byte>)>)
    requires config.Sound() && forall buffer :: buffer in buffers ==> buffer != []
    requires config.chunking.Valid() ==>
      Permutation(order, |SentBlocks(config, config.Blocks(Flatten(buffers)))|)
    ensures r == if config.chunking.Valid() then Encoded(config, config.Blocks(Flatten(buffers))) else Err
  {
    var index :- ComputeBlockIndex(config.algorithm, config.chunking, buffers);
    var items := SendBlocks(config, buffers, index);
    var data, sizes := ReceiveInOrder(items, order);
    if config.IncludesSizes() && !AllU32(sizes) {
      return Err;
    }
    var blockHashes := config.Compress(index.hashes);
    var blockSizes := if config.IncludesSizes() then Some(config.Compress(EncodeSizes(sizes))) else None;
    return Ok((Encoding(blockHashes, blockSizes), data));
  }

  /** Read a block from the payload file and compress it. */
  method Worker(config: Config, buffers: seq<seq<byte>>, index: BlockIndex, block: nat) returns (data: seq<byte>)
    requires config.Valid()
    requires Indexes(config.algorithm, index, config.Blocks(Flatten(buffers))) && block < |index.offsets|
    ensures data == config.Compress(config.Blocks(Flatten(buffers))[block])
  {
    var payload := Flatten(buffers);
    ghost var blocks := config.Blocks(payload);
    IndexSound(config.algorithm, config.chunking, payload, index, block);
    ChunksAreChunking(config.chunking.Rule(), [], payload);
    BlockAt(blocks, block);
    assert [] + payload == payload;
    data := config.Compress(payload[index.offsets[block]..index.offsets[block] + index.sizes[block]]);
  }
}
