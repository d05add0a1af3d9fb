/** Stored block indices of local files. */
module IndexFiles {
  import opened Base
  import opened BundleSource
  import opened Stlv
  import opened Schema
  import opened Codec
  import opened Limits
  import opened Format
  import opened Chunking
  import opened Chunkers
  import opened BlockIndexing
  import opened BlockEncoding
  import Decoder
  import Tags

  const INDEX_DEPTH: nat := 16
  const INDEX_SIZE: nat := 0xffff_ffff_ffff_ffff

  /** What an index file is: not an index at all, an index that cannot be decoded, or an index with the
      hashes and the 32-bit sizes of all blocks of a data file. */
  datatype IndexFile = NotAnIndex | Undecodable | Index(hashes: seq<byte>, sizes: seq<byte>)

  /** What the bytes of an index file are. */
  function Load(r: Registry, bytes: seq<byte>): IndexFile {
    match NextHead(State(bytes, INDEX_DEPTH, INDEX_SIZE))
    case Err => Undecodable
    case Ok((head, st)) =>
      if head != Start(Tags.BLOCK_INDEX) then NotAnIndex
      else Interpreted(r, DecodeItem(r.BlockIndex(), head, st), head, st)
  }

  function Interpreted(r: Registry, decoded: Result<(Val, State)>, head: AtomHead, st: State): IndexFile
    requires head.Writable() && decoded == DecodeItem(r.BlockIndex(), head, st)
  {
    if decoded.Err? then Undecodable
    else
      DecodedHasType(r.BlockIndex(), head, st);
      FromVal(r, decoded.value.0)
  }

  function FromVal(r: Registry, v: Val): IndexFile
    requires HasType(r.BlockIndex(), v)
  {
    assert forall i :: 0 <= i < 4 ==> HasType(r.BlockIndex().fields[i].item, v.values[i][0]);
    Index(v.values[2][0].raw, v.values[3][0].raw)
  }

  /** Load an index file. */
  method LoadIndexFile(r: Registry, bytes: seq<byte>) returns (file: IndexFile)
    ensures file == Load(r, bytes)
  {
    var source := new Source(bytes);
    var decoder := new Decoder.Decoder(source, INDEX_DEPTH, INDEX_SIZE);
    var head := decoder.NextAtomHead();
    if head.Err? {
      return Undecodable;
    }
    if head.value != Start(Tags.BLOCK_INDEX) {
      return NotAnIndex;
    }
    ghost var st := decoder.St();
    var v := decoder.DecodeItem(r.BlockIndex(), head.value);
    if v.Err? {
      return Undecodable;
    }
    DecodedHasType(r.BlockIndex(), head.value, st);
    return FromVal(r, v.value);
  }

  /** The structure of an index file. */
  function IndexVal(chunker: seq<byte>, hashAlgorithm: seq<byte>, hashes: seq<byte>, sizes: seq<byte>): Val {
    Record([[Bytes(chunker)], [Bytes(hashAlgorithm)], [Bytes(hashes)], [Bytes(sizes)]])
  }

  /** Sizes are stored as 32-bit integers, and lose their higher bits. */
  function Truncated(sizes: seq<nat>): (r: seq<nat>)
    ensures AllU32(r) && |r| == |sizes|
    ensures AllU32(sizes) ==> r == sizes
  {
    seq(|sizes|, i requires 0 <= i < |sizes| => sizes[i] % 0x1_0000_0000)
  }

  /** Encode the sizes of the blocks. */
  method EncodeBlockSizes(sizes: seq<nat>) returns (r: seq<byte>)
    ensures r == EncodeSizes(Truncated(sizes))
  {
    r := [];
    var truncated := Truncated(sizes);
    for i := 0 to |sizes|
      invariant r == EncodeSizes(truncated[..i])
    {
      assert truncated[..i + 1][..i] == truncated[..i];
      r := r + EncodeU32(sizes[i] % 0x1_0000_0000);
    }
    assert truncated[..|sizes|] == truncated;
  }

  /** Encode an index for storage. */
  method EncodeIndex(r: Registry, chunker: seq<byte>, hashAlgorithm: seq<byte>, index: BlockIndex)
    returns (bytes: seq<byte>)
    requires HasType(r.BlockIndex(),
                     IndexVal(chunker, hashAlgorithm, index.hashes, EncodeSizes(Truncated(index.sizes))))
    ensures bytes == Serialize(ToNode(r.BlockIndex(),
      IndexVal(chunker, hashAlgorithm, index.hashes, EncodeSizes(Truncated(index.sizes))), Tags.BLOCK_INDEX))
  {
    var sizes := EncodeBlockSizes(index.sizes);
    var v := IndexVal(chunker, hashAlgorithm, index.hashes, sizes);
    bytes := Decoder.Encode([], r.BlockIndex(), v, Tags.BLOCK_INDEX);
  }

  /** An index that is stored is loaded as it was, exactly if its charge is within the limit. */
  lemma LoadStored(r: Registry, chunker: seq<byte>, hashAlgorithm: seq<byte>, hashes: seq<byte>, sizes: seq<byte>)
    requires HasType(r.BlockIndex(), IndexVal(chunker, hashAlgorithm, hashes, sizes))
    ensures var node := ToNode(r.BlockIndex(), IndexVal(chunker, hashAlgorithm, hashes, sizes), Tags.BLOCK_INDEX);
      Load(r, Serialize(node))
      == if Charge(r.BlockIndex(), node) <= INDEX_SIZE then Index(hashes, sizes) else Undecodable
  {
    var v := IndexVal(chunker, hashAlgorithm, hashes, sizes);
    var node := ToNode(r.BlockIndex(), v, Tags.BLOCK_INDEX);
    var st := State(Serialize(node), INDEX_DEPTH, INDEX_SIZE);
    BlocksWellFormed(r);
    assert Serialize(node) + [] == Serialize(node);
    IndexHeight(r, v);
    RoundTrip(r.BlockIndex(), v, Tags.BLOCK_INDEX, st, []);
    HeadOfTree(node, st, []);
  }

  /** An index that fits into memory is loaded as it was. */
  lemma LoadInBytes(r: Registry, chunker: seq<byte>, hashAlgorithm: seq<byte>, hashes: seq<byte>, sizes: seq<byte>)
    requires HasType(r.BlockIndex(), IndexVal(chunker, hashAlgorithm, hashes, sizes))
    requires var v := IndexVal(chunker, hashAlgorithm, hashes, sizes);
      |Serialize(ToNode(r.BlockIndex(), v, Tags.BLOCK_INDEX))| <= MAX_MEMORY
    ensures var v := IndexVal(chunker, hashAlgorithm, hashes, sizes);
      Load(r, Serialize(ToNode(r.BlockIndex(), v, Tags.BLOCK_INDEX))) == Index(hashes, sizes)
  {
    var node := ToNode(r.BlockIndex(), IndexVal(chunker, hashAlgorithm, hashes, sizes), Tags.BLOCK_INDEX);
    LoadStored(r, chunker, hashAlgorithm, hashes, sizes);
    ChargeAtMostTwice(r.BlockIndex(), node);
    SizeExact(node);
  }

  /** A file with the tree of an index that fits into memory, whatever unknown trees it has, is loaded exactly if
      the tree is nested no more than 16 levels deep and means an index. */
  lemma LoadTree(r: Registry, children: seq<Node>)
    requires |Serialize(Segment(Tags.BLOCK_INDEX, children))| <= MAX_MEMORY
    ensures var node := Segment(Tags.BLOCK_INDEX, children);
      Load(r, Serialize(node)).Index? <==> Height(node) <= 16 && TreeDecode(r.BlockIndex(), node).Ok?
  {
    var node := Segment(Tags.BLOCK_INDEX, children);
    var st := State(Serialize(node), INDEX_DEPTH, INDEX_SIZE);
    ChargeAtMostTwice(r.BlockIndex(), node);
    SizeExact(node);
    assert Serialize(node) + [] == Serialize(node);
    HeadOfTree(node, st, []);
    DecodeTree(r.BlockIndex(), node, st, []);
  }

  /** A file that begins with a head is something else exactly if that is another head than that of an index. An
      empty file cannot be decoded. */
  lemma LoadExactly(r: Registry, head: AtomHead, rest: seq<byte>)
    requires head.Writable() && head.AtomSize() <= INDEX_SIZE
    ensures Load(r, EncodeHead(head) + rest) == NotAnIndex <==> head != Start(Tags.BLOCK_INDEX)
    ensures Load(r, []) == Undecodable
  {
    ReadEncodeHead(head, rest);
    NextHeadOf(head, State(EncodeHead(head) + rest, INDEX_DEPTH, INDEX_SIZE), rest);
  }

  lemma IndexHeight(r: Registry, v: Val)
    requires HasType(r.BlockIndex(), v)
    ensures Height(ToNode(r.BlockIndex(), v, Tags.BLOCK_INDEX)) <= 2
  {
    LeavesOnly(r, v, 0, 0);
  }

  lemma {:induction false} LeavesOnly(r: Registry, v: Val, i: nat, j: nat)
    requires HasType(r.BlockIndex(), v) && i <= 4 && (if i < 4 then j <= |v.values[i]| else j == 0)
    ensures ForestHeight(FieldNodes(r.BlockIndex().fields, v, i, j)) == 0
    decreases 4 - i, if i < 4 then |v.values[i]| - j else 0
  {
    if i < 4 {
      if j == |v.values[i]| {
        LeavesOnly(r, v, i + 1, 0);
      } else {
        LeavesOnly(r, v, i, j + 1);
      }
    }
  }

  /** The stored form of the index of a file's blocks. */
  function IndexFileFor(algorithm: HashAlgorithm, blocks: seq<seq<byte>>): IndexFile
    requires AllU32(Sizes(blocks))
  {
    Index(Flatten(Hashes(algorithm, blocks)), EncodeSizes(Sizes(blocks)))
  }

  /** The index that is stored for a file describes its blocks: no size is truncated. */
  lemma StoredIndexOf(algorithm: HashAlgorithm, chunking: Algorithm, contents: seq<byte>, index: BlockIndex)
    requires chunking.Valid() && Indexes(algorithm, index, Chunks(chunking.Rule(), [], contents))
    ensures var blocks := Chunks(chunking.Rule(), [], contents);
      AllU32(Sizes(blocks)) && Flatten(blocks) == contents &&
      Index(index.hashes, EncodeSizes(Truncated(index.sizes))) == IndexFileFor(algorithm, blocks)
  {
    ChunksAreChunking(chunking.Rule(), [], contents);
    BlocksFitU32(chunking, Chunks(chunking.Rule(), [], contents));
    assert [] + contents == contents;
  }
}
