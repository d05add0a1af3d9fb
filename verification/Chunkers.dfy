/** The fixed-size chunker, and the choice between the two chunking algorithms. */
module Chunkers {
  import opened Base
  import opened Chunking
  import opened Casync
  import Buzhash

  /** Fixed-size blocks end as soon as they have the block size. */
  function FixedRule(blockSize: nat): Rule {
    block => |block| >= blockSize
  }

  class FixedSizeChunker {
    const blockSize: nat
    var remaining: nat
    ghost var open: seq<byte>

    ghost predicate Valid()
      reads this
    {
      0 < remaining && |open| + remaining == blockSize
    }

    constructor (blockSize: nat)
      requires blockSize != 0
      ensures Valid() && this.blockSize == blockSize && open == []
    {
      this.blockSize := blockSize;
      remaining := blockSize;
      open := [];
    }

    method Scan(bytes: seq<byte>) returns (r: Option<nat>)
      requires Valid()
      modifies this
      ensures Valid()
      ensures match r
        case Some(n) => FirstCut(FixedRule(blockSize), old(open), bytes, n) && open == []
        case None => NoCut(FixedRule(blockSize), old(open), bytes, |bytes|) && open == old(open) + bytes
    {
      var take := Min(remaining, |bytes|);
      remaining := remaining - take;
      if remaining == 0 {
        remaining := blockSize;
        open := [];
        return Some(take);
      } else {
        open := open + bytes;
        return None;
      }
    }
  }

  /** All blocks but the last have exactly the block size. */
  lemma FixedBlockSizes(blockSize: nat, blocks: seq<seq<byte>>)
    requires 0 < blockSize && IsChunking(FixedRule(blockSize), blocks)
    ensures forall i :: 0 <= i < |blocks| - 1 ==> |blocks[i]| == blockSize
    ensures forall i :: 0 <= i < |blocks| ==> |blocks[i]| <= blockSize
  {
    forall i | 0 <= i < |blocks|
      ensures |blocks[i]| <= blockSize
    {
      if blockSize <= |blocks[i]| {
        EndIsExact(FixedRule(blockSize), blocks[i], blockSize);
      }
    }
    forall i | 0 <= i < |blocks| - 1
      ensures |blocks[i]| >= blockSize
    {
      assert FixedRule(blockSize)(blocks[i]);
    }
  }

  /** A chunker configuration: content-defined, or fixed blocks of the given size. */
  datatype Algorithm = Content(options: Options) | Fixed(blockSize: nat) {

    /** A chunker can be made for the configuration. Not every name of an algorithm gives one. */
    predicate Valid() {
      match this
      case Content(options) => options.Valid()
      case Fixed(blockSize) => 0 < blockSize < 0x1_0000_0000
    }

    function Rule(): Rule
      requires Valid()
    {
      match this
      case Content(options) => options.Rule()
      case Fixed(blockSize) => FixedRule(blockSize)
    }
  }

  /** A chunker can be made for every size in KiB that a name can give, except zero. A content-defined one has
      blocks of a quarter of the average size to four times it. */
  lemma NamedSizesUsable(kib: nat, discriminator: nat, table: Buzhash.Table)
    requires kib <= 0xffff && kib * 1024 / 4 <= discriminator <= kib * 1024 * 4
    ensures Content(Options(kib * 1024 / 4, kib * 1024, kib * 1024 * 4, discriminator, table)).Valid() <==> kib != 0
    ensures Fixed(kib * 1024).Valid() <==> kib != 0
  {
  }

  /** Every block of either algorithm is smaller than 4 GiB. */
  lemma BlocksFitU32(algorithm: Algorithm, blocks: seq<seq<byte>>)
    requires algorithm.Valid() && IsChunking(algorithm.Rule(), blocks)
    ensures forall i :: 0 <= i < |blocks| ==> 0 < |blocks[i]| < 0x1_0000_0000
  {
    match algorithm
    case Content(options) => BlockSizes(options, blocks);
    case Fixed(blockSize) => FixedBlockSizes(blockSize, blocks);
  }

  datatype AnyChunker = FixedSize(fixed: FixedSizeChunker) | ContentDefined(casync: CasyncChunker) {

    ghost function Repr(): set<object>
    {
      match this
      case FixedSize(c) => {c}
      case ContentDefined(c) => {c, c.window}
    }

    ghost predicate Valid()
      reads Repr()
    {
      match this
      case FixedSize(c) => c.Valid() && c.blockSize < 0x1_0000_0000
      case ContentDefined(c) => c.Valid()
    }

    ghost function Open(): seq<byte>
      reads Repr()
    {
      match this
      case FixedSize(c) => c.open
      case ContentDefined(c) => c.open
    }

    function Algorithm(): Algorithm {
      match this
      case FixedSize(c) => Fixed(c.blockSize)
      case ContentDefined(c) => Content(c.options)
    }

    method Scan(bytes: seq<byte>) returns (r: Option<nat>)
      requires Valid()
      modifies Repr()
      ensures Valid()
      ensures match r
        case Some(n) => FirstCut(Algorithm().Rule(), old(Open()), bytes, n) && Open() == []
        case None => NoCut(Algorithm().Rule(), old(Open()), bytes, |bytes|) && Open() == old(Open()) + bytes
    {
      match this
      case FixedSize(c) => r := c.Scan(bytes);
      case ContentDefined(c) => r := c.Scan(bytes);
    }

    /** The chunks of a byte slice. The slice may continue a block that is already open. */
    method Chunks(slice: seq<byte>) returns (chunks: seq<seq<byte>>)
      requires Valid()
      modifies Repr()
      ensures slice != [] ==>
        Chunking.Chunks(Algorithm().Rule(), old(Open()), slice) == Continued(old(Open()), chunks)
      ensures Flatten(chunks) == slice
    {
      ghost var rule := Algorithm().Rule();
      ghost var start := Open();
      var bytes := slice;
      chunks := [];
      while bytes != []
        invariant Valid()
        invariant bytes != [] ==> Open() == if chunks == [] then start else []
        invariant slice != [] ==> PartlyChunked(rule, start, slice, chunks, bytes)
        invariant Flatten(chunks) + bytes == slice
        decreases |bytes|
      {
        ghost var before := Open();
        var boundary := Scan(bytes);
        var offset := if boundary.Some? then boundary.value else |bytes|;
        NextChunk(rule, before, bytes, boundary, offset);
        ContinuedPush(rule, start, slice, chunks, bytes, offset);
        SplitPush(chunks, bytes, offset);
        chunks := chunks + [bytes[..offset]];
        bytes := bytes[offset..];
      }
    }
  }

  /** Chunks whose first one continues the block `open`. */
  ghost function Continued(open: seq<byte>, chunks: seq<seq<byte>>): seq<seq<byte>> {
    if chunks == [] then [] else [open + chunks[0]] + chunks[1..]
  }

  /** The blocks of the slice are the given chunks followed by the blocks of the remaining bytes. */
  ghost predicate PartlyChunked(rule: Rule, open: seq<byte>, slice: seq<byte>,
                                chunks: seq<seq<byte>>, bytes: seq<byte>)
  {
    Chunking.Chunks(rule, open, slice)
    == Continued(open, chunks) + Chunking.Chunks(rule, if chunks == [] then open else [], bytes)
  }

  lemma SplitPush(chunks: seq<seq<byte>>, bytes: seq<byte>, n: nat)
    requires n <= |bytes|
    ensures Flatten(chunks + [bytes[..n]]) + bytes[n..] == Flatten(chunks) + bytes
  {
    FlattenPush(chunks, bytes[..n]);
    assert Flatten(chunks) + bytes[..n] + bytes[n..] == Flatten(chunks) + bytes;
  }

  lemma ContinuedMore(open: seq<byte>, chunks: seq<seq<byte>>, chunk: seq<byte>)
    ensures var before := if chunks == [] then open else [];
      Continued(open, chunks + [chunk]) == Continued(open, chunks) + [before + chunk]
  {
    if chunks != [] {
      assert (chunks + [chunk])[1..] == chunks[1..] + [chunk] && [] + chunk == chunk;
    }
  }

  lemma ContinuedPush(rule: Rule, open: seq<byte>, slice: seq<byte>,
                      chunks: seq<seq<byte>>, bytes: seq<byte>, n: nat)
    requires n <= |bytes| && PartlyChunked(rule, open, slice, chunks, bytes)
    requires var before := if chunks == [] then open else [];
      Chunking.Chunks(rule, before, bytes)
      == [before + bytes[..n]] + Chunking.Chunks(rule, [], bytes[n..])
    ensures PartlyChunked(rule, open, slice, chunks + [bytes[..n]], bytes[n..])
  {
    ContinuedMore(open, chunks, bytes[..n]);
    Regrouped(Continued(open, chunks), [(if chunks == [] then open else []) + bytes[..n]],
              Chunking.Chunks(rule, [], bytes[n..]));
  }

  lemma Regrouped(a: seq<seq<byte>>, b: seq<seq<byte>>, c: seq<seq<byte>>)
    ensures a + (b + c) == a + b + c
  {
  }

  /** What a scan says about the blocks of the input it was given. */
  lemma NextChunk(rule: Rule, open: seq<byte>, bytes: seq<byte>, r: Option<nat>, n: nat)
    requires bytes != [] && n == if r.Some? then r.value else |bytes|
    requires if r.Some? then FirstCut(rule, open, bytes, n) else NoCut(rule, open, bytes, n)
    ensures Chunking.Chunks(rule, open, bytes)
         == [open + bytes[..n]] + Chunking.Chunks(rule, [], bytes[n..])
  {
    if r.Some? {
      FeedCut(rule, open, bytes, n);
    } else {
      FeedNoCut(rule, open, bytes, n);
    }
  }
}
