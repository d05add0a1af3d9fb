/** Packing a bundle, and what reading a packed or a signed bundle gives. */
module BundlePacking {
  import opened Base
  import opened Stlv
  import opened Schema
  import opened Sections
  import opened Format
  import opened BlockIndexing
  import opened BlockEncoding
  import opened PayloadDecoding
  import opened PayloadReader
  import opened Bundle
  import Tags

  /** The names a payload header records for the block encoding of its payload. */
  datatype Names = Names(
    chunker: seq<byte>, hashAlgorithm: seq<byte>, compression: Option<seq<byte>>, deduplicate: bool)
  {
    predicate Known(r: Registry) {
      r.chunker(chunker).Some? && r.hashAlgorithm(hashAlgorithm).Some? &&
      (compression.Some? ==> r.compression(compression.value).Some?)
    }

    /** The names are known, and a chunker can be made. */
    predicate Usable(r: Registry) {
      Known(r) && r.chunker(chunker).value.Valid()
    }

    function Config(r: Registry): Config
      requires Known(r)
    {
      BlockEncoding.Config(r.hashAlgorithm(hashAlgorithm).value, r.chunker(chunker).value, deduplicate,
                           if compression.Some? then r.compression(compression.value) else None)
    }
  }

  /** A payload to be packed: its contents, its block encoding, and the index fields that say how it
      is delivered. */
  datatype Payload = Payload(contents: seq<byte>, names: Option<Names>, delivery: seq<seq<Val>>)

  function HeaderVal(names: Option<Names>, encoding: BlockEncoded): Val
    requires names.Some? <==> encoding.Some?
  {
    if names == None then Record([[]])
    else
      var n, e := names.value, encoding.value.1;
      Record([[Record([[Bytes(n.chunker)], [Bytes(n.hashAlgorithm)], [Bytes(if n.deduplicate then [1] else [0])],
                       if n.compression == None then [] else [Bytes(n.compression.value)],
                       [Bytes(e.blockHashes)],
                       if e.blockSizes == None then [] else [Bytes(e.blockSizes.value)]])]])
  }

  ghost predicate Packable(r: Registry, p: Payload) {
    r.Valid() && (p.names.Some? ==> p.names.value.Usable(r)) && |p.delivery| == 7 &&
    EncodeData(ConfigOf(r, p), p.contents).Ok?
  }

  /** A payload can be packed if it has no block encoding. Otherwise it can be exactly if the names are known, a
      chunker can be made, and no stored block has 4 GiB or more after compression. */
  lemma PackableExactly(r: Registry, p: Payload)
    requires r.Valid() && |p.delivery| == 7
    ensures p.names == None ==> Packable(r, p)
    ensures p.names.Some? ==>
      var n := p.names.value;
      Packable(r, p) <==>
        r.hashAlgorithm(n.hashAlgorithm).Some? && r.chunker(n.chunker).Some? && r.chunker(n.chunker).value.Valid() &&
        (n.compression.Some? ==>
           r.compression(n.compression.value).Some? &&
           forall b :: b in SentBlocks(n.Config(r), n.Config(r).Blocks(p.contents)) ==>
             |r.compression(n.compression.value).value.compress(b)| < 0x1_0000_0000)
  {
    if p.names.Some? && p.names.value.Usable(r) {
      EncodableExactly(p.names.value.Config(r), p.contents);
    }
  }

  function ConfigOf(r: Registry, p: Payload): Option<Config>
    requires p.names.Some? ==> p.names.value.Known(r)
  {
    if p.names == None then None else Some(p.names.value.Config(r))
  }

  ghost function HeaderOf(r: Registry, p: Payload): Val
    requires Packable(r, p)
  {
    HeaderVal(p.names, EncodeData(ConfigOf(r, p), p.contents).value.0)
  }

  ghost function DataOf(r: Registry, p: Payload): seq<byte>
    requires Packable(r, p)
  {
    EncodeData(ConfigOf(r, p), p.contents).value.1
  }

  ghost function HeaderBytes(r: Registry, p: Payload): seq<byte>
    requires Packable(r, p) && HasType(r.PayloadHeader(), HeaderOf(r, p))
  {
    Serialize(ToNode(r.PayloadHeader(), HeaderOf(r, p), Tags.PAYLOAD_HEADER))
  }

  /** The entry of a payload in the bundle header, with the hashes of its header and its contents. */
  ghost function EntryOf(r: Registry, p: Payload, digest: Digest): Val
    requires Packable(r, p) && HasType(r.PayloadHeader(), HeaderOf(r, p))
  {
    Record(p.delivery[4 := [Bytes(digest(HeaderBytes(r, p)))]][5 := [Bytes(digest(p.contents))]])
  }

  /** A packed payload whose data has a length that can be encoded, and whose hashes do not collide when
      it is decoded. */
  ghost predicate Deliverable(r: Registry, p: Payload, answers: Store) {
    Packable(r, p) && HasType(r.PayloadHeader(), HeaderOf(r, p)) &&
    Value(Tags.PAYLOAD_DATA, |DataOf(r, p)|).Writable() && Harmless(ConfigOf(r, p), p.contents, answers)
  }

  /** The header of the payload is within the limits of the reader. */
  ghost predicate Small(r: Registry, p: Payload)
    requires Packable(r, p) && HasType(r.PayloadHeader(), HeaderOf(r, p))
  {
    Readable(r.PayloadHeader(), HeaderOf(r, p), Tags.PAYLOAD_HEADER, PAYLOAD_HEADER_SIZE_LIMIT)
  }

  /** What follows the start of a payload's segment. */
  function SegmentRest(header: seq<byte>, data: seq<byte>, tail: seq<byte>): seq<byte> {
    header + (EncodeHead(Value(Tags.PAYLOAD_DATA, |data|)) + (data + (EncodeHead(End(Tags.PAYLOAD)) + tail)))
  }

  /** The segments of the payloads from number `i` on, and the ends of the enclosing segments. */
  ghost function PayloadSegments(r: Registry, payloads: seq<Payload>, i: nat): seq<byte>
    requires i <= |payloads|
    requires forall k :: 0 <= k < |payloads| ==>
      Packable(r, payloads[k]) && HasType(r.PayloadHeader(), HeaderOf(r, payloads[k]))
    decreases |payloads| - i
  {
    if i == |payloads| then EncodeHead(End(Tags.PAYLOADS)) + EncodeHead(End(Tags.BUNDLE))
    else
      EncodeHead(Start(Tags.PAYLOAD)) +
      SegmentRest(HeaderBytes(r, payloads[i]), DataOf(r, payloads[i]), PayloadSegments(r, payloads, i + 1))
  }

  /** The header records exactly how the data is encoded. */
  lemma InterpretHeader(r: Registry, p: Payload)
    requires Packable(r, p) && HasType(r.PayloadHeader(), HeaderOf(r, p))
    ensures Interpret(r, HeaderOf(r, p)) == EncodeData(ConfigOf(r, p), p.contents).value.0
  {
  }

  /** Opening a packed payload finds its header, whose hash is in the index, and its data, exactly if the
      header is within the limits. */
  lemma OpenPacked(r: Registry, entry: Entry, payloadHeader: Val, data: seq<byte>, tail: seq<byte>,
                   digest: Digest)
    requires r.Valid() && Value(Tags.PAYLOAD_DATA, |data|).Writable() && HasType(r.PayloadHeader(), payloadHeader)
    requires entry.headerHash == digest(Serialize(ToNode(r.PayloadHeader(), payloadHeader, Tags.PAYLOAD_HEADER)))
    ensures var bytes := Serialize(ToNode(r.PayloadHeader(), payloadHeader, Tags.PAYLOAD_HEADER));
      OpenPayload(r, entry, SegmentRest(bytes, data, tail), digest)
      == if Readable(r.PayloadHeader(), payloadHeader, Tags.PAYLOAD_HEADER, PAYLOAD_HEADER_SIZE_LIMIT)
         then Ok(OpenedPayload(Interpret(r, payloadHeader), |data|, data + (EncodeHead(End(Tags.PAYLOAD)) + tail)))
         else Err
  {
    var after := data + (EncodeHead(End(Tags.PAYLOAD)) + tail);
    var dataHead := Value(Tags.PAYLOAD_DATA, |data|);
    BlocksWellFormed(r);
    FindWritten(r.PayloadHeader(), payloadHeader, Tags.PAYLOAD_HEADER, PAYLOAD_HEADER_SIZE_LIMIT,
                EncodeHead(dataHead) + after);
    FoundAtOnce(GoalValue(Tags.PAYLOAD_DATA), dataHead, after);
  }

  /** What the index says about a packed payload. */
  ghost function IndexEntry(r: Registry, p: Payload, digest: Digest): Entry
    requires Packable(r, p) && HasType(r.PayloadHeader(), HeaderOf(r, p))
  {
    Entry(digest(HeaderBytes(r, p)), digest(p.contents))
  }

  /** Every payload can be delivered, and the index has the entry for it. */
  ghost predicate Indexed(r: Registry, entries: seq<Entry>, payloads: seq<Payload>, digest: Digest,
                          stores: nat -> Store)
  {
    r.Valid() && |payloads| == |entries| &&
    forall k :: 0 <= k < |payloads| ==>
      Deliverable(r, payloads[k], stores(k)) && entries[k] == IndexEntry(r, payloads[k], digest)
  }

  /** The header of a bundle has the entries of the given payloads. */
  ghost predicate Lists(r: Registry, header: Val, payloads: seq<Payload>, digest: Digest)
    requires HasType(r.BundleHeader(), header)
  {
    |payloads| == |PayloadIndex(r, header)| &&
    forall k :: 0 <= k < |payloads| ==>
      Packable(r, payloads[k]) && HasType(r.PayloadHeader(), HeaderOf(r, payloads[k])) &&
      PayloadIndex(r, header)[k] == EntryOf(r, payloads[k], digest)
  }

  lemma EntryHashes(r: Registry, header: Val, payloads: seq<Payload>, i: nat, digest: Digest)
    requires HasType(r.BundleHeader(), header) && Lists(r, header, payloads, digest) && i < |payloads|
    ensures Entries(r, header)[i] == IndexEntry(r, payloads[i], digest)
  {
    assert HasType(r.BundleHeader().fields[3].item, header.values[3][i]);
  }

  function Contents(payloads: seq<Payload>, i: nat): seq<seq<byte>>
    requires i <= |payloads|
    decreases |payloads| - i
  {
    if i == |payloads| then [] else [payloads[i].contents] + Contents(payloads, i + 1)
  }

  /** The header of the payload is within the limits, and the store can read what it is asked for. */
  ghost predicate Arrives(r: Registry, p: Payload, answers: Store)
    requires Packable(r, p) && HasType(r.PayloadHeader(), HeaderOf(r, p))
  {
    Small(r, p) && StoreReadable(ConfigOf(r, p), p.contents, answers)
  }

  /** Reading a packed payload gives its contents, and leaves what follows its segment, exactly if its
      header is within the limits and the store can read what it is asked for. */
  lemma ReadPackedPayload(r: Registry, p: Payload, tail: seq<byte>, digest: Digest, answers: Store)
    requires r.Valid() && Deliverable(r, p, answers)
    ensures ReadPayload(r, IndexEntry(r, p, digest),
                        EncodeHead(Start(Tags.PAYLOAD)) + SegmentRest(HeaderBytes(r, p), DataOf(r, p), tail),
                        digest, answers)
         == if Arrives(r, p, answers) then Ok((p.contents, tail)) else Err
  {
    ReadEncodeHead(Start(Tags.PAYLOAD), SegmentRest(HeaderBytes(r, p), DataOf(r, p), tail));
    OpenPacked(r, IndexEntry(r, p, digest), HeaderOf(r, p), DataOf(r, p), tail, digest);
    InterpretHeader(r, p);
    SegmentRoundTrip(ConfigOf(r, p), p.contents, tail, answers, digest);
  }

  ghost predicate AllArrive(r: Registry, payloads: seq<Payload>, stores: nat -> Store, i: nat)
    requires forall k :: 0 <= k < |payloads| ==>
      Packable(r, payloads[k]) && HasType(r.PayloadHeader(), HeaderOf(r, payloads[k]))
  {
    forall k :: i <= k < |payloads| ==> Arrives(r, payloads[k], stores(k))
  }

  /** Reading the payloads of a packed bundle gives their contents, in order, exactly if their headers are
      within the limits and the stores can read what they are asked for. */
  lemma {:induction false} ReadPacked(r: Registry, entries: seq<Entry>, payloads: seq<Payload>, i: nat,
                                      digest: Digest, stores: nat -> Store)
    requires Indexed(r, entries, payloads, digest, stores) && i <= |payloads|
    ensures ReadPayloads(r, entries, i, PayloadSegments(r, payloads, i), digest, stores)
         == if AllArrive(r, payloads, stores, i) then Ok(Contents(payloads, i)) else Err
    decreases |payloads| - i
  {
    if i < |payloads| {
      ReadPackedPayload(r, payloads[i], PayloadSegments(r, payloads, i + 1), digest, stores(i));
      ReadPacked(r, entries, payloads, i + 1, digest, stores);
      ArriveOneMore(r, payloads, stores, i);
    }
  }

  lemma ArriveOneMore(r: Registry, payloads: seq<Payload>, stores: nat -> Store, i: nat)
    requires i < |payloads|
    requires forall k :: 0 <= k < |payloads| ==>
      Packable(r, payloads[k]) && HasType(r.PayloadHeader(), HeaderOf(r, payloads[k]))
    ensures AllArrive(r, payloads, stores, i)
        <==> Arrives(r, payloads[i], stores(i)) && AllArrive(r, payloads, stores, i + 1)
  {
  }

  /** A bundle file: header, optional metadata, and the payloads with the closing atoms. */
  function BundleFile(header: seq<byte>, metadata: seq<byte>, body: seq<byte>): seq<byte> {
    EncodeHead(Start(Tags.BUNDLE)) + (header + (metadata + (EncodeHead(Start(Tags.PAYLOADS)) + body)))
  }

  ghost function HeaderFile(r: Registry, header: Val): seq<byte>
    requires HasType(r.BundleHeader(), header)
  {
    Serialize(ToNode(r.BundleHeader(), header, Tags.BUNDLE_HEADER))
  }

  ghost function Metadata(signatures: Option<Val>): seq<byte>
    requires signatures.Some? ==> HasType(SIGNATURES, signatures.value)
  {
    if signatures == None then [] else Serialize(ToNode(SIGNATURES, signatures.value, Tags.SIGNATURES))
  }

  ghost predicate ReadableSignatures(signatures: Option<Val>)
    requires signatures.Some? ==> HasType(SIGNATURES, signatures.value)
  {
    signatures.Some? ==> Readable(SIGNATURES, signatures.value, Tags.SIGNATURES, SIGNATURES_SIZE_LIMIT)
  }

  /** Signatures that have been written are read, up to the payloads, exactly if they are within the
      limits. */
  lemma ReadWrittenSignatures(signatures: Val, payloads: seq<byte>)
    requires HasType(SIGNATURES, signatures)
    ensures ReadMetadata(Metadata(Some(signatures)) + payloads, None)
         == if ReadableSignatures(Some(signatures)) then ReadMetadata(payloads, Some(signatures)) else Err
  {
    var node := ToNode(SIGNATURES, signatures, Tags.SIGNATURES);
    assert Serialize(node) + payloads == EncodeHead(Start(Tags.SIGNATURES)) + (Body(node) + payloads);
    ReadEncodeHead(Start(Tags.SIGNATURES), Body(node) + payloads);
    assert WellFormed(SIGNATURES);
    CopyStructure(SIGNATURES, signatures, Tags.SIGNATURES, SIGNATURES_SIZE_LIMIT, payloads);
  }

  /** The metadata that has been written is read, up to the payloads. */
  lemma ReadWrittenMetadata(signatures: Option<Val>, body: seq<byte>)
    requires signatures.Some? ==> HasType(SIGNATURES, signatures.value)
    ensures ReadMetadata(Metadata(signatures) + (EncodeHead(Start(Tags.PAYLOADS)) + body), None)
         == if ReadableSignatures(signatures) then Ok((signatures, body)) else Err
  {
    var payloads := EncodeHead(Start(Tags.PAYLOADS)) + body;
    ReadEncodeHead(Start(Tags.PAYLOADS), body);
    if signatures == None {
      assert [] + payloads == payloads;
    } else {
      ReadWrittenSignatures(signatures.value, payloads);
    }
  }

  /** The header of a bundle is within the limits of the reader. */
  ghost predicate ReadableHeader(r: Registry, header: Val)
    requires HasType(r.BundleHeader(), header)
  {
    Readable(r.BundleHeader(), header, Tags.BUNDLE_HEADER, BUNDLE_HEADER_SIZE_LIMIT)
  }

  /** What opening a bundle finds. */
  ghost function OpenedFile(r: Registry, header: Val, signatures: Option<Val>, body: seq<byte>): Opened
    requires HasType(r.BundleHeader(), header)
  {
    Opened(header, HeaderFile(r, header), signatures, HashAlgorithmOf(r, header).digest, Entries(r, header), body)
  }

  /** Opening a bundle file finds exactly the header bytes and values that were written, and leaves
      the payloads, exactly if header and signatures are within the limits. */
  lemma OpenFile(r: Registry, header: Val, signatures: Option<Val>, body: seq<byte>, digest: Digest)
    requires HasType(r.BundleHeader(), header) && (signatures.Some? ==> HasType(SIGNATURES, signatures.value))
    ensures var bytes := HeaderFile(r, header);
      Open(r, BehindHead(BundleFile(bytes, Metadata(signatures), body)), Some(digest(bytes)), digest)
      == if ReadableHeader(r, header) && ReadableSignatures(signatures)
         then Ok(OpenedFile(r, header, signatures, body)) else Err
  {
    var metadata := Metadata(signatures) + (EncodeHead(Start(Tags.PAYLOADS)) + body);
    ReadEncodeHead(Start(Tags.BUNDLE), HeaderFile(r, header) + metadata);
    HeaderWritten(r, header, metadata);
    if Fits(HeaderNode(r, header), 0, BUNDLE_HEADER_SIZE_LIMIT) {
      OpenWritten(r, header, signatures, body);
    }
  }

  function HeaderNode(r: Registry, header: Val): Node
    requires HasType(r.BundleHeader(), header)
  {
    ToNode(r.BundleHeader(), header, Tags.BUNDLE_HEADER)
  }

  /** The header is found exactly if it fits, and decoded exactly if it is within the limits. */
  lemma HeaderWritten(r: Registry, header: Val, rest: seq<byte>)
    requires HasType(r.BundleHeader(), header)
    ensures FindStructure(Tags.BUNDLE_HEADER, BUNDLE_HEADER_SIZE_LIMIT, HeaderFile(r, header) + rest)
         == if Fits(HeaderNode(r, header), 0, BUNDLE_HEADER_SIZE_LIMIT) then Ok((HeaderFile(r, header), rest)) else Err
    ensures DecodeSlice(r.BundleHeader(), HeaderFile(r, header))
         == if Decodable(r.BundleHeader(), HeaderNode(r, header)) then Ok(header) else Err
  {
    FormatWellFormed(r);
    FindWritten(r.BundleHeader(), header, Tags.BUNDLE_HEADER, BUNDLE_HEADER_SIZE_LIMIT, rest);
  }

  lemma OpenWritten(r: Registry, header: Val, signatures: Option<Val>, body: seq<byte>)
    requires HasType(r.BundleHeader(), header) && (signatures.Some? ==> HasType(SIGNATURES, signatures.value))
    ensures OpenRaw(r, HeaderFile(r, header), Metadata(signatures) + (EncodeHead(Start(Tags.PAYLOADS)) + body))
         == if Decodable(r.BundleHeader(), HeaderNode(r, header)) && ReadableSignatures(signatures)
            then Ok(OpenedFile(r, header, signatures, body)) else Err
  {
    HeaderWritten(r, header, []);
    ReadWrittenMetadata(signatures, body);
  }

  lemma ListedIndexed(r: Registry, header: Val, payloads: seq<Payload>, digest: Digest, stores: nat -> Store)
    requires r.Valid() && HasType(r.BundleHeader(), header) && Lists(r, header, payloads, digest)
    requires forall k :: 0 <= k < |payloads| ==> Deliverable(r, payloads[k], stores(k))
    ensures Indexed(r, Entries(r, header), payloads, digest, stores)
  {
    forall k | 0 <= k < |payloads|
      ensures Entries(r, header)[k] == IndexEntry(r, payloads[k], digest)
    {
      EntryHashes(r, header, payloads, k, digest);
    }
  }

  /** End to end: reading a packed bundle, signed or not, with the hash its packing returned, gives
      the contents of all payloads in order, whatever block stores are used on the way, exactly if its header,
      its signatures and the headers of its payloads are within the limits of the reader, and the stores can
      read the blocks they are asked for. */
  lemma BundleRoundTrip(r: Registry, header: Val, signatures: Option<Val>, payloads: seq<Payload>,
                        digest: Digest, stores: nat -> Store)
    requires r.Valid() && HasType(r.BundleHeader(), header)
    requires signatures.Some? ==> HasType(SIGNATURES, signatures.value)
    requires Lists(r, header, payloads, digest) && HashAlgorithmOf(r, header).digest == digest
    requires forall k :: 0 <= k < |payloads| ==> Deliverable(r, payloads[k], stores(k))
    ensures var bytes := HeaderFile(r, header);
      ReadBundle(r, BundleFile(bytes, Metadata(signatures), PayloadSegments(r, payloads, 0)), Some(digest(bytes)),
                 digest, stores)
      == if ReadableHeader(r, header) && ReadableSignatures(signatures) && AllArrive(r, payloads, stores, 0)
         then Ok(Contents(payloads, 0)) else Err
  {
    OpenFile(r, header, signatures, PayloadSegments(r, payloads, 0), digest);
    ListedIndexed(r, header, payloads, digest, stores);
    ReadPacked(r, Entries(r, header), payloads, 0, digest, stores);
  }

  /** Expect the start of a segment. */
  function ExpectStart(tag: Tag, s: seq<byte>): Result<seq<byte>> {
    var next :- ReadHead(s);
    if next.Some? && next.value.0 == Start(tag) then Ok(next.value.1) else Err
  }

  /** The header bytes at the start of a bundle file, and what follows them. */
  function HeaderOfFile(s: seq<byte>): Result<(seq<byte>, seq<byte>)> {
    var rest :- ExpectStart(Tags.BUNDLE, s);
    var rest' :- ExpectStart(Tags.BUNDLE_HEADER, rest);
    CopyNode(Start(Tags.BUNDLE_HEADER), rest', [], BUNDLE_HEADER_SIZE_LIMIT)
  }

  /** The hash of a bundle: that of its header, by the algorithm the header names. */
  function BundleHash(r: Registry, s: seq<byte>): Result<seq<byte>> {
    var (raw, _) :- HeaderOfFile(s);
    var header :- DecodeSlice(r.BundleHeader(), raw);
    Ok(HashAlgorithmOf(r, header).digest(raw))
  }

  function PushSignature(signatures: Option<Val>, signature: Blob): (v: Val)
    requires signatures.Some? ==> HasType(SIGNATURES, signatures.value)
    ensures HasType(SIGNATURES, v)
  {
    Record([(if signatures == None then [] else signatures.value.values[0]) + [Bytes(signature)]])
  }

  lemma ExpectWritten(tag: Tag, rest: seq<byte>)
    ensures ExpectStart(tag, EncodeHead(Start(tag)) + rest) == Ok(rest)
  {
    ReadEncodeHead(Start(tag), rest);
  }

  lemma HeaderFound(rest: seq<byte>)
    ensures HeaderOfFile(EncodeHead(Start(Tags.BUNDLE)) + (EncodeHead(Start(Tags.BUNDLE_HEADER)) + rest))
         == CopyNode(Start(Tags.BUNDLE_HEADER), rest, [], BUNDLE_HEADER_SIZE_LIMIT)
  {
    ExpectWritten(Tags.BUNDLE, EncodeHead(Start(Tags.BUNDLE_HEADER)) + rest);
    ExpectWritten(Tags.BUNDLE_HEADER, rest);
  }

  /** The header bytes are copied exactly if they fit. */
  lemma HeaderOfWritten(r: Registry, header: Val, rest: seq<byte>)
    requires HasType(r.BundleHeader(), header)
    ensures HeaderOfFile(EncodeHead(Start(Tags.BUNDLE)) + (HeaderFile(r, header) + rest))
         == if Fits(HeaderNode(r, header), 0, BUNDLE_HEADER_SIZE_LIMIT) then Ok((HeaderFile(r, header), rest)) else Err
  {
    var node := HeaderNode(r, header);
    assert HeaderFile(r, header) + rest == EncodeHead(Start(Tags.BUNDLE_HEADER)) + (Body(node) + rest);
    HeaderFound(Body(node) + rest);
    FormatWellFormed(r);
    CopyStructure(r.BundleHeader(), header, Tags.BUNDLE_HEADER, BUNDLE_HEADER_SIZE_LIMIT, rest);
  }

  /** The hash of a bundle file is the hash of the header bytes that were packed, exactly if the header is
      within the limits of the reader. */
  lemma BundleHashExact(r: Registry, header: Val, signatures: Option<Val>, body: seq<byte>)
    requires HasType(r.BundleHeader(), header) && (signatures.Some? ==> HasType(SIGNATURES, signatures.value))
    ensures BundleHash(r, BundleFile(HeaderFile(r, header), Metadata(signatures), body))
         == if ReadableHeader(r, header) then Ok(HashAlgorithmOf(r, header).digest(HeaderFile(r, header))) else Err
  {
    HeaderOfWritten(r, header, Metadata(signatures) + (EncodeHead(Start(Tags.PAYLOADS)) + body));
    HeaderWritten(r, header, []);
  }

  /** Add a signature behind the existing ones. Anything else between header and payloads is not
      kept. */
  function AddSignature(s: seq<byte>, signature: Blob): Result<seq<byte>> {
    var (raw, rest) :- HeaderOfFile(s);
    var (signatures, body) :- ReadTypedMetadata(rest);
    Ok(BundleFile(raw, Serialize(ToNode(SIGNATURES, PushSignature(signatures, signature), Tags.SIGNATURES)), body))
  }

  function ReadTypedMetadata(s: seq<byte>): (r: Result<(Option<Val>, seq<byte>)>)
    ensures r == ReadMetadata(s, None)
    ensures r.Ok? && r.value.0.Some? ==> HasType(SIGNATURES, r.value.0.value)
  {
    MetadataHasType(s, None);
    ReadMetadata(s, None)
  }

  lemma {:induction false} MetadataHasType(s: seq<byte>, signatures: Option<Val>)
    requires signatures.Some? ==> HasType(SIGNATURES, signatures.value)
    ensures var r := ReadMetadata(s, signatures);
      r.Ok? && r.value.0.Some? ==> HasType(SIGNATURES, r.value.0.value)
    decreases |s|
  {
    var next := ReadHead(s);
    if next.Ok? && next.value.Some? {
      var (head, rest) := next.value.value;
      if head == Start(Tags.SIGNATURES) && signatures == None {
        var copied := CopyNode(head, rest, [], SIGNATURES_SIZE_LIMIT);
        if copied.Ok? {
          var v := DecodeSlice(SIGNATURES, copied.value.0);
          if v.Ok? {
            MetadataHasType(copied.value.1, Some(v.value));
          }
        }
      } else if head != Start(Tags.PAYLOADS) && IsOptional(head.tag) {
        var node := ReadNode(head, rest);
        if node.Ok? {
          MetadataHasType(node.value.1, signatures);
        }
      }
    }
  }

  /** Signing appends exactly one signature: header bytes, earlier signatures and the payloads with
      everything behind them are the same. It succeeds exactly if the header bytes fit the limit of the reader
      and the earlier signatures are within its limits. */
  lemma SigningAppends(r: Registry, header: Val, signatures: Option<Val>, signature: Blob, body: seq<byte>)
    requires HasType(r.BundleHeader(), header) && (signatures.Some? ==> HasType(SIGNATURES, signatures.value))
    ensures AddSignature(BundleFile(HeaderFile(r, header), Metadata(signatures), body), signature)
         == if Fits(HeaderNode(r, header), 0, BUNDLE_HEADER_SIZE_LIMIT) && ReadableSignatures(signatures)
            then Ok(BundleFile(HeaderFile(r, header), Metadata(Some(PushSignature(signatures, signature))), body))
            else Err
  {
    HeaderOfWritten(r, header, Metadata(signatures) + (EncodeHead(Start(Tags.PAYLOADS)) + body));
    ReadWrittenMetadata(signatures, body);
  }

  /** After a bundle has been signed, reading it gives the earlier signatures and then the new one; everything else
      is as before. It fails exactly if header or signatures are not within the limits of the reader. */
  lemma SignThenOpen(r: Registry, header: Val, signatures: Option<Val>, signature: Blob, body: seq<byte>,
                     digest: Digest)
    requires HasType(r.BundleHeader(), header) && (signatures.Some? ==> HasType(SIGNATURES, signatures.value))
    requires ReadableHeader(r, header) && ReadableSignatures(signatures)
    ensures var signed := AddSignature(BundleFile(HeaderFile(r, header), Metadata(signatures), body), signature);
      var all := Record([(if signatures == None then [] else signatures.value.values[0]) + [Bytes(signature)]]);
      signed.Ok? && HasType(SIGNATURES, all) &&
      Open(r, BehindHead(signed.value), Some(digest(HeaderFile(r, header))), digest)
      == if ReadableSignatures(Some(all)) then Ok(OpenedFile(r, header, Some(all), body)) else Err
  {
    SigningAppends(r, header, signatures, signature, body);
    OpenFile(r, header, Some(PushSignature(signatures, signature)), body, digest);
  }
}
