/** Which bundles can be read, in bytes. */
module BundleLimits {
  import opened Base
  import opened Stlv
  import opened Schema
  import opened Codec
  import opened Format
  import opened BlockIndexing
  import opened PayloadDecoding
  import opened PayloadReader
  import opened Bundle
  import opened BundlePacking
  import opened BundleBuilder
  import opened Limits
  import Tags

  /** The structures of a bundle are nested no deeper than a decoder allows. */
  lemma FormatDepth(r: Registry)
    ensures Depth(r.BundleHeader()) <= 32 && Depth(r.PayloadHeader()) <= 32 && Depth(SIGNATURES) <= 32
  {
    EntryDepth(r);
    DepthAtMost(r.BundleHeader().fields, 4);
    DepthAtMost(r.BlockEncoding().fields, 0);
    DepthAtMost(r.PayloadHeader().fields, 1);
    DepthAtMost(SIGNATURES.fields, 0);
  }

  lemma EntryDepth(r: Registry)
    ensures Depth(r.PayloadEntry()) <= 4
  {
    var fields := r.PayloadEntry().fields;
    DepthAtMost(fields[0].item.fields, 0);
    DepthAtMost(fields[1].item.fields, 0);
    DepthAtMost(fields[2].item.fields, 0);
    DepthAtMost(fields[3].item.fields, 0);
    DeltaDepth(r);
    DepthAtMost(fields, 3);
  }

  lemma DeltaDepth(r: Registry)
    ensures Depth(r.PayloadEntry().fields[6].item) <= 2
  {
    var fields := r.PayloadEntry().fields[6].item.fields;
    DepthAtMost(fields[1].item.fields, 0);
    DepthAtMost(fields, 1);
  }

  /** A slice with a tree that fits into memory is decoded to what the tree means exactly if it is nested no more
      than 32 levels deep. */
  lemma DecodedInBytes(item: Item, node: Node)
    requires |Serialize(node)| <= MAX_MEMORY
    ensures DecodeSlice(item, Serialize(node)) == if Height(node) <= 32 then TreeDecode(item, node) else Err
  {
    ChargeAtMostTwice(item, node);
    SizeExact(node);
    assert Serialize(node) + [] == Serialize(node);
    DecodeTree(item, node, State(Serialize(node), MAX_DEPTH, MAX_SIZE), []);
  }

  /** A structure of the format can be decoded if it fits into memory. */
  lemma DecodableInMemory(item: Item, v: Val, tag: Tag)
    requires HasType(item, v) && Depth(item) <= 32 && |Serialize(ToNode(item, v, tag))| <= MAX_MEMORY
    ensures Decodable(item, ToNode(item, v, tag))
  {
    var node := ToNode(item, v, tag);
    HeightWithinDepth(item, v, tag);
    ChargeAtMostTwice(item, node);
    SizeExact(node);
  }

  /** And it can be read exactly if its last value ends below the limit. */
  lemma ReadableExactly(item: Item, v: Val, tag: Tag, limit: nat)
    requires HasType(item, v) && Depth(item) <= 32 && |Serialize(ToNode(item, v, tag))| <= MAX_MEMORY && 0 < limit
    ensures Readable(item, v, tag, limit) <==> ValuesEnd(ToNode(item, v, tag), 0) < limit
  {
    FitsExactly(ToNode(item, v, tag), 0, limit);
    DecodableInMemory(item, v, tag);
  }

  ghost predicate SignaturesInMemory(signatures: Option<Val>) {
    signatures.Some? ==> HasType(SIGNATURES, signatures.value) && |Metadata(signatures)| <= MAX_MEMORY
  }

  /** The last signature ends within 32 MiB of their bytes. */
  ghost predicate ShortSignatures(signatures: Option<Val>)
    requires SignaturesInMemory(signatures)
  {
    signatures.Some? ==> ValuesEnd(ToNode(SIGNATURES, signatures.value, Tags.SIGNATURES), 0) < 33554432
  }

  /** The last value of the header ends within 128 KiB of its bytes. */
  ghost predicate ShortHeader(r: Registry, header: Val)
    requires HasType(r.BundleHeader(), header)
  {
    ValuesEnd(HeaderNode(r, header), 0) < 131072
  }

  lemma SignaturesExactly(signatures: Option<Val>)
    requires SignaturesInMemory(signatures)
    ensures ReadableSignatures(signatures) <==> ShortSignatures(signatures)
  {
    DepthAtMost(SIGNATURES.fields, 0);
    if signatures.Some? {
      ReadableExactly(SIGNATURES, signatures.value, Tags.SIGNATURES, SIGNATURES_SIZE_LIMIT);
    }
  }

  lemma HeaderExactly(r: Registry, header: Val)
    requires HasType(r.BundleHeader(), header) && |HeaderFile(r, header)| <= MAX_MEMORY
    ensures ReadableHeader(r, header) <==> ShortHeader(r, header)
    ensures Fits(HeaderNode(r, header), 0, BUNDLE_HEADER_SIZE_LIMIT) <==> ShortHeader(r, header)
  {
    FormatDepth(r);
    FitsExactly(HeaderNode(r, header), 0, BUNDLE_HEADER_SIZE_LIMIT);
    ReadableExactly(r.BundleHeader(), header, Tags.BUNDLE_HEADER, BUNDLE_HEADER_SIZE_LIMIT);
  }

  /** The last value of the payload's header ends within 32 MiB of its bytes, and the store can read what it is
      asked for. */
  ghost predicate ShortPayload(r: Registry, p: Payload, answers: Store)
    requires Packable(r, p) && HasType(r.PayloadHeader(), HeaderOf(r, p))
  {
    ValuesEnd(ToNode(r.PayloadHeader(), HeaderOf(r, p), Tags.PAYLOAD_HEADER), 0) < 33554432 &&
    StoreReadable(ConfigOf(r, p), p.contents, answers)
  }

  lemma ArrivesExactly(r: Registry, p: Payload, answers: Store)
    requires Packable(r, p) && HasType(r.PayloadHeader(), HeaderOf(r, p)) && |HeaderBytes(r, p)| <= MAX_MEMORY
    ensures Arrives(r, p, answers) <==> ShortPayload(r, p, answers)
  {
    FormatDepth(r);
    ReadableExactly(r.PayloadHeader(), HeaderOf(r, p), Tags.PAYLOAD_HEADER, PAYLOAD_HEADER_SIZE_LIMIT);
  }

  /** Payloads that can be delivered, with headers that fit into memory. */
  ghost predicate AllInMemory(r: Registry, payloads: seq<Payload>, stores: nat -> Store) {
    forall k :: 0 <= k < |payloads| ==>
      Deliverable(r, payloads[k], stores(k)) && |HeaderBytes(r, payloads[k])| <= MAX_MEMORY
  }

  /** A packed bundle, signed or not, is read back with the hash of its header exactly if the last value of the
      header ends within 128 KiB of its bytes, the last value of every payload header and the last signature
      within 32 MiB, and the stores can read what they are asked for. */
  lemma BundleReadInBytes(r: Registry, header: Val, signatures: Option<Val>, payloads: seq<Payload>, digest: Digest,
                          stores: nat -> Store)
    requires r.Valid() && HasType(r.BundleHeader(), header) && |HeaderFile(r, header)| <= MAX_MEMORY
    requires SignaturesInMemory(signatures) && AllInMemory(r, payloads, stores)
    requires Lists(r, header, payloads, digest) && HashAlgorithmOf(r, header).digest == digest
    ensures var bytes := HeaderFile(r, header);
      ReadBundle(r, BundleFile(bytes, Metadata(signatures), PayloadSegments(r, payloads, 0)), Some(digest(bytes)),
                 digest, stores)
      == if ShortHeader(r, header) && ShortSignatures(signatures) &&
            forall k :: 0 <= k < |payloads| ==> ShortPayload(r, payloads[k], stores(k))
         then Ok(Contents(payloads, 0)) else Err
  {
    HeaderExactly(r, header);
    SignaturesExactly(signatures);
    forall k | 0 <= k < |payloads|
      ensures Arrives(r, payloads[k], stores(k)) <==> ShortPayload(r, payloads[k], stores(k))
    {
      ArrivesExactly(r, payloads[k], stores(k));
    }
    BundleRoundTrip(r, header, signatures, payloads, digest, stores);
  }

  /** Packing and then reading gives all payloads back if the header has fewer than 131072 bytes, the header of
      every payload fewer than 33554432, and the stores can read what they are asked for. */
  lemma SmallBundleComesBack(r: Registry, prefix: seq<seq<Val>>, payloads: seq<Payload>, digest: Digest,
                             stores: nat -> Store)
    requires r.Valid() && AllPackable(r, payloads) && |prefix| == 3
    requires HasType(r.BundleHeader(), HeaderFor(r, prefix, payloads, digest))
    requires HashAlgorithmOf(r, HeaderFor(r, prefix, payloads, digest)).digest == digest
    requires |HeaderFile(r, HeaderFor(r, prefix, payloads, digest))| < 131072
    requires forall k :: 0 <= k < |payloads| ==>
      Deliverable(r, payloads[k], stores(k)) && |HeaderBytes(r, payloads[k])| < 33554432 &&
      StoreReadable(ConfigOf(r, payloads[k]), payloads[k].contents, stores(k))
    ensures var bytes := HeaderFile(r, HeaderFor(r, prefix, payloads, digest));
      ReadBundle(r, BundleFile(bytes, Metadata(None), PayloadSegments(r, payloads, 0)), Some(digest(bytes)), digest,
                 stores)
      == Ok(Contents(payloads, 0))
  {
    var header := HeaderFor(r, prefix, payloads, digest);
    ValuesEndWithin(HeaderNode(r, header), 0);
    forall k | 0 <= k < |payloads|
      ensures ShortPayload(r, payloads[k], stores(k))
    {
      ValuesEndWithin(ToNode(r.PayloadHeader(), HeaderOf(r, payloads[k]), Tags.PAYLOAD_HEADER), 0);
    }
    BundleReadInBytes(r, header, None, payloads, digest, stores);
  }

  /** The hash of a bundle file is that of the header bytes that were packed, exactly if their last value ends
      within 128 KiB. */
  lemma HashInBytes(r: Registry, header: Val, signatures: Option<Val>, body: seq<byte>)
    requires HasType(r.BundleHeader(), header) && |HeaderFile(r, header)| <= MAX_MEMORY
    requires SignaturesInMemory(signatures)
    ensures BundleHash(r, BundleFile(HeaderFile(r, header), Metadata(signatures), body))
         == if ShortHeader(r, header) then Ok(HashAlgorithmOf(r, header).digest(HeaderFile(r, header))) else Err
  {
    HeaderExactly(r, header);
    BundleHashExact(r, header, signatures, body);
  }

  /** Signing appends one signature exactly if the last value of the header ends within 128 KiB, and the last
      earlier signature within 32 MiB. */
  lemma SigningInBytes(r: Registry, header: Val, signatures: Option<Val>, signature: Blob, body: seq<byte>)
    requires HasType(r.BundleHeader(), header) && |HeaderFile(r, header)| <= MAX_MEMORY
    requires SignaturesInMemory(signatures)
    ensures AddSignature(BundleFile(HeaderFile(r, header), Metadata(signatures), body), signature)
         == if ShortHeader(r, header) && ShortSignatures(signatures)
            then Ok(BundleFile(HeaderFile(r, header), Metadata(Some(PushSignature(signatures, signature))), body))
            else Err
  {
    HeaderExactly(r, header);
    SignaturesExactly(signatures);
    SigningAppends(r, header, signatures, signature, body);
  }
}
