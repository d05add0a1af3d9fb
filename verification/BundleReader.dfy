/** Reading, packing, hashing and signing bundles, as they work on sources and output files. */
module BundleReader {
  import opened Base
  import opened BundleSource
  import opened Stlv
  import opened Schema
  import opened Sections
  import opened Format
  import opened BlockIndexing
  import opened PayloadReader
  import opened PayloadDecoding
  import opened Bundle
  import opened BundlePacking
  import StlvReader
  import Decoder
  import Tags

  /** Find a structure behind optional atoms and copy it. */
  method CopyNext(source: Source, tag: Tag, limit: nat) returns (r: Result<seq<byte>>)
    requires source.Valid()
    modifies source`pos
    ensures source.Valid()
    ensures match FindStructure(tag, limit, old(source.Rest()))
      case Ok((raw, rest)) => r == Ok(raw) && source.Rest() == rest
      case Err => r == Err
  {
    var head := AdvanceUntil(source, GoalStart(tag));
    if head.Err? {
      return Err;
    }
    r := StlvReader.ReadIntoVec(source, [], head.value, limit);
  }

  method DecodeStructure(item: Item, slice: seq<byte>) returns (r: Result<Val>)
    ensures r == DecodeSlice(item, slice)
  {
    r := Decoder.DecodeSlice(item, slice);
  }

  /** Read the optional metadata and advance to the payloads. */
  method ReadOptionalMetadata(source: Source) returns (r: Result<Option<Val>>)
    requires source.Valid()
    modifies source`pos
    ensures source.Valid()
    ensures match ReadMetadata(old(source.Rest()), None)
      case Ok((signatures, rest)) => r == Ok(signatures) && source.Rest() == rest
      case Err => r == Err
  {
    ghost var s := source.Rest();
    var signatures: Option<Val> := None;
    while true
      invariant source.Valid() && ReadMetadata(s, None) == ReadMetadata(source.Rest(), signatures)
      decreases |source.Rest()|
    {
      var next := StlvReader.ReadAtomHead(source);
      if next.Err? || next.value == None {
        return Err;
      }
      var head := next.value.value;
      if head == Start(Tags.PAYLOADS) {
        return Ok(signatures);
      } else if head == Start(Tags.SIGNATURES) {
        if signatures.Some? {
          return Err;
        }
        var raw := StlvReader.ReadIntoVec(source, [], head, SIGNATURES_SIZE_LIMIT);
        if raw.Err? {
          return Err;
        }
        var v := DecodeStructure(SIGNATURES, raw.value);
        if v.Err? {
          return Err;
        }
        signatures := Some(v.value);
      } else if !IsOptional(head.tag) {
        return Err;
      } else {
        var skipped := StlvReader.Skip(source, head);
        if skipped.Err? {
          return Err;
        }
      }
    }
  }

  /** Open a payload behind the head of its segment. */
  method ReadPayloadHeader(registry: Registry, entry: Entry, digest: Digest, source: Source)
    returns (r: Result<(BlockEncoded, nat)>)
    requires registry.Valid() && source.Valid()
    modifies source`pos
    ensures source.Valid()
    ensures match OpenPayload(registry, entry, old(source.Rest()), digest)
      case Ok(p) => r == Ok((p.encoding, p.length)) && source.Rest() == p.rest
      case Err => r == Err
  {
    var raw := CopyNext(source, Tags.PAYLOAD_HEADER, PAYLOAD_HEADER_SIZE_LIMIT);
    if raw.Err? || digest(raw.value) != entry.headerHash {
      return Err;
    }
    var data := AdvanceUntil(source, GoalValue(Tags.PAYLOAD_DATA));
    if data.Err? {
      return Err;
    }
    var payloadHeader := DecodeStructure(registry.PayloadHeader(), raw.value);
    if payloadHeader.Err? {
      return Err;
    }
    return Ok((Interpret(registry, payloadHeader.value), data.value.length));
  }

  /** Read the header and the metadata of a bundle behind its first head. */
  method ReadBundleHeader(registry: Registry, source: Source, expectedHash: Option<seq<byte>>, digest: Digest)
    returns (r: Result<Opened>)
    requires source.Valid()
    modifies source`pos
    ensures source.Valid() && r == Open(registry, old(source.Rest()), expectedHash, digest)
    ensures r.Ok? ==> source.Rest() == r.value.rest
  {
    var raw := CopyNext(source, Tags.BUNDLE_HEADER, BUNDLE_HEADER_SIZE_LIMIT);
    if raw.Err? || (expectedHash.Some? && digest(raw.value) != expectedHash.value) {
      return Err;
    }
    var header := DecodeStructure(registry.BundleHeader(), raw.value);
    if header.Err? {
      return Err;
    }
    var signatures := ReadOptionalMetadata(source);
    if signatures.Err? {
      return Err;
    }
    return Ok(Opened(header.value, raw.value, signatures.value, HashAlgorithmOf(registry, header.value).digest,
                     Entries(registry, header.value), source.data[source.pos..]));
  }

  /** What is returned for an opened payload, with the source at its data. */
  ghost predicate Delivered(payload: Result<OpenedPayload>, r: Result<Option<(BlockEncoded, nat)>>, rest: seq<byte>) {
    match payload
    case Ok(p) => r == Ok(Some((p.encoding, p.length))) && rest == p.rest
    case Err => r == Err
  }

  /** Open a payload. The first head of its segment is read but not checked. */
  method OpenEntry(registry: Registry, entry: Entry, digest: Digest, source: Source)
    returns (r: Result<Option<(BlockEncoded, nat)>>)
    requires registry.Valid() && source.Valid()
    modifies source`pos
    ensures source.Valid()
    ensures Delivered(OpenPayload(registry, entry, BehindHead(old(source.Rest())), digest), r, source.Rest())
  {
    var _ := StlvReader.ReadAtomHead(source);
    var payload := ReadPayloadHeader(registry, entry, digest, source);
    return if payload.Err? then Err else Ok(Some(payload.value));
  }

  class BundleReader {
    const registry: Registry
    const source: Source
    const header: Val
    const headerRaw: seq<byte>
    const signatures: Option<Val>
    /** The digest and the payload index of the header. */
    const digest: Digest
    const entries: seq<Entry>
    var nextPayload: nat

    ghost predicate Valid()
      reads this, source
    {
      source.Valid() && nextPayload <= |entries|
    }

    constructor (registry: Registry, source: Source, o: Opened)
      requires source.Valid()
      ensures Valid() && this.registry == registry && this.source == source && nextPayload == 0
      ensures header == o.header && headerRaw == o.raw && signatures == o.signatures
      ensures digest == o.digest && entries == o.entries
    {
      this.registry, this.source := registry, source;
      header, headerRaw, signatures, digest, entries := o.header, o.raw, o.signatures, o.digest, o.entries;
      nextPayload := 0;
    }

    /** Open the next payload, unless all have been opened. The first head of its segment is read
        but not checked. */
    method NextPayload() returns (r: Result<Option<(BlockEncoded, nat)>>)
      requires registry.Valid() && Valid()
      modifies this`nextPayload, source`pos
      ensures Valid()
      ensures old(nextPayload) == |entries| ==>
        r == Ok(None) && nextPayload == old(nextPayload) && source.Rest() == old(source.Rest())
      ensures old(nextPayload) < |entries| ==>
        nextPayload == old(nextPayload) + 1 &&
        Delivered(OpenPayload(registry, entries[old(nextPayload)], BehindHead(old(source.Rest())), digest), r,
                  source.Rest())
    {
      if nextPayload >= |entries| {
        return Ok(None);
      }
      var thisPayload := nextPayload;
      ghost var s := source.Rest();
      nextPayload := nextPayload + 1;
      assert source.Rest() == s;
      r := OpenEntry(registry, entries[thisPayload], digest, source);
    }
  }

  /** Start reading a bundle. The first head is read but not checked. */
  method StartBundle(registry: Registry, source: Source, expectedHash: Option<seq<byte>>, digest: Digest)
    returns (r: Result<BundleReader>)
    requires registry.Valid() && source.Valid()
    modifies source`pos
    ensures r.Ok? ==>
      fresh(r.value) && r.value.Valid() && r.value.source == source && r.value.registry == registry &&
      r.value.nextPayload == 0
    ensures match Open(registry, BehindHead(old(source.Rest())), expectedHash, digest)
      case Ok(o) =>
        r.Ok? && o == Opened(r.value.header, r.value.headerRaw, r.value.signatures, r.value.digest, r.value.entries,
                             source.Rest())
      case Err => r == Err
  {
    var _ := StlvReader.ReadAtomHead(source);
    var o := ReadBundleHeader(registry, source, expectedHash, digest);
    if o.Err? {
      return Err;
    }
    var reader := new BundleReader(registry, source, o.value);
    return Ok(reader);
  }

  /** Open the next payload and decode it into a file, which may have had contents before. */
  method ReadNext(reader: BundleReader, before: seq<byte>, answers: Store) returns (r: Result<seq<byte>>)
    requires reader.registry.Valid() && reader.Valid() && reader.nextPayload < |reader.entries|
    modifies reader`nextPayload, reader.source`pos
    ensures reader.nextPayload == old(reader.nextPayload) + 1
    ensures match ReadPayload(reader.registry, reader.entries[old(reader.nextPayload)], old(reader.source.Rest()),
                              reader.digest, answers)
      case Ok((payload, rest)) => r == Ok(payload) && reader.Valid() && reader.source.Rest() == rest
      case Err => r == Err
  {
    var entry := reader.entries[reader.nextPayload];
    var payload := reader.NextPayload();
    if payload.Err? {
      return Err;
    }
    var target := new FileTarget(before);
    var (encoding, length) := payload.value.value;
    var size := DecodeInto(reader.source, target, encoding, length, answers, reader.digest, entry.fileHash);
    if size.Err? {
      return Err;
    }
    return Ok(target.contents[..target.pos]);
  }

  /** What has been read, followed by what is still to be read. */
  ghost predicate Continues(all: Result<seq<seq<byte>>>, payloads: seq<seq<byte>>, more: Result<seq<seq<byte>>>) {
    all == if more.Ok? then Ok(payloads + more.value) else Err
  }

  lemma ContinuesEnd(all: Result<seq<seq<byte>>>, payloads: seq<seq<byte>>)
    requires Continues(all, payloads, Ok([]))
    ensures all == Ok(payloads)
  {
    assert payloads + [] == payloads;
  }

  lemma ContinuesStep(all: Result<seq<seq<byte>>>, payloads: seq<seq<byte>>, payload: seq<byte>,
                      more: Result<seq<seq<byte>>>)
    requires Continues(all, payloads, if more.Ok? then Ok([payload] + more.value) else Err)
    ensures Continues(all, payloads + [payload], more)
  {
    assert more.Ok? ==> payloads + ([payload] + more.value) == payloads + [payload] + more.value;
  }

  /** Read all payloads of an opened bundle. */
  method ReadRest(reader: BundleReader, before: seq<byte>, stores: nat -> Store) returns (r: Result<seq<seq<byte>>>)
    requires reader.registry.Valid() && reader.Valid() && reader.nextPayload == 0
    modifies reader`nextPayload, reader.source`pos
    ensures r == ReadPayloads(reader.registry, reader.entries, 0, old(reader.source.Rest()), reader.digest, stores)
  {
    ghost var all := ReadPayloads(reader.registry, reader.entries, 0, reader.source.Rest(), reader.digest, stores);
    var payloads := [];
    assert all.Ok? ==> [] + all.value == all.value;
    while reader.nextPayload < |reader.entries|
      invariant reader.Valid()
      invariant Continues(all, payloads, ReadPayloads(reader.registry, reader.entries, reader.nextPayload,
                                                      reader.source.Rest(), reader.digest, stores))
      decreases |reader.entries| - reader.nextPayload
    {
      var payload := ReadNext(reader, before, stores(reader.nextPayload));
      if payload.Err? {
        return Err;
      }
      ContinuesStep(all, payloads, payload.value,
                    ReadPayloads(reader.registry, reader.entries, reader.nextPayload, reader.source.Rest(),
                                 reader.digest, stores));
      payloads := payloads + [payload.value];
    }
    ContinuesEnd(all, payloads);
    return Ok(payloads);
  }

  /** Read a whole bundle file. */
  method ReadBundleFile(registry: Registry, file: seq<byte>, expectedHash: Option<seq<byte>>, digest: Digest,
                        before: seq<byte>, stores: nat -> Store) returns (r: Result<seq<seq<byte>>>)
    requires registry.Valid()
    ensures r == ReadBundle(registry, file, expectedHash, digest, stores)
  {
    var source := new Source(file);
    var reader := StartBundle(registry, source, expectedHash, digest);
    if reader.Err? {
      return Err;
    }
    r := ReadRest(reader.value, before, stores);
  }

  method ExpectStartOf(source: Source, tag: Tag) returns (r: Result<AtomHead>)
    requires source.Valid()
    modifies source`pos
    ensures source.Valid()
    ensures match ExpectStart(tag, old(source.Rest()))
      case Ok(rest) => r == Ok(Start(tag)) && source.Rest() == rest
      case Err => r == Err
  {
    var next := StlvReader.ReadAtomHead(source);
    if next == Ok(Some(Start(tag))) {
      return Ok(Start(tag));
    }
    return Err;
  }

  method ReadHeaderOfFile(source: Source) returns (r: Result<seq<byte>>)
    requires source.Valid()
    modifies source`pos
    ensures source.Valid()
    ensures match HeaderOfFile(old(source.Rest()))
      case Ok((raw, rest)) => r == Ok(raw) && source.Rest() == rest
      case Err => r == Err
  {
    var bundle := ExpectStartOf(source, Tags.BUNDLE);
    if bundle.Err? {
      return Err;
    }
    var start := ExpectStartOf(source, Tags.BUNDLE_HEADER);
    if start.Err? {
      return Err;
    }
    r := StlvReader.ReadIntoVec(source, [], start.value, BUNDLE_HEADER_SIZE_LIMIT);
  }

  /** Compute the hash of a bundle file. */
  method HashBundle(registry: Registry, file: seq<byte>) returns (r: Result<seq<byte>>)
    ensures r == BundleHash(registry, file)
  {
    var source := new Source(file);
    var raw := ReadHeaderOfFile(source);
    if raw.Err? {
      return Err;
    }
    var header := DecodeStructure(registry.BundleHeader(), raw.value);
    if header.Err? {
      return Err;
    }
    return Ok(HashAlgorithmOf(registry, header.value).digest(raw.value));
  }

  /** Write a copy of a bundle file with one more signature. */
  method AddBundleSignature(file: seq<byte>, signature: Blob) returns (r: Result<seq<byte>>)
    ensures r == AddSignature(file, signature)
  {
    var source := new Source(file);
    var raw := ReadHeaderOfFile(source);
    if raw.Err? {
      return Err;
    }
    var output := EncodeHead(Start(Tags.BUNDLE)) + raw.value;
    ghost var rest := source.Rest();
    var signatures := ReadOptionalMetadata(source);
    if signatures.Err? {
      return Err;
    }
    MetadataHasType(rest, None);
    output := Decoder.Encode(output, SIGNATURES, PushSignature(signatures.value, signature), Tags.SIGNATURES);
    output := output + EncodeHead(Start(Tags.PAYLOADS));
    var body := source.data[source.pos..];
    output := output + body;
    ghost var metadata := Serialize(ToNode(SIGNATURES, PushSignature(signatures.value, signature), Tags.SIGNATURES));
    assert output == BundleFile(raw.value, metadata, body) by {
      Regroup(EncodeHead(Start(Tags.BUNDLE)), raw.value, metadata, EncodeHead(Start(Tags.PAYLOADS)), body);
    }
    return Ok(output);
  }

  lemma Regroup(a: seq<byte>, b: seq<byte>, c: seq<byte>, d: seq<byte>, e: seq<byte>)
    ensures a + b + c + d + e == a + (b + (c + (d + e)))
  {
  }
}
