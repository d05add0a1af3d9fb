/** Packing payload files into a bundle file. */
module BundleBuilder {
  import opened Base
  import opened Stlv
  import opened Schema
  import opened Format
  import opened BlockIndexing
  import opened BlockEncoding
  import opened PayloadReader
  import opened PayloadDecoding
  import opened Bundle
  import opened BundlePacking
  import Decoder
  import Tags

  /** A payload file: how reading it is split, and in which order the workers deliver its blocks. */
  datatype PayloadFile = PayloadFile(
    buffers: seq<seq<byte>>, order: seq<nat>, names: Option<Names>, delivery: seq<seq<Val>>)
  {
    function AsPayload(): Payload {
      Payload(Flatten(buffers), names, delivery)
    }

    ghost predicate Valid(r: Registry) {
      r.Valid() && |delivery| == 7 && (forall buffer :: buffer in buffers ==> buffer != []) &&
      (names.Some? ==>
        names.value.Known(r) &&
        var config := names.value.Config(r);
        config.chunking.Valid() ==> Permutation(order, |SentBlocks(config, config.Blocks(Flatten(buffers)))|)) &&
      (Packable(r, AsPayload()) ==> HasType(r.PayloadHeader(), HeaderOf(r, AsPayload())))
    }
  }

  datatype Prepared = Prepared(entry: Val, header: seq<byte>, data: seq<byte>)

  /** What is prepared for a payload. */
  ghost function PreparedFor(r: Registry, p: Payload, digest: Digest): Prepared
    requires Packable(r, p) && HasType(r.PayloadHeader(), HeaderOf(r, p))
  {
    Prepared(EntryOf(r, p, digest), HeaderBytes(r, p), DataOf(r, p))
  }

  /** Encode a payload file and make its header and its index entry. */
  method PreparePayload(r: Registry, f: PayloadFile, digest: Digest) returns (result: Result<Prepared>)
    requires f.Valid(r)
    ensures result == if Packable(r, f.AsPayload()) then Ok(PreparedFor(r, f.AsPayload(), digest)) else Err
  {
    var contents := Flatten(f.buffers);
    var encoding: BlockEncoded := None;
    var data := contents;
    if f.names.Some? {
      var config := f.names.value.Config(r);
      var encoded := EncodePayloadFile(config, f.buffers, f.order);
      if encoded.Err? {
        return Err;
      }
      encoding, data := Some((config, encoded.value.0)), encoded.value.1;
    }
    var header := Decoder.Encode([], r.PayloadHeader(), HeaderVal(f.names, encoding), Tags.PAYLOAD_HEADER);
    assert header == HeaderBytes(r, f.AsPayload());
    var entry := Record(f.delivery[4 := [Bytes(digest(header))]][5 := [Bytes(digest(contents))]]);
    return Ok(Prepared(entry, header, data));
  }

  function Payloads(files: seq<PayloadFile>): seq<Payload> {
    seq(|files|, i requires 0 <= i < |files| => files[i].AsPayload())
  }

  ghost predicate AllPackable(r: Registry, payloads: seq<Payload>) {
    forall k :: 0 <= k < |payloads| ==> Packable(r, payloads[k]) && HasType(r.PayloadHeader(), HeaderOf(r, payloads[k]))
  }

  ghost function EntryVals(r: Registry, payloads: seq<Payload>, digest: Digest): seq<Val>
    requires AllPackable(r, payloads)
  {
    seq(|payloads|, k requires 0 <= k < |payloads| => EntryOf(r, payloads[k], digest))
  }

  /** Write the segments of all payloads and close the bundle. */
  method WritePayloads(output: seq<byte>, r: Registry, prepared: seq<Prepared>, ghost payloads: seq<Payload>,
                       ghost digest: Digest)
    returns (result: seq<byte>)
    requires AllPackable(r, payloads) && |prepared| == |payloads|
    requires forall k :: 0 <= k < |payloads| ==> prepared[k] == PreparedFor(r, payloads[k], digest)
    ensures result == output + PayloadSegments(r, payloads, 0)
  {
    result := output;
    for i := 0 to |prepared|
      invariant result + PayloadSegments(r, payloads, i) == output + PayloadSegments(r, payloads, 0)
    {
      var header, data := prepared[i].header, prepared[i].data;
      SegmentWritten(result, header, data, PayloadSegments(r, payloads, i + 1));
      result := result + EncodeHead(Start(Tags.PAYLOAD)) + header;
      result := result + EncodeHead(Value(Tags.PAYLOAD_DATA, |data|)) + data + EncodeHead(End(Tags.PAYLOAD));
    }
    var ends := EncodeHead(End(Tags.PAYLOADS)) + EncodeHead(End(Tags.BUNDLE));
    result := result + ends;
  }

  lemma SegmentWritten(output: seq<byte>, header: seq<byte>, data: seq<byte>, tail: seq<byte>)
    ensures output + (EncodeHead(Start(Tags.PAYLOAD)) + SegmentRest(header, data, tail))
         == output + EncodeHead(Start(Tags.PAYLOAD)) + header
            + EncodeHead(Value(Tags.PAYLOAD_DATA, |data|)) + data + EncodeHead(End(Tags.PAYLOAD)) + tail
  {
    Nested(output, EncodeHead(Start(Tags.PAYLOAD)), header, EncodeHead(Value(Tags.PAYLOAD_DATA, |data|)), data,
           EncodeHead(End(Tags.PAYLOAD)), tail);
  }

  lemma Nested(a: seq<byte>, b: seq<byte>, c: seq<byte>, d: seq<byte>, e: seq<byte>, f: seq<byte>, g: seq<byte>)
    ensures a + (b + (c + (d + (e + (f + g))))) == a + b + c + d + e + f + g
  {
  }

  /** Prepare all payload files, in order. */
  method PrepareAll(r: Registry, files: seq<PayloadFile>, digest: Digest)
    returns (prepared: seq<Prepared>, entries: seq<Val>, ok: bool)
    requires forall k :: 0 <= k < |files| ==> files[k].Valid(r)
    ensures ok == AllPackable(r, Payloads(files))
    ensures ok ==>
      entries == EntryVals(r, Payloads(files), digest) && |prepared| == |files| &&
      forall k :: 0 <= k < |files| ==> prepared[k] == PreparedFor(r, Payloads(files)[k], digest)
  {
    ghost var payloads := Payloads(files);
    prepared, entries := [], [];
    for i := 0 to |files|
      invariant |prepared| == |entries| == i
      invariant forall k :: 0 <= k < i ==>
        Packable(r, payloads[k]) && HasType(r.PayloadHeader(), HeaderOf(r, payloads[k])) &&
        prepared[k] == PreparedFor(r, payloads[k], digest) && entries[k] == prepared[k].entry
    {
      var next := PreparePayload(r, files[i], digest);
      if next.Err? {
        assert !Packable(r, payloads[i]);
        return prepared, entries, false;
      }
      prepared := prepared + [next.value];
      entries := entries + [next.value.entry];
    }
    ok := true;
  }

  /** The header of a bundle with the given leading fields. */
  ghost function HeaderFor(r: Registry, prefix: seq<seq<Val>>, payloads: seq<Payload>, digest: Digest): Val
    requires AllPackable(r, payloads)
  {
    Record(prefix + [EntryVals(r, payloads, digest)])
  }

  /** Pack a bundle: the file, and the hash of its header. */
  method Pack(r: Registry, prefix: seq<seq<Val>>, files: seq<PayloadFile>, digest: Digest)
    returns (result: Result<(seq<byte>, seq<byte>)>)
    requires forall k :: 0 <= k < |files| ==> files[k].Valid(r)
    requires AllPackable(r, Payloads(files)) ==>
      HasType(r.BundleHeader(), HeaderFor(r, prefix, Payloads(files), digest))
    ensures result.Ok? == AllPackable(r, Payloads(files))
    ensures result.Ok? ==>
      var header := HeaderFor(r, prefix, Payloads(files), digest);
      result.value == (BundleFile(HeaderFile(r, header), Metadata(None), PayloadSegments(r, Payloads(files), 0)),
                       digest(HeaderFile(r, header)))
  {
    var prepared, entries, ok := PrepareAll(r, files, digest);
    if !ok {
      return Err;
    }
    var header := Decoder.Encode([], r.BundleHeader(), Record(prefix + [entries]), Tags.BUNDLE_HEADER);
    assert header == HeaderFile(r, Record(prefix + [entries]));
    var output := EncodeHead(Start(Tags.BUNDLE)) + header + EncodeHead(Start(Tags.PAYLOADS));
    output := WritePayloads(output, r, prepared, Payloads(files), digest);
    Flattened(EncodeHead(Start(Tags.BUNDLE)), header, EncodeHead(Start(Tags.PAYLOADS)),
              PayloadSegments(r, Payloads(files), 0));
    return Ok((output, digest(header)));
  }

  lemma Flattened(a: seq<byte>, b: seq<byte>, c: seq<byte>, d: seq<byte>)
    ensures a + b + c + d == a + (b + ([] + (c + d)))
  {
  }

  /** Packing and then reading: with the packed hash, the reader gets the contents of all payloads
      back, in order, whatever block stores it uses, exactly if all headers are within its limits and the stores
      can read the blocks they are asked for. */
  lemma PackThenRead(r: Registry, prefix: seq<seq<Val>>, payloads: seq<Payload>, digest: Digest,
                     stores: nat -> Store)
    requires r.Valid() && AllPackable(r, payloads) && |prefix| == 3
    requires forall k :: 0 <= k < |payloads| ==> Deliverable(r, payloads[k], stores(k))
    requires HasType(r.BundleHeader(), HeaderFor(r, prefix, payloads, digest))
    requires HashAlgorithmOf(r, HeaderFor(r, prefix, payloads, digest)).digest == digest
    ensures var header := HeaderFor(r, prefix, payloads, digest);
      var bytes := HeaderFile(r, header);
      ReadBundle(r, BundleFile(bytes, Metadata(None), PayloadSegments(r, payloads, 0)), Some(digest(bytes)), digest,
                 stores)
      == if ReadableHeader(r, header) && AllArrive(r, payloads, stores, 0) then Ok(Contents(payloads, 0)) else Err
  {
    BundleRoundTrip(r, HeaderFor(r, prefix, payloads, digest), None, payloads, digest, stores);
  }
}
