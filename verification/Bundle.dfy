/** The layout of a bundle, and reading it from the start: header, signatures, then payloads. */
module Bundle {
  import opened Base
  import opened Stlv
  import opened Schema
  import opened Codec
  import opened Sections
  import opened Format
  import opened BlockIndexing
  import opened BlockEncoding
  import opened PayloadDecoding
  import opened PayloadReader
  import Tags

  const BUNDLE_HEADER_SIZE_LIMIT: nat := 0x2_0000
  const PAYLOAD_HEADER_SIZE_LIMIT: nat := 0x200_0000
  const SIGNATURES_SIZE_LIMIT: nat := 0x200_0000
  const MAX_DEPTH: nat := 32
  const MAX_SIZE: nat := 0xffff_ffff_ffff_ffff

  /** Decode one structure from a byte slice; bytes after it are ignored. */
  function DecodeSlice(item: Item, slice: seq<byte>): (r: Result<Val>)
    ensures r.Ok? ==> HasType(item, r.value)
  {
    var st := State(slice, MAX_DEPTH, MAX_SIZE);
    var (head, st') :- NextHead(st);
    var (v, _) :- DecodeItem(item, head, st');
    DecodedHasType(item, head, st');
    Ok(v)
  }

  /** A structure that can be written. */
  ghost predicate IsStructure(item: Item, v: Val) {
    item.Struct? && WellFormed(item) && HasType(item, v)
  }

  /** A written structure can be decoded within the limits for depth and size. */
  predicate Decodable(item: Item, node: Node) {
    Height(node) <= MAX_DEPTH && Charge(item, node) <= MAX_SIZE
  }

  /** A structure can be read back: copying it stays within the size limit, and decoding it within the
      limits for depth and size. */
  ghost predicate Readable(item: Item, v: Val, tag: Tag, limit: nat)
    requires HasType(item, v)
  {
    var node := ToNode(item, v, tag);
    Fits(node, 0, limit) && Decodable(item, node)
  }

  /** Whatever follows a tree in a slice does not matter. */
  lemma TrailingIgnored(item: Item, node: Node, rest: seq<byte>)
    ensures DecodeSlice(item, Serialize(node) + rest) == DecodeSlice(item, Serialize(node))
  {
    assert Serialize(node) + [] == Serialize(node);
    DecodeTree(item, node, State(Serialize(node), MAX_DEPTH, MAX_SIZE), []);
    DecodeTree(item, node, State(Serialize(node) + rest, MAX_DEPTH, MAX_SIZE), rest);
  }

  /** Find a structure behind optional atoms and copy it. */
  function FindStructure(tag: Tag, limit: nat, s: seq<byte>): Result<(seq<byte>, seq<byte>)> {
    var (head, rest) :- SkipUntil(GoalStart(tag), s);
    CopyNode(head, rest, [], limit)
  }

  /** A structure that has been written is copied exactly if it fits, and decoded exactly if that is
      possible within the limits. */
  lemma CopyStructure(item: Item, v: Val, tag: Tag, limit: nat, rest: seq<byte>)
    requires IsStructure(item, v)
    ensures var node := ToNode(item, v, tag);
      CopyNode(Start(tag), Body(node) + rest, [], limit)
      == (if Fits(node, 0, limit) then Ok((Serialize(node), rest)) else Err) &&
      DecodeSlice(item, Serialize(node)) == if Decodable(item, node) then Ok(v) else Err
  {
    var node := ToNode(item, v, tag);
    ReadSerialized(node, rest);
    CopyIsSerialize(Start(tag), Body(node) + rest, [], limit);
    assert [] + Serialize(node) == Serialize(node);
    assert Serialize(node) + [] == Serialize(node);
    RoundTrip(item, v, tag, State(Serialize(node), MAX_DEPTH, MAX_SIZE), []);
  }

  /** A structure that has been written is found and decoded, and what follows it is left. */
  lemma FindWritten(item: Item, v: Val, tag: Tag, limit: nat, rest: seq<byte>)
    requires IsStructure(item, v)
    ensures var node := ToNode(item, v, tag);
      FindStructure(tag, limit, Serialize(node) + rest)
      == (if Fits(node, 0, limit) then Ok((Serialize(node), rest)) else Err) &&
      DecodeSlice(item, Serialize(node)) == if Decodable(item, node) then Ok(v) else Err
  {
    var node := ToNode(item, v, tag);
    assert Serialize(node) + rest == EncodeHead(Start(tag)) + (Body(node) + rest);
    FoundAtOnce(GoalStart(tag), Start(tag), Body(node) + rest);
    CopyStructure(item, v, tag, limit, rest);
  }

  /** Read the optional metadata up to the payloads. Signatures are kept, anything else optional is
      skipped. */
  function ReadMetadata(s: seq<byte>, signatures: Option<Val>): Result<(Option<Val>, seq<byte>)>
    decreases |s|
  {
    var next :- ReadHead(s);
    if next == None then Err
    else
      var (head, rest) := next.value;
      if head == Start(Tags.PAYLOADS) then Ok((signatures, rest))
      else if head == Start(Tags.SIGNATURES) then
        if signatures.Some? then Err
        else
          var (raw, rest') :- CopyNode(head, rest, [], SIGNATURES_SIZE_LIMIT);
          var v :- DecodeSlice(SIGNATURES, raw);
          ReadMetadata(rest', Some(v))
      else if !IsOptional(head.tag) then Err
      else
        var (_, rest') :- ReadNode(head, rest);
        ReadMetadata(rest', signatures)
  }

  /** Between header and payloads, the first byte of the tag of an atom tells what becomes of it: from 128 on, it is
      skipped; below, it is an error. Signatures are an exception once: they are decoded if there have been none,
      and an error otherwise. */
  lemma MetadataByFirstByte(head: AtomHead, rest: seq<byte>, signatures: Option<Val>)
    requires head.Writable() && head != Start(Tags.PAYLOADS)
    ensures head == Start(Tags.SIGNATURES) && signatures.Some? ==>
      ReadMetadata(EncodeHead(head) + rest, signatures) == Err
    ensures var skipped := ReadNode(head, rest);
      head != Start(Tags.SIGNATURES) ==>
      ReadMetadata(EncodeHead(head) + rest, signatures)
      == if head.tag[0] < 128 || skipped.Err? then Err else ReadMetadata(skipped.value.1, signatures)
    ensures ReadMetadata([], signatures) == Err
  {
    ReadEncodeHead(head, rest);
  }

  /** What the index of a bundle says about a payload. */
  datatype Entry = Entry(headerHash: seq<byte>, fileHash: seq<byte>)

  /** A bundle whose payloads are to be read next, with the digest and the index of its header. */
  datatype Opened = Opened(
    header: Val, raw: seq<byte>, signatures: Option<Val>, digest: Digest, entries: seq<Entry>, rest: seq<byte>)

  /** Start reading behind the first atom head, which the reader does not check. */
  function Open(r: Registry, s: seq<byte>, expectedHash: Option<seq<byte>>, digest: Digest): (o: Result<Opened>)
    ensures o.Ok? && expectedHash.Some? ==> digest(o.value.raw) == expectedHash.value
  {
    var (raw, rest) :- FindStructure(Tags.BUNDLE_HEADER, BUNDLE_HEADER_SIZE_LIMIT, s);
    if expectedHash.Some? && digest(raw) != expectedHash.value then Err else OpenRaw(r, raw, rest)
  }

  /** An expected hash only decides whether a bundle can be opened: exactly if the header has it. */
  lemma ExpectedHashDecides(r: Registry, s: seq<byte>, hash: seq<byte>, digest: Digest)
    ensures var any := Open(r, s, None, digest);
      Open(r, s, Some(hash), digest) == if any.Ok? && digest(any.value.raw) != hash then Err else any
  {
  }

  /** Go on behind the header, whose bytes are given. */
  function OpenRaw(r: Registry, raw: seq<byte>, rest: seq<byte>): (o: Result<Opened>)
    ensures o.Ok? ==> o.value.raw == raw
  {
    var header :- DecodeSlice(r.BundleHeader(), raw);
    var (signatures, rest') :- ReadMetadata(rest, None);
    Ok(Opened(header, raw, signatures, HashAlgorithmOf(r, header).digest, Entries(r, header), rest'))
  }

  function PayloadIndex(r: Registry, header: Val): seq<Val>
    requires HasType(r.BundleHeader(), header)
  {
    header.values[3]
  }

  function HashAlgorithmOf(r: Registry, header: Val): HashAlgorithm
    requires HasType(r.BundleHeader(), header)
  {
    assert HasType(r.BundleHeader().fields[2].item, header.values[2][0]);
    r.hashAlgorithm(header.values[2][0].raw).value
  }

  function HeaderHash(r: Registry, entry: Val): seq<byte>
    requires HasType(r.PayloadEntry(), entry)
  {
    assert HasType(r.PayloadEntry().fields[4].item, entry.values[4][0]);
    entry.values[4][0].raw
  }

  function FileHash(r: Registry, entry: Val): seq<byte>
    requires HasType(r.PayloadEntry(), entry)
  {
    assert HasType(r.PayloadEntry().fields[5].item, entry.values[5][0]);
    entry.values[5][0].raw
  }

  function Entries(r: Registry, header: Val): seq<Entry>
    requires HasType(r.BundleHeader(), header)
  {
    assert forall i :: 0 <= i < |PayloadIndex(r, header)| ==>
      HasType(r.BundleHeader().fields[3].item, header.values[3][i]);
    seq(|PayloadIndex(r, header)|, i requires 0 <= i < |PayloadIndex(r, header)| =>
      Entry(HeaderHash(r, PayloadIndex(r, header)[i]), FileHash(r, PayloadIndex(r, header)[i])))
  }

  /** The block encoding a payload header describes. */
  function Interpret(r: Registry, header: Val): (e: BlockEncoded)
    requires r.Valid() && HasType(r.PayloadHeader(), header)
    ensures e.Some? ==> e.value.0.Sound()
  {
    if header.values[0] == [] then None
    else
      var encoding, item := header.values[0][0], r.BlockEncoding();
      assert HasType(r.PayloadHeader().fields[0].item, encoding);
      assert forall i :: 0 <= i < 6 && encoding.values[i] != [] ==> HasType(item.fields[i].item, encoding.values[i][0]);
      assert |encoding.values[0]| == |encoding.values[1]| == |encoding.values[2]| == |encoding.values[4]| == 1;
      var config := Config(r.hashAlgorithm(encoding.values[1][0].raw).value,
                           r.chunker(encoding.values[0][0].raw).value,
                           encoding.values[2][0].raw == [1],
                           if encoding.values[3] == [] then None else r.compression(encoding.values[3][0].raw));
      Some((config, Encoding(encoding.values[4][0].raw,
                             if encoding.values[5] == [] then None else Some(encoding.values[5][0].raw))))
  }

  /** A payload whose data is to be read next. */
  datatype OpenedPayload = OpenedPayload(encoding: BlockEncoded, length: nat, rest: seq<byte>)

  /** Open a payload behind the first atom head of its segment, which the reader does not check. */
  function OpenPayload(r: Registry, entry: Entry, s: seq<byte>, digest: Digest): Result<OpenedPayload>
    requires r.Valid()
  {
    var (raw, rest') :- FindStructure(Tags.PAYLOAD_HEADER, PAYLOAD_HEADER_SIZE_LIMIT, s);
    if digest(raw) != entry.headerHash then Err
    else
      var (data, rest'') :- SkipUntil(GoalValue(Tags.PAYLOAD_DATA), rest');
      var payloadHeader :- DecodeSlice(r.PayloadHeader(), raw);
      Ok(OpenedPayload(Interpret(r, payloadHeader), data.length, rest''))
  }

  /** A payload is only opened if its header, the first structure of its segment, has the hash that the index
      lists, and its encoding is the one this header describes. */
  lemma OpenedAsListed(r: Registry, entry: Entry, s: seq<byte>, digest: Digest)
    requires r.Valid() && OpenPayload(r, entry, s, digest).Ok?
    ensures var found := FindStructure(Tags.PAYLOAD_HEADER, PAYLOAD_HEADER_SIZE_LIMIT, s);
      found.Ok? && digest(found.value.0) == entry.headerHash &&
      var header := DecodeSlice(r.PayloadHeader(), found.value.0);
      header.Ok? && OpenPayload(r, entry, s, digest).value.encoding == Interpret(r, header.value)
  {
  }

  /** Open and decode a payload: the payload, and what follows its segment. */
  function ReadPayload(r: Registry, entry: Entry, s: seq<byte>, digest: Digest, answers: Store):
    Result<(seq<byte>, seq<byte>)>
    requires r.Valid()
  {
    var segment :- OpenPayload(r, entry, BehindHead(s), digest);
    DecodePayload(segment.encoding, segment.rest, segment.length, answers, digest, entry.fileHash)
  }

  /** Open and decode all payloads from number `i` on. */
  function ReadPayloads(r: Registry, entries: seq<Entry>, i: nat, s: seq<byte>, digest: Digest,
                        stores: nat -> Store): Result<seq<seq<byte>>>
    requires r.Valid() && i <= |entries|
    decreases |entries| - i
  {
    if i == |entries| then Ok([])
    else
      var (payload, rest) :- ReadPayload(r, entries[i], s, digest, stores(i));
      var more :- ReadPayloads(r, entries, i + 1, rest, digest, stores);
      Ok([payload] + more)
  }

  /** Read a whole bundle: its payloads, in order. */
  function ReadBundle(r: Registry, s: seq<byte>, expectedHash: Option<seq<byte>>, digest: Digest,
                      stores: nat -> Store): Result<seq<seq<byte>>>
    requires r.Valid()
  {
    var bundle :- Open(r, BehindHead(s), expectedHash, digest);
    ReadPayloads(r, bundle.entries, 0, bundle.rest, bundle.digest, stores)
  }

  lemma PayloadAsListed(r: Registry, entry: Entry, s: seq<byte>, digest: Digest, answers: Store)
    requires r.Valid() && ReadPayload(r, entry, s, digest, answers).Ok?
    ensures digest(ReadPayload(r, entry, s, digest, answers).value.0) == entry.fileHash
  {
  }

  lemma ReadFirst(r: Registry, entries: seq<Entry>, i: nat, s: seq<byte>, digest: Digest, stores: nat -> Store)
    requires r.Valid() && i < |entries| && ReadPayloads(r, entries, i, s, digest, stores).Ok?
    ensures ReadPayload(r, entries[i], s, digest, stores(i)).Ok?
    ensures var (payload, rest) := ReadPayload(r, entries[i], s, digest, stores(i)).value;
      var more := ReadPayloads(r, entries, i + 1, rest, digest, stores);
      more.Ok? && ReadPayloads(r, entries, i, s, digest, stores) == Ok([payload] + more.value)
  {
  }

  /** Whatever is read has the hashes that the index lists, payload by payload. */
  lemma {:induction false} ReadAsListed(r: Registry, entries: seq<Entry>, i: nat, s: seq<byte>, digest: Digest,
                                        stores: nat -> Store)
    requires r.Valid() && i <= |entries| && ReadPayloads(r, entries, i, s, digest, stores).Ok?
    ensures HasHashes(entries, i, ReadPayloads(r, entries, i, s, digest, stores).value, digest)
    decreases |entries| - i
  {
    if i < |entries| {
      ReadFirst(r, entries, i, s, digest, stores);
      PayloadAsListed(r, entries[i], s, digest, stores(i));
      var (payload, rest) := ReadPayload(r, entries[i], s, digest, stores(i)).value;
      ReadAsListed(r, entries, i + 1, rest, digest, stores);
      ListsOneMore(entries, i, payload, ReadPayloads(r, entries, i + 1, rest, digest, stores).value, digest);
    }
  }

  ghost predicate HasHashes(entries: seq<Entry>, i: nat, payloads: seq<seq<byte>>, digest: Digest) {
    |payloads| == |entries| - i && forall k :: 0 <= k < |payloads| ==> digest(payloads[k]) == entries[i + k].fileHash
  }

  lemma ListsOneMore(entries: seq<Entry>, i: nat, payload: seq<byte>, more: seq<seq<byte>>, digest: Digest)
    requires i < |entries| && digest(payload) == entries[i].fileHash && HasHashes(entries, i + 1, more, digest)
    ensures HasHashes(entries, i, [payload] + more, digest)
  {
    forall k | 0 < k < 1 + |more|
      ensures ([payload] + more)[k] == more[k - 1]
    {
    }
  }

  /** Two different payloads with the same digest at the same place. */
  ghost predicate PayloadCollision(digest: Digest, a: seq<seq<byte>>, b: seq<seq<byte>>) {
    exists k :: 0 <= k < |a| && k < |b| && a[k] != b[k] && digest(a[k]) == digest(b[k])
  }

  lemma ListedAlike(entries: seq<Entry>, a: seq<seq<byte>>, b: seq<seq<byte>>, digest: Digest)
    requires HasHashes(entries, 0, a, digest) && HasHashes(entries, 0, b, digest)
    ensures a == b || PayloadCollision(digest, a, b)
  {
    if a != b {
      var k :| 0 <= k < |a| && a[k] != b[k];
      assert digest(a[k]) == digest(b[k]);
    }
  }

  /** The header bytes of a bundle that can be opened. */
  function HeaderRaw(r: Registry, s: seq<byte>, expectedHash: Option<seq<byte>>, digest: Digest): seq<byte>
    requires Open(r, BehindHead(s), expectedHash, digest).Ok?
  {
    Open(r, BehindHead(s), expectedHash, digest).value.raw
  }

  /** The header hash pins the contents: two files of any bytes that are read with the same expected hash,
      with whatever stores, give the same payloads; or their header bytes, or two payloads at the same
      place, differ and have the same digest. */
  lemma HashPinsContents(r: Registry, a: seq<byte>, b: seq<byte>, hash: seq<byte>, digest: Digest,
                         storesA: nat -> Store, storesB: nat -> Store)
    requires r.Valid()
    requires ReadBundle(r, a, Some(hash), digest, storesA).Ok? && ReadBundle(r, b, Some(hash), digest, storesB).Ok?
    ensures var payloadsA := ReadBundle(r, a, Some(hash), digest, storesA).value;
      var payloadsB := ReadBundle(r, b, Some(hash), digest, storesB).value;
      var rawA, rawB := HeaderRaw(r, a, Some(hash), digest), HeaderRaw(r, b, Some(hash), digest);
      digest(rawA) == digest(rawB) == hash &&
      (rawA == rawB ==>
         payloadsA == payloadsB ||
         PayloadCollision(Open(r, BehindHead(a), Some(hash), digest).value.digest, payloadsA, payloadsB))
  {
    var openA := Open(r, BehindHead(a), Some(hash), digest).value;
    var openB := Open(r, BehindHead(b), Some(hash), digest).value;
    ReadAsListed(r, openA.entries, 0, openA.rest, openA.digest, storesA);
    ReadAsListed(r, openB.entries, 0, openB.rest, openB.digest, storesB);
    if openA.raw == openB.raw {
      SameHeader(r, a, b, Some(hash), digest);
      ListedAlike(openA.entries, ReadBundle(r, a, Some(hash), digest, storesA).value,
                  ReadBundle(r, b, Some(hash), digest, storesB).value, openA.digest);
    }
  }

  /** The same header bytes have the same digest and index. */
  lemma SameHeader(r: Registry, a: seq<byte>, b: seq<byte>, expectedHash: Option<seq<byte>>, digest: Digest)
    requires Open(r, BehindHead(a), expectedHash, digest).Ok? && Open(r, BehindHead(b), expectedHash, digest).Ok?
    requires HeaderRaw(r, a, expectedHash, digest) == HeaderRaw(r, b, expectedHash, digest)
    ensures var openA := Open(r, BehindHead(a), expectedHash, digest).value;
      var openB := Open(r, BehindHead(b), expectedHash, digest).value;
      openA.digest == openB.digest && openA.entries == openB.entries
  {
    FromHeader(r, BehindHead(a), expectedHash, digest);
    FromHeader(r, BehindHead(b), expectedHash, digest);
  }

  /** The digest and the index of an opened bundle come from its header bytes. */
  lemma FromHeader(r: Registry, s: seq<byte>, expectedHash: Option<seq<byte>>, digest: Digest)
    requires Open(r, s, expectedHash, digest).Ok?
    ensures var open := Open(r, s, expectedHash, digest).value;
      var header := DecodeSlice(r.BundleHeader(), open.raw);
      header.Ok? && open.digest == HashAlgorithmOf(r, header.value).digest && open.entries == Entries(r, header.value)
  {
  }
}
