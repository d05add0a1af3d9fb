/** The tree that a bundle file is. */
module BundleTree {
  import opened Base
  import opened Stlv
  import opened Schema
  import opened Format
  import opened BlockIndexing
  import opened Bundle
  import opened BundlePacking
  import Tags
  import Varint

  /** The tree of a payload. */
  ghost function PayloadNode(r: Registry, p: Payload): Node
    requires Packable(r, p) && HasType(r.PayloadHeader(), HeaderOf(r, p)) && |DataOf(r, p)| <= 127 + Varint.MAX_VARINT
  {
    Segment(Tags.PAYLOAD, [ToNode(r.PayloadHeader(), HeaderOf(r, p), Tags.PAYLOAD_HEADER),
                           Leaf(Tags.PAYLOAD_DATA, DataOf(r, p))])
  }

  /** Payloads that can be written. */
  ghost predicate AllWritable(r: Registry, payloads: seq<Payload>) {
    forall k :: 0 <= k < |payloads| ==>
      Packable(r, payloads[k]) && HasType(r.PayloadHeader(), HeaderOf(r, payloads[k])) &&
      |DataOf(r, payloads[k])| <= 127 + Varint.MAX_VARINT
  }

  ghost function PayloadNodes(r: Registry, payloads: seq<Payload>, i: nat): seq<Node>
    requires i <= |payloads| && AllWritable(r, payloads)
    decreases |payloads| - i
  {
    if i == |payloads| then [] else [PayloadNode(r, payloads[i])] + PayloadNodes(r, payloads, i + 1)
  }

  lemma PayloadSegment(r: Registry, p: Payload, tail: seq<byte>)
    requires Packable(r, p) && HasType(r.PayloadHeader(), HeaderOf(r, p)) && |DataOf(r, p)| <= 127 + Varint.MAX_VARINT
    ensures EncodeHead(Start(Tags.PAYLOAD)) + SegmentRest(HeaderBytes(r, p), DataOf(r, p), tail)
         == Serialize(PayloadNode(r, p)) + tail
  {
    var header := ToNode(r.PayloadHeader(), HeaderOf(r, p), Tags.PAYLOAD_HEADER);
    var data: Node := Leaf(Tags.PAYLOAD_DATA, DataOf(r, p));
    ForestOfTwo(header, data);
    var start, end := EncodeHead(Start(Tags.PAYLOAD)), EncodeHead(End(Tags.PAYLOAD));
    assert Serialize(PayloadNode(r, p)) == start + (Forest([header, data]) + end);
    Regroup(start, Serialize(header), EncodeHead(data.Head()), data.value, end, tail);
  }

  lemma ForestFirst(a: Node, rest: seq<Node>)
    ensures Forest([a] + rest) == Serialize(a) + Forest(rest)
  {
    assert ([a] + rest)[1..] == rest;
  }

  lemma ForestOfTwo(a: Node, b: Node)
    ensures Forest([b]) == Serialize(b) && Forest([a, b]) == Serialize(a) + Serialize(b)
  {
    ForestFirst(b, []);
    ForestFirst(a, [b]);
    assert [a] + [b] == [a, b] && [b] + [] == [b];
  }

  lemma Regroup(a: seq<byte>, b: seq<byte>, c: seq<byte>, d: seq<byte>, e: seq<byte>, f: seq<byte>)
    ensures a + (b + (c + (d + (e + f)))) == a + ((b + (c + d)) + e) + f
  {
  }

  lemma SegmentsFirst(r: Registry, payloads: seq<Payload>, i: nat)
    requires i < |payloads| && AllWritable(r, payloads)
    ensures PayloadSegments(r, payloads, i)
         == Serialize(PayloadNode(r, payloads[i])) + PayloadSegments(r, payloads, i + 1)
  {
    PayloadSegment(r, payloads[i], PayloadSegments(r, payloads, i + 1));
  }

  lemma {:induction false} SegmentsAreForest(r: Registry, payloads: seq<Payload>, i: nat)
    requires i <= |payloads| && AllWritable(r, payloads)
    ensures PayloadSegments(r, payloads, i)
         == Forest(PayloadNodes(r, payloads, i)) + (EncodeHead(End(Tags.PAYLOADS)) + EncodeHead(End(Tags.BUNDLE)))
    decreases |payloads| - i
  {
    if i < |payloads| {
      var node, nodes := PayloadNode(r, payloads[i]), PayloadNodes(r, payloads, i + 1);
      SegmentsAreForest(r, payloads, i + 1);
      SegmentsFirst(r, payloads, i);
      ForestFirst(node, nodes);
      Associate(Serialize(node), Forest(nodes), EncodeHead(End(Tags.PAYLOADS)) + EncodeHead(End(Tags.BUNDLE)));
    }
  }

  /** The tree of a bundle: header, signatures if there are any, and the payloads. */
  ghost function BundleNode(r: Registry, header: Val, signatures: Option<Val>, payloads: seq<Payload>): Node
    requires HasType(r.BundleHeader(), header) && (signatures.Some? ==> HasType(SIGNATURES, signatures.value))
    requires AllWritable(r, payloads)
  {
    Segment(Tags.BUNDLE,
      [HeaderNode(r, header)]
      + (if signatures == None then [] else [ToNode(SIGNATURES, signatures.value, Tags.SIGNATURES)])
      + [Segment(Tags.PAYLOADS, PayloadNodes(r, payloads, 0))])
  }

  /** A bundle file is one balanced tree, and nothing else. */
  lemma BundleIsTree(r: Registry, header: Val, signatures: Option<Val>, payloads: seq<Payload>)
    requires HasType(r.BundleHeader(), header) && (signatures.Some? ==> HasType(SIGNATURES, signatures.value))
    requires AllWritable(r, payloads)
    ensures BundleFile(HeaderFile(r, header), Metadata(signatures), PayloadSegments(r, payloads, 0))
         == Serialize(BundleNode(r, header, signatures, payloads))
  {
    var metadata := if signatures == None then [] else [ToNode(SIGNATURES, signatures.value, Tags.SIGNATURES)];
    var section := Segment(Tags.PAYLOADS, PayloadNodes(r, payloads, 0));
    SegmentsAreForest(r, payloads, 0);
    ForestOfSections(HeaderNode(r, header), metadata, section);
    MetadataForest(signatures);
    Enclose(EncodeHead(Start(Tags.BUNDLE)), HeaderFile(r, header), Metadata(signatures),
            EncodeHead(Start(Tags.PAYLOADS)), Forest(PayloadNodes(r, payloads, 0)), EncodeHead(End(Tags.PAYLOADS)),
            EncodeHead(End(Tags.BUNDLE)));
  }

  lemma MetadataForest(signatures: Option<Val>)
    requires signatures.Some? ==> HasType(SIGNATURES, signatures.value)
    ensures Forest(if signatures == None then [] else [ToNode(SIGNATURES, signatures.value, Tags.SIGNATURES)])
         == Metadata(signatures)
  {
    if signatures.Some? {
      var node := ToNode(SIGNATURES, signatures.value, Tags.SIGNATURES);
      assert [node][1..] == [];
      assert Forest([node]) == Serialize(node) + Forest([]);
    }
  }

  lemma ForestOfSections(header: Node, metadata: seq<Node>, section: Node)
    requires |metadata| <= 1
    ensures Forest([header] + metadata + [section]) == Serialize(header) + (Forest(metadata) + Serialize(section))
  {
    FlattenedForest(metadata, section);
    ForestFirst(header, metadata + [section]);
    assert [header] + metadata + [section] == [header] + (metadata + [section]);
  }

  lemma FlattenedForest(metadata: seq<Node>, section: Node)
    requires |metadata| <= 1
    ensures Forest(metadata + [section]) == Forest(metadata) + Serialize(section)
  {
    ForestOfTwo(section, section);
    if metadata == [] {
      assert metadata + [section] == [section];
    } else {
      ForestOfTwo(metadata[0], section);
      ForestOfTwo(section, metadata[0]);
      assert metadata == [metadata[0]] && metadata + [section] == [metadata[0], section];
    }
  }

  lemma Enclose(a: seq<byte>, b: seq<byte>, c: seq<byte>, d: seq<byte>, e: seq<byte>, f: seq<byte>, g: seq<byte>)
    ensures a + (b + (c + (d + (e + (f + g))))) == a + ((b + (c + (d + (e + f)))) + g)
  {
  }
}
