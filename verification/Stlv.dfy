/** The structured tag-length-value encoding: atom heads, trees of segments and values, and the
    functions that read, skip and copy them. */
module Stlv {
  import opened Base
  import Varint

  const TAG_SIZE: nat := 4

  type Tag = t: seq<byte> | |t| == TAG_SIZE witness [0, 0, 0, 0]

  /** Tags whose first bit is set may be skipped by readers that do not know them. */
  predicate IsOptional(tag: Tag) {
    tag[0] >= 128
  }

  datatype AtomHead = Value(tag: Tag, length: nat) | Start(tag: Tag) | End(tag: Tag) {

    /** Lengths the writer can encode: the optional length has at most 63 bits. */
    predicate Writable() {
      Value? ==> length <= 127 + Varint.MAX_VARINT
    }

    /** The size the program computes for the head. */
    function HeadSize(): nat {
      TAG_SIZE + 1 + if Value? && length >= 127 then Varint.Size(length - 127) else 0
    }

    function AtomSize(): nat {
      HeadSize() + if Value? then length else 0
    }
  }

  function EncodeHead(head: AtomHead): seq<byte> {
    match head
    case Value(tag, length) =>
      tag + [128 + Min(length, 127)] + if length >= 127 then Varint.Encode(length - 127) else []
    case Start(tag) => tag + [64]
    case End(tag) => tag + [0]
  }

  /** Read the rest of a head behind its tag and the byte that says what it is. */
  function ReadIndicated(tag: Tag, indicator: byte, s: seq<byte>): (r: Result<(AtomHead, seq<byte>)>)
    ensures r.Ok? ==> |r.value.1| <= |s| && r.value.1 == s[|s| - |r.value.1|..] && r.value.0.Writable()
  {
    if indicator >= 128 then
      if indicator < 255 then Ok((Value(tag, indicator - 128), s))
      else
        var (length, tail) :- Varint.Read(s);
        Ok((Value(tag, 127 + length), tail))
    else if indicator % 64 != 0 then Err
    else Ok((if indicator == 64 then Start(tag) else End(tag), s))
  }

  /** Read the head of the next atom, if there is one. */
  function ReadHead(s: seq<byte>): (r: Result<Option<(AtomHead, seq<byte>)>>)
    ensures r.Ok? && r.value.Some? ==>
      |r.value.value.1| < |s| && r.value.value.1 == s[|s| - |r.value.value.1|..]
    ensures r.Ok? && r.value.Some? ==> r.value.value.0.Writable()
  {
    if s == [] then Ok(None)
    else if |s| <= TAG_SIZE then Err
    else
      var head :- ReadIndicated(s[..TAG_SIZE], s[TAG_SIZE], s[TAG_SIZE + 1..]);
      Ok(Some(head))
  }

  /** What follows the next atom head, or is left when reading it fails. */
  function BehindHead(s: seq<byte>): (rest: seq<byte>)
    ensures ReadHead(s).Ok? && ReadHead(s).value.Some? ==> rest == ReadHead(s).value.value.1
  {
    if |s| <= TAG_SIZE then [] else BehindIndicator(s[TAG_SIZE], s[TAG_SIZE + 1..])
  }

  function BehindIndicator(indicator: byte, s: seq<byte>): seq<byte> {
    if indicator == 255 then Varint.RestFrom(0, s) else s
  }

  /** The byte that says what a head is, and what follows it in the encoding. */
  function Indicator(head: AtomHead): byte {
    match head
    case Value(_, length) => 128 + Min(length, 127)
    case Start(_) => 64
    case End(_) => 0
  }

  function Extension(head: AtomHead): seq<byte>
    requires head.Writable()
  {
    if head.Value? && head.length >= 127 then Varint.Encode(head.length - 127) else []
  }

  lemma ReadExtension(head: AtomHead, s: seq<byte>)
    requires head.Writable()
    ensures ReadIndicated(head.tag, Indicator(head), Extension(head) + s) == Ok((head, s))
    ensures TAG_SIZE + 1 + |Extension(head)| == head.HeadSize()
  {
    if head.Value? && head.length >= 127 {
      ReadLength(head.tag, head.length - 127, s);
    } else {
      assert Extension(head) == [] && [] + s == s;
      ReadWithoutExtension(head, s);
    }
  }

  lemma ReadWithoutExtension(head: AtomHead, s: seq<byte>)
    requires head.Value? ==> head.length < 127
    ensures ReadIndicated(head.tag, Indicator(head), s) == Ok((head, s))
  {
  }

  lemma ReadLength(tag: Tag, n: nat, s: seq<byte>)
    requires n <= Varint.MAX_VARINT
    ensures ReadIndicated(tag, 255, Varint.Encode(n) + s) == Ok((Value(tag, 127 + n), s))
    ensures |Varint.Encode(n)| == Varint.Size(n)
  {
    Varint.ReadEncode(n, s);
    Varint.SizeExact(n);
  }

  /** Reading a head inverts writing it, whatever follows, and the computed size is exact. */
  lemma ReadEncodeHead(head: AtomHead, s: seq<byte>)
    requires head.Writable()
    ensures ReadHead(EncodeHead(head) + s) == Ok(Some((head, s)))
    ensures |EncodeHead(head)| == head.HeadSize()
  {
    var all := EncodeHead(head) + s;
    assert EncodeHead(head) == head.tag + [Indicator(head)] + Extension(head);
    assert all[..TAG_SIZE] == head.tag && all[TAG_SIZE] == Indicator(head);
    assert all[TAG_SIZE + 1..] == Extension(head) + s;
    ReadExtension(head, s);
  }

  /** Which heads the writer could have written among those the reader accepts: all segmentation
      heads, all short lengths, and optional lengths of at most nine digits. */
  lemma CanonicalHead(s: seq<byte>)
    requires ReadHead(s).Ok? && ReadHead(s).value.Some?
    ensures var (head, rest) := ReadHead(s).value.value;
      var bytes := s[..|s| - |rest|];
      bytes == EncodeHead(head) <==> |bytes| <= TAG_SIZE + 1 + 9
  {
    var (head, rest) := ReadHead(s).value.value;
    var bytes, tail := s[..|s| - |rest|], s[TAG_SIZE + 1..];
    if s[TAG_SIZE] == 255 {
      Varint.CanonicalIffShort(tail);
      var digits := tail[..|tail| - |rest|];
      assert bytes == s[..TAG_SIZE] + [255] + digits;
      assert EncodeHead(head) == s[..TAG_SIZE] + [255] + Varint.Encode(head.length - 127);
      assert bytes[TAG_SIZE + 1..] == digits;
      assert EncodeHead(head)[TAG_SIZE + 1..] == Varint.Encode(head.length - 127);
    } else {
      assert bytes == EncodeHead(head);
    }
  }

  /** A value whose length can be encoded; no vector in memory is longer. */
  type Blob = b: seq<byte> | |b| <= 127 + Varint.MAX_VARINT witness []

  /** The tree a balanced stream of atoms describes. */
  datatype Node = Leaf(tag: Tag, value: Blob) | Segment(tag: Tag, children: seq<Node>) {

    function Head(): (head: AtomHead)
      ensures head.Writable()
    {
      if Leaf? then AtomHead.Value(tag, |value|) else AtomHead.Start(tag)
    }
  }

  /** What follows the head of the node in a stream. */
  function Body(node: Node): seq<byte>
    decreases node, 0
  {
    match node
    case Leaf(_, value) => value
    case Segment(tag, children) => Forest(children) + EncodeHead(End(tag))
  }

  function Serialize(node: Node): seq<byte>
    decreases node, 1
  {
    EncodeHead(node.Head()) + Body(node)
  }

  function Forest(nodes: seq<Node>): seq<byte>
    decreases nodes, 0
  {
    if nodes == [] then [] else Serialize(nodes[0]) + Forest(nodes[1..])
  }

  /** Read the rest of a value or segment whose head has been read: the node and what follows. */
  function ReadNode(head: AtomHead, s: seq<byte>): (r: Result<(Node, seq<byte>)>)
    requires head.Writable()
    ensures r.Ok? ==> |r.value.1| <= |s| && r.value.0.Head() == head
    decreases |s|, 1
  {
    match head
    case Value(tag, length) =>
      if length <= |s| then Ok((Leaf(tag, s[..length]), s[length..])) else Err
    case Start(tag) =>
      var (children, rest) :- ReadChildren(tag, s);
      Ok((Segment(tag, children), rest))
    case End(_) => Err
  }

  /** Read nodes up to the end of the open segment. */
  function ReadChildren(tag: Tag, s: seq<byte>): (r: Result<(seq<Node>, seq<byte>)>)
    ensures r.Ok? ==> |r.value.1| <= |s|
    decreases |s|, 0
  {
    var next :- ReadHead(s);
    if next == None then Err
    else
      var (head, rest) := next.value;
      if head == End(tag) then Ok(([], rest))
      else
        var (node, rest') :- ReadNode(head, rest);
        var (nodes, rest'') :- ReadChildren(tag, rest');
        Ok(([node] + nodes, rest''))
  }

  /** A serialized tree is read back, and nothing else is consumed. */
  lemma {:induction false} ReadSerialized(node: Node, s: seq<byte>)
    ensures ReadNode(node.Head(), Body(node) + s) == Ok((node, s))
    decreases node, 1
  {
    match node
    case Leaf(tag, value) => ReadLeaf(tag, value, s);
    case Segment(tag, children) =>
      ReadForest(tag, children, s);
      BodyOfSegment(tag, children, s);
  }

  lemma ReadLeaf(tag: Tag, value: Blob, s: seq<byte>)
    ensures ReadNode(Value(tag, |value|), value + s) == Ok((Leaf(tag, value), s))
  {
    assert (value + s)[..|value|] == value && (value + s)[|value|..] == s;
  }

  lemma BodyOfSegment(tag: Tag, children: seq<Node>, s: seq<byte>)
    ensures Body(Segment(tag, children)) + s == Forest(children) + (EncodeHead(End(tag)) + s)
  {
  }

  lemma ReadNoChildren(tag: Tag, s: seq<byte>)
    ensures ReadChildren(tag, EncodeHead(End(tag)) + s) == Ok(([], s))
  {
    ReadEncodeHead(End(tag), s);
  }

  /** A node in front of others is read first. */
  lemma ReadOneMore(tag: Tag, node: Node, s: seq<byte>)
    requires ReadNode(node.Head(), Body(node) + s) == Ok((node, s))
    ensures ReadChildren(tag, EncodeHead(node.Head()) + (Body(node) + s)) == match ReadChildren(tag, s)
      case Ok((nodes, rest)) => Ok(([node] + nodes, rest))
      case Err => Err
  {
    ReadEncodeHead(node.Head(), Body(node) + s);
  }

  lemma {:induction false} ReadForest(tag: Tag, nodes: seq<Node>, s: seq<byte>)
    ensures ReadChildren(tag, Forest(nodes) + (EncodeHead(End(tag)) + s)) == Ok((nodes, s))
    decreases nodes, 0
  {
    var tail := EncodeHead(End(tag)) + s;
    if nodes == [] {
      assert Forest(nodes) + tail == tail;
      ReadNoChildren(tag, s);
    } else {
      var node, rest := nodes[0], Forest(nodes[1..]) + tail;
      assert Forest(nodes) + tail == EncodeHead(node.Head()) + (Body(node) + rest);
      ReadSerialized(node, rest);
      ReadForest(tag, nodes[1..], s);
      ReadOneMore(tag, node, rest);
      assert nodes == [node] + nodes[1..];
    }
  }

  /** Whether copying the node behind `at` bytes of output keeps every value below the limit. */
  predicate Fits(node: Node, at: nat, limit: nat)
    decreases node, 0
  {
    match node
    case Leaf(_, value) => at + node.Head().HeadSize() + |value| < limit
    case Segment(_, children) => ForestFits(children, at + node.Head().HeadSize(), limit)
  }

  predicate ForestFits(nodes: seq<Node>, at: nat, limit: nat)
    decreases nodes, 0
  {
    nodes == [] ||
    (Fits(nodes[0], at, limit) && ForestFits(nodes[1..], at + |Serialize(nodes[0])|, limit))
  }

  /** A node that ends below the limit fits. */
  lemma {:induction false} SmallNodeFits(node: Node, at: nat, limit: nat)
    requires at + |Serialize(node)| < limit
    ensures Fits(node, at, limit)
    decreases node, 0
  {
    ReadEncodeHead(node.Head(), []);
    if node.Segment? {
      SmallForestFits(node.children, at + node.Head().HeadSize(), limit);
    }
  }

  lemma {:induction false} SmallForestFits(nodes: seq<Node>, at: nat, limit: nat)
    requires at + |Forest(nodes)| < limit
    ensures ForestFits(nodes, at, limit)
    decreases nodes, 0
  {
    if nodes != [] {
      SmallNodeFits(nodes[0], at, limit);
      SmallForestFits(nodes[1..], at + |Serialize(nodes[0])|, limit);
    }
  }

  /** Copy the value or segment with the given head to the output, head included. */
  function CopyNode(head: AtomHead, s: seq<byte>, output: seq<byte>, limit: nat): (r: Result<(seq<byte>, seq<byte>)>)
    requires head.Writable()
    ensures r.Ok? ==> |r.value.1| <= |s|
    decreases |s|, 1
  {
    var output' := output + EncodeHead(head);
    match head
    case Value(_, length) =>
      if |output'| + length < limit && length <= |s| then Ok((output' + s[..length], s[length..])) else Err
    case Start(tag) => CopyChildren(tag, s, output', limit)
    case End(_) => Err
  }

  function CopyChildren(tag: Tag, s: seq<byte>, output: seq<byte>, limit: nat): (r: Result<(seq<byte>, seq<byte>)>)
    ensures r.Ok? ==> |r.value.1| <= |s|
    decreases |s|, 0
  {
    var next :- ReadHead(s);
    if next == None then Err
    else
      var (head, rest) := next.value;
      if head == End(tag) then Ok((output + EncodeHead(head), rest))
      else
        var (output', rest') :- CopyNode(head, rest, output, limit);
        CopyChildren(tag, rest', output', limit)
  }

  /** Copying yields the canonical bytes of the tree that is read, if it fits. */
  lemma {:induction false} CopyIsSerialize(head: AtomHead, s: seq<byte>, output: seq<byte>, limit: nat)
    requires head.Writable()
    ensures CopyNode(head, s, output, limit) == match ReadNode(head, s)
      case Ok((node, rest)) =>
        if Fits(node, |output|, limit) then Ok((output + Serialize(node), rest)) else Err
      case Err => Err
    decreases |s|, 1
  {
    ReadEncodeHead(head, []);
    var output' := output + EncodeHead(head);
    match head
    case Value(tag, length) =>
      if length <= |s| {
        assert output' + s[..length] == output + Serialize(Leaf(tag, s[..length]));
      }
    case Start(tag) =>
      CopyChildrenIsForest(tag, s, output', limit);
      if ReadChildren(tag, s).Ok? {
        SegmentBytes(tag, ReadChildren(tag, s).value.0, output);
      }
    case End(_) =>
  }

  lemma SegmentBytes(tag: Tag, children: seq<Node>, output: seq<byte>)
    ensures output + EncodeHead(Start(tag)) + Forest(children) + EncodeHead(End(tag))
         == output + Serialize(Segment(tag, children))
  {
    var head, forest, end := EncodeHead(Start(tag)), Forest(children), EncodeHead(End(tag));
    assert output + head + forest + end == output + (head + (forest + end));
  }

  /** The result of copying nodes and the end of their segment. */
  function Copied(tag: Tag, nodes: seq<Node>, output: seq<byte>, rest: seq<byte>, limit: nat):
    Result<(seq<byte>, seq<byte>)>
  {
    if ForestFits(nodes, |output|, limit) then Ok((output + Forest(nodes) + EncodeHead(End(tag)), rest)) else Err
  }

  /** What copying the children of a segment and its end should yield. */
  function CopiedForest(tag: Tag, s: seq<byte>, output: seq<byte>, limit: nat): Result<(seq<byte>, seq<byte>)> {
    var (nodes, rest) :- ReadChildren(tag, s);
    Copied(tag, nodes, output, rest, limit)
  }

  lemma {:induction false} CopyChildrenIsForest(tag: Tag, s: seq<byte>, output: seq<byte>, limit: nat)
    ensures CopyChildren(tag, s, output, limit) == CopiedForest(tag, s, output, limit)
    decreases |s|, 0
  {
    var next := ReadHead(s);
    if next.Ok? && next.value.Some? {
      var (head, rest) := next.value.value;
      if head == End(tag) {
        assert output + Forest([]) == output;
      } else {
        CopyIsSerialize(head, rest, output, limit);
        var r := ReadNode(head, rest);
        if r.Ok? {
          var (node, rest') := r.value;
          CopyChildrenIsForest(tag, rest', output + Serialize(node), limit);
          var more := ReadChildren(tag, rest');
          if more.Ok? {
            CopiedOneMore(tag, node, more.value.0, output, more.value.1, limit);
          }
        }
      }
    }
  }

  lemma CopiedOneMore(tag: Tag, node: Node, nodes: seq<Node>, output: seq<byte>, rest: seq<byte>, limit: nat)
    ensures Copied(tag, [node] + nodes, output, rest, limit)
         == if Fits(node, |output|, limit) then Copied(tag, nodes, output + Serialize(node), rest, limit) else Err
  {
    ForestOneMore(node, nodes, output);
    FitsOneMore(node, nodes, |output|, limit);
  }

  lemma ForestOneMore(node: Node, nodes: seq<Node>, output: seq<byte>)
    ensures output + Serialize(node) + Forest(nodes) == output + Forest([node] + nodes)
  {
    assert Forest([node] + nodes) == Serialize(node) + Forest(nodes) by {
      assert ([node] + nodes)[1..] == nodes;
    }
    Associate(output, Serialize(node), Forest(nodes));
  }

  lemma Associate(a: seq<byte>, b: seq<byte>, c: seq<byte>)
    ensures a + b + c == a + (b + c)
  {
  }

  lemma FitsOneMore(node: Node, nodes: seq<Node>, at: nat, limit: nat)
    ensures ForestFits([node] + nodes, at, limit)
        <==> Fits(node, at, limit) && ForestFits(nodes, at + |Serialize(node)|, limit)
  {
    assert ([node] + nodes)[1..] == nodes;
  }
}
