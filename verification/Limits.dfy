/** What the limits of readers and decoders mean in bytes. */
module Limits {
  import opened Base
  import opened Stlv
  import opened Schema
  import opened Codec

  /** The largest size of anything in memory. */
  const MAX_MEMORY: nat := 0x7fff_ffff_ffff_ffff

  /** Where the last value of a tree ends, when the tree is written at the given position. */
  function ValuesEnd(node: Node, at: nat): nat
    decreases node, 0
  {
    match node
    case Leaf(_, value) => at + node.Head().HeadSize() + |value|
    case Segment(_, children) => ForestValuesEnd(children, at + node.Head().HeadSize())
  }

  function ForestValuesEnd(nodes: seq<Node>, at: nat): nat
    decreases nodes, 0
  {
    if nodes == [] then 0
    else Max(ValuesEnd(nodes[0], at), ForestValuesEnd(nodes[1..], at + |Serialize(nodes[0])|))
  }

  /** A tree fits exactly if its last value ends below the limit. */
  lemma {:induction false} FitsExactly(node: Node, at: nat, limit: nat)
    requires 0 < limit
    ensures Fits(node, at, limit) <==> ValuesEnd(node, at) < limit
    decreases node, 0
  {
    if node.Segment? {
      ForestFitsExactly(node.children, at + node.Head().HeadSize(), limit);
    }
  }

  lemma {:induction false} ForestFitsExactly(nodes: seq<Node>, at: nat, limit: nat)
    requires 0 < limit
    ensures ForestFits(nodes, at, limit) <==> ForestValuesEnd(nodes, at) < limit
    decreases nodes, 0
  {
    if nodes != [] {
      FitsExactly(nodes[0], at, limit);
      ForestFitsExactly(nodes[1..], at + |Serialize(nodes[0])|, limit);
    }
  }

  /** No value ends behind its tree. */
  lemma {:induction false} ValuesEndWithin(node: Node, at: nat)
    ensures ValuesEnd(node, at) <= at + |Serialize(node)|
    decreases node, 0
  {
    ReadEncodeHead(node.Head(), []);
    if node.Segment? {
      ForestValuesEndWithin(node.children, at + node.Head().HeadSize());
    }
  }

  lemma {:induction false} ForestValuesEndWithin(nodes: seq<Node>, at: nat)
    ensures ForestValuesEnd(nodes, at) <= at + |Forest(nodes)|
    decreases nodes, 0
  {
    if nodes != [] {
      ValuesEndWithin(nodes[0], at);
      ForestValuesEndWithin(nodes[1..], at + |Serialize(nodes[0])|);
    }
  }

  /** How deeply the structures of a schema are nested. */
  function Depth(item: Item): nat {
    if item.Prim? then 0 else 1 + FieldsDepth(item.fields)
  }

  function FieldsDepth(fields: seq<Field>): nat {
    if fields == [] then 0 else Max(Depth(fields[0].item), FieldsDepth(fields[1..]))
  }

  lemma {:induction false} FieldDepth(fields: seq<Field>, i: nat)
    requires i < |fields|
    ensures Depth(fields[i].item) <= FieldsDepth(fields)
    decreases |fields|
  {
    if i > 0 {
      FieldDepth(fields[1..], i - 1);
    }
  }

  /** A struct is one level deeper than its fields at most. */
  lemma {:induction false} DepthAtMost(fields: seq<Field>, depth: nat)
    requires forall i :: 0 <= i < |fields| ==> Depth(fields[i].item) <= depth
    ensures Depth(Struct(fields)) <= 1 + depth
    decreases |fields|
  {
    if fields != [] {
      DepthAtMost(fields[1..], depth);
    }
  }

  /** The tree of a value is nested no deeper than its schema. */
  lemma {:induction false} HeightWithinDepth(item: Item, v: Val, tag: Tag)
    requires HasType(item, v)
    ensures Height(ToNode(item, v, tag)) <= Depth(item)
    decreases item, 1, 0, 0
  {
    if item.Struct? {
      FieldsWithinDepth(item.fields, v, 0, 0);
    }
  }

  lemma {:induction false} FieldsWithinDepth(fields: seq<Field>, v: Val, i: nat, j: nat)
    requires HasType(Struct(fields), v) && i <= |fields| && (if i < |fields| then j <= |v.values[i]| else j == 0)
    ensures ForestHeight(FieldNodes(fields, v, i, j)) <= FieldsDepth(fields)
    decreases fields, 0, |fields| - i, if i < |fields| then |v.values[i]| - j else 0
  {
    if i < |fields| {
      if j == |v.values[i]| {
        FieldsWithinDepth(fields, v, i + 1, 0);
      } else {
        FieldDepth(fields, i);
        HeightWithinDepth(fields[i].item, v.values[i][j], fields[i].tag);
        FieldsWithinDepth(fields, v, i, j + 1);
        assert FieldNodes(fields, v, i, j)[1..] == FieldNodes(fields, v, i, j + 1);
      }
    }
  }

  /** Decoding a tree costs at most twice its size. */
  lemma {:induction false} ChargeAtMostTwice(item: Item, node: Node)
    ensures Charge(item, node) <= 2 * Size(node)
    decreases node, 1
  {
    if node.Segment? && item.Struct? {
      ForestChargeAtMostTwice(item.fields, node.children);
    }
  }

  lemma {:induction false} ForestChargeAtMostTwice(fields: seq<Field>, nodes: seq<Node>)
    ensures ForestCharge(fields, nodes) <= 2 * ForestSize(nodes)
    decreases nodes, 0
  {
    if nodes != [] {
      var i := FieldIndex(fields, nodes[0].tag);
      if i.Some? {
        ChargeAtMostTwice(fields[i.value].item, nodes[0]);
      }
      ForestChargeAtMostTwice(fields, nodes[1..]);
    }
  }
}
