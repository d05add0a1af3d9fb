/** What the structure codec means, on trees: schemas, values, and the trees that encode them. */
module Schema {
  import opened Base
  import opened Stlv
  import Varint

  /** How often a field may occur: exactly once, at most once, or any number of times. */
  datatype Kind = Required | Optional | Repeated

  /** A primitive is any value its parser accepts. */
  datatype Item = Prim(accepts: seq<byte> -> bool) | Struct(fields: seq<Field>)

  datatype Field = Field(tag: Tag, kind: Kind, item: Item)

  /** A record holds, for each field, the values it occurs with. */
  datatype Val = Bytes(raw: seq<byte>) | Record(values: seq<seq<Val>>)

  ghost predicate DistinctTags(fields: seq<Field>) {
    forall i, j :: 0 <= i < j < |fields| ==> fields[i].tag != fields[j].tag
  }

  /** No struct in the schema uses a tag twice. */
  ghost predicate WellFormed(item: Item) {
    item.Struct? ==>
      DistinctTags(item.fields) && forall i :: 0 <= i < |item.fields| ==> WellFormed(item.fields[i].item)
  }

  predicate Cardinality(kind: Kind, n: nat) {
    match kind
    case Required => n == 1
    case Optional => n <= 1
    case Repeated => true
  }

  ghost predicate HasType(item: Item, v: Val) {
    match item
    case Prim(accepts) => v.Bytes? && |v.raw| <= 127 + Varint.MAX_VARINT && accepts(v.raw)
    case Struct(fields) =>
      v.Record? && |v.values| == |fields| &&
      forall i :: 0 <= i < |fields| ==>
        Cardinality(fields[i].kind, |v.values[i]|) &&
        forall j :: 0 <= j < |v.values[i]| ==> HasType(fields[i].item, v.values[i][j])
  }

  /** The tree that encodes a value: fields in order, each value in its own node. */
  function ToNode(item: Item, v: Val, tag: Tag): (node: Node)
    requires HasType(item, v)
    ensures node.tag == tag
    decreases item, 1, 0, 0
  {
    match item
    case Prim(_) => Leaf(tag, v.raw)
    case Struct(fields) => Segment(tag, FieldNodes(fields, v, 0, 0))
  }

  /** The nodes of a record from value `j` of field `i` on. */
  function FieldNodes(fields: seq<Field>, v: Val, i: nat, j: nat): seq<Node>
    requires HasType(Struct(fields), v) && i <= |fields| && (if i < |fields| then j <= |v.values[i]| else j == 0)
    decreases fields, 0, |fields| - i, if i < |fields| then |v.values[i]| - j else 0
  {
    if i == |fields| then []
    else if j == |v.values[i]| then FieldNodes(fields, v, i + 1, 0)
    else [ToNode(fields[i].item, v.values[i][j], fields[i].tag)] + FieldNodes(fields, v, i, j + 1)
  }

  /** The field with the given tag. */
  function FieldIndex(fields: seq<Field>, tag: Tag): (r: Option<nat>)
    ensures r.Some? ==> r.value < |fields| && fields[r.value].tag == tag
    ensures r == None ==> forall i :: 0 <= i < |fields| ==> fields[i].tag != tag
  {
    if fields == [] then None
    else if fields[|fields| - 1].tag == tag then Some(|fields| - 1)
    else FieldIndex(fields[..|fields| - 1], tag)
  }

  function Empty(fields: seq<Field>): seq<seq<Val>> {
    seq(|fields|, i => [])
  }

  predicate AcceptsMore(field: Field, got: seq<Val>) {
    field.kind.Repeated? || got == []
  }

  predicate Complete(fields: seq<Field>, got: seq<seq<Val>>)
    requires |got| == |fields|
  {
    forall i :: 0 <= i < |fields| && fields[i].kind.Required? ==> got[i] != []
  }

  /** The value a tree encodes. Fields may come in any order, and nodes whose tag is unknown are
      ignored if the tag is optional. */
  function TreeDecode(item: Item, node: Node): Result<Val>
    decreases node, 1
  {
    match item
    case Prim(accepts) => if node.Leaf? && accepts(node.value) then Ok(Bytes(node.value)) else Err
    case Struct(fields) => if node.Segment? then TreeFields(fields, node.children, Empty(fields)) else Err
  }

  function TreeFields(fields: seq<Field>, nodes: seq<Node>, got: seq<seq<Val>>): Result<Val>
    requires |got| == |fields|
    decreases nodes, 0
  {
    if nodes == [] then
      if Complete(fields, got) then Ok(Record(got)) else Err
    else
      match FieldIndex(fields, nodes[0].tag)
      case Some(i) =>
        if !AcceptsMore(fields[i], got[i]) then Err
        else
          var v :- TreeDecode(fields[i].item, nodes[0]);
          TreeFields(fields, nodes[1..], got[i := got[i] + [v]])
      case None =>
        if IsOptional(nodes[0].tag) then TreeFields(fields, nodes[1..], got) else Err
  }

  /** Every value of every well-formed schema is decoded from the tree that encodes it. */
  lemma {:induction false} TreeRoundTrip(item: Item, v: Val, tag: Tag)
    requires WellFormed(item) && HasType(item, v)
    ensures TreeDecode(item, ToNode(item, v, tag)) == Ok(v)
    decreases item, 1, 0, 0
  {
    if item.Struct? {
      FieldsRoundTrip(item.fields, v, 0, 0, Empty(item.fields));
    }
  }

  lemma {:induction false} FieldsRoundTrip(fields: seq<Field>, v: Val, i: nat, j: nat, got: seq<seq<Val>>)
    requires WellFormed(Struct(fields)) && HasType(Struct(fields), v)
    requires i <= |fields| && (if i < |fields| then j <= |v.values[i]| else j == 0)
    requires |got| == |fields| && forall k: nat :: k < |fields| ==> got[k] == GotOf(v.values[k], k, i, j)
    ensures TreeFields(fields, FieldNodes(fields, v, i, j), got) == Ok(v)
    decreases fields, 0, |fields| - i, if i < |fields| then |v.values[i]| - j else 0
  {
    if i == |fields| {
      assert got == v.values;
    } else if j == |v.values[i]| {
      assert v.values[i][..j] == v.values[i];
      FieldsRoundTrip(fields, v, i + 1, 0, got);
      NodesOfNext(fields, v, i);
    } else {
      var x := v.values[i][j];
      TreeRoundTrip(fields[i].item, x, fields[i].tag);
      assert v.values[i][..j + 1] == v.values[i][..j] + [x];
      FieldsRoundTrip(fields, v, i, j + 1, got[i := got[i] + [x]]);
      TakeNode(fields, v, i, j, got);
    }
  }

  /** The values of field `k` among those before value `j` of field `i`. */
  function GotOf(values: seq<Val>, k: nat, i: nat, j: nat): seq<Val> {
    if k < i then values else if k == i && j <= |values| then values[..j] else []
  }

  lemma NodesOfNext(fields: seq<Field>, v: Val, i: nat)
    requires HasType(Struct(fields), v) && i < |fields|
    ensures FieldNodes(fields, v, i, |v.values[i]|) == FieldNodes(fields, v, i + 1, 0)
  {
  }

  lemma TakeNode(fields: seq<Field>, v: Val, i: nat, j: nat, got: seq<seq<Val>>)
    requires WellFormed(Struct(fields)) && HasType(Struct(fields), v)
    requires i < |fields| && j < |v.values[i]| && |got| == |fields| && got[i] == v.values[i][..j]
    requires TreeDecode(fields[i].item, ToNode(fields[i].item, v.values[i][j], fields[i].tag)) == Ok(v.values[i][j])
    ensures TreeFields(fields, FieldNodes(fields, v, i, j), got)
         == TreeFields(fields, FieldNodes(fields, v, i, j + 1), got[i := got[i] + [v.values[i][j]]])
  {
    assert FieldIndex(fields, fields[i].tag) == Some(i);
    assert FieldNodes(fields, v, i, j)[1..] == FieldNodes(fields, v, i, j + 1);
  }

  /** The tree without the nodes the schema does not know and may ignore, at every level. */
  function Strip(item: Item, node: Node): (r: Node)
    ensures r.tag == node.tag
    decreases node, 1
  {
    if item.Struct? && node.Segment? then Segment(node.tag, StripForest(item.fields, node.children)) else node
  }

  function StripForest(fields: seq<Field>, nodes: seq<Node>): seq<Node>
    decreases nodes, 0
  {
    if nodes == [] then []
    else
      var rest := StripForest(fields, nodes[1..]);
      match FieldIndex(fields, nodes[0].tag)
      case Some(i) => [Strip(fields[i].item, nodes[0])] + rest
      case None => if IsOptional(nodes[0].tag) then rest else [nodes[0]] + rest
  }

  /** Forward compatibility: nodes the schema does not know and may ignore do not matter. */
  lemma {:induction false} StripKeepsMeaning(item: Item, node: Node)
    ensures TreeDecode(item, Strip(item, node)) == TreeDecode(item, node)
    decreases node, 1
  {
    if item.Struct? && node.Segment? {
      StripForestKeepsMeaning(item.fields, node.children, Empty(item.fields));
    }
  }

  lemma {:induction false} StripForestKeepsMeaning(fields: seq<Field>, nodes: seq<Node>, got: seq<seq<Val>>)
    requires |got| == |fields|
    ensures TreeFields(fields, StripForest(fields, nodes), got) == TreeFields(fields, nodes, got)
    decreases nodes, 0
  {
    if nodes != [] {
      var stripped := StripForest(fields, nodes[1..]);
      match FieldIndex(fields, nodes[0].tag)
      case Some(i) =>
        var item := fields[i].item;
        StripKeepsMeaning(item, nodes[0]);
        assert ([Strip(item, nodes[0])] + stripped)[1..] == stripped;
        var v := TreeDecode(item, nodes[0]);
        if v.Ok? {
          StripForestKeepsMeaning(fields, nodes[1..], got[i := got[i] + [v.value]]);
        }
      case None =>
        StripForestKeepsMeaning(fields, nodes[1..], got);
        assert ([nodes[0]] + stripped)[1..] == stripped;
    }
  }

  lemma {:induction false} StripForestAppend(fields: seq<Field>, a: seq<Node>, b: seq<Node>)
    ensures StripForest(fields, a + b) == StripForest(fields, a) + StripForest(fields, b)
    decreases |a|
  {
    if a == [] {
      assert a + b == b;
    } else {
      StripForestAppend(fields, a[1..], b);
      assert (a + b)[1..] == a[1..] + b;
    }
  }

  /** Inserting, anywhere between the nodes of a struct, a tree of any shape with an unknown
      optional tag leaves the stripped tree as it is. */
  lemma StripInserted(fields: seq<Field>, tag: Tag, before: seq<Node>, unknown: Node, after: seq<Node>)
    requires FieldIndex(fields, unknown.tag) == None && IsOptional(unknown.tag)
    ensures Strip(Struct(fields), Segment(tag, before + [unknown] + after))
         == Strip(Struct(fields), Segment(tag, before + after))
  {
    StripForestAppend(fields, before + [unknown], after);
    StripForestAppend(fields, before, [unknown]);
    StripForestAppend(fields, before, after);
    assert [unknown][1..] == [];
    assert StripForest(fields, [unknown]) == [];
  }

  /** Such insertions may happen in any nested struct as well. */
  lemma StripNested(fields: seq<Field>, tag: Tag, before: seq<Node>, a: Node, b: Node, after: seq<Node>, i: nat)
    requires FieldIndex(fields, a.tag) == Some(i) && b.tag == a.tag
    requires Strip(fields[i].item, a) == Strip(fields[i].item, b)
    ensures Strip(Struct(fields), Segment(tag, before + [a] + after))
         == Strip(Struct(fields), Segment(tag, before + [b] + after))
  {
    StripForestAppend(fields, before + [a], after);
    StripForestAppend(fields, before, [a]);
    StripForestAppend(fields, before + [b], after);
    StripForestAppend(fields, before, [b]);
    assert [a][1..] == [] && [b][1..] == [];
  }

  /** An unknown node whose tag has a first byte below 128 makes decoding fail, wherever it is. */
  lemma {:induction false} UnknownRejected(fields: seq<Field>, nodes: seq<Node>, i: nat, got: seq<seq<Val>>)
    requires i < |nodes| && FieldIndex(fields, nodes[i].tag) == None && nodes[i].tag[0] < 128
    requires |got| == |fields|
    ensures TreeFields(fields, nodes, got) == Err
    decreases |nodes|
  {
    if i > 0 {
      match FieldIndex(fields, nodes[0].tag)
      case Some(k) =>
        var v := TreeDecode(fields[k].item, nodes[0]);
        if v.Ok? {
          UnknownRejected(fields, nodes[1..], i - 1, got[k := got[k] + [v.value]]);
        }
      case None =>
        UnknownRejected(fields, nodes[1..], i - 1, got);
    }
  }

  /** The first byte of an unknown tag tells what becomes of its node: from 128 on, it is ignored; below, it
      makes decoding fail. */
  lemma UnknownByFirstByte(fields: seq<Field>, tag: Tag, before: seq<Node>, unknown: Node, after: seq<Node>)
    requires FieldIndex(fields, unknown.tag) == None
    ensures TreeDecode(Struct(fields), Segment(tag, before + [unknown] + after))
         == if unknown.tag[0] < 128 then Err else TreeDecode(Struct(fields), Segment(tag, before + after))
  {
    if unknown.tag[0] < 128 {
      UnknownRejected(fields, before + [unknown] + after, |before|, Empty(fields));
    } else {
      StripInserted(fields, tag, before, unknown, after);
      StripKeepsMeaning(Struct(fields), Segment(tag, before + [unknown] + after));
      StripKeepsMeaning(Struct(fields), Segment(tag, before + after));
    }
  }
}
