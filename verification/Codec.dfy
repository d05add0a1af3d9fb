/** The limited decoder for structures, on bytes. */
module Codec {
  import opened Base
  import opened Stlv
  import opened Schema

  /** The unread bytes and the remaining limits of a decoder. */
  datatype State = State(rest: seq<byte>, depth: nat, budget: nat)

  /** Read an atom head. The whole atom is charged to the budget, segments to the depth. */
  function NextHead(st: State): (r: Result<(AtomHead, State)>)
    ensures r.Ok? ==> |r.value.1.rest| < |st.rest| && r.value.0.Writable()
  {
    var next :- ReadHead(st.rest);
    if next == None then Err
    else
      var (head, rest) := next.value;
      if st.budget < head.AtomSize() then Err
      else
        var budget := st.budget - head.AtomSize();
        match head
        case Start(_) => if st.depth == 0 then Err else Ok((head, State(rest, st.depth - 1, budget)))
        case End(_) => Ok((head, State(rest, st.depth + 1, budget)))
        case Value(_, _) => Ok((head, State(rest, st.depth, budget)))
  }

  lemma HeadAccounted(st: State, head: AtomHead, rest: seq<byte>)
    requires ReadHead(st.rest) == Ok(Some((head, rest)))
    ensures NextHead(st) ==
      if head.AtomSize() <= st.budget && (head.Start? ==> st.depth > 0) then
        Ok((head, State(rest, if head.Start? then st.depth - 1 else if head.End? then st.depth + 1 else st.depth,
                        st.budget - head.AtomSize())))
      else Err
  {
  }

  /** Skip the value or segment whose head has been read. */
  function SkipAtom(head: AtomHead, st: State): (r: Result<State>)
    ensures r.Ok? ==> |r.value.rest| <= |st.rest|
    decreases |st.rest|, 1
  {
    match head
    case Value(_, length) => if length <= |st.rest| then Ok(st.(rest := st.rest[length..])) else Err
    case Start(tag) => SkipSegment(tag, st)
    case End(_) => Err
  }

  function SkipSegment(tag: Tag, st: State): (r: Result<State>)
    ensures r.Ok? ==> |r.value.rest| <= |st.rest|
    decreases |st.rest|, 0
  {
    var (head, st') :- NextHead(st);
    if head == End(tag) then Ok(st')
    else
      var st'' :- SkipAtom(head, st');
      SkipSegment(tag, st'')
  }

  /** Read the value whose head has been read. Its length is charged once more. */
  function ReadValue(length: nat, st: State): (r: Result<(seq<byte>, State)>)
    ensures r.Ok? ==> |r.value.1.rest| <= |st.rest|
  {
    if st.budget < length || |st.rest| < length then Err
    else Ok((st.rest[..length], State(st.rest[length..], st.depth, st.budget - length)))
  }

  /** Decode the item whose head has been read. */
  function DecodeItem(item: Item, head: AtomHead, st: State): (r: Result<(Val, State)>)
    ensures r.Ok? ==> |r.value.1.rest| <= |st.rest|
    decreases |st.rest|, 1
  {
    match item
    case Prim(accepts) =>
      if !head.Value? then Err
      else
        var (raw, st') :- ReadValue(head.length, st);
        if accepts(raw) then Ok((Bytes(raw), st')) else Err
    case Struct(fields) =>
      if head.Start? then DecodeFields(fields, head.tag, Empty(fields), st) else Err
  }

  function DecodeFields(fields: seq<Field>, tag: Tag, got: seq<seq<Val>>, st: State): (r: Result<(Val, State)>)
    requires |got| == |fields|
    ensures r.Ok? ==> |r.value.1.rest| <= |st.rest|
    decreases |st.rest|, 0
  {
    var (head, st') :- NextHead(st);
    if head.End? then
      if head.tag == tag && Complete(fields, got) then Ok((Record(got), st')) else Err
    else
      match FieldIndex(fields, head.tag)
      case Some(i) =>
        if !AcceptsMore(fields[i], got[i]) then Err
        else
          var (v, st'') :- DecodeItem(fields[i].item, head, st');
          DecodeFields(fields, tag, got[i := got[i] + [v]], st'')
      case None =>
        if !IsOptional(head.tag) then Err
        else
          var st'' :- SkipAtom(head, st');
          DecodeFields(fields, tag, got, st'')
  }

  /** Decode a structure, head included. */
  function Decode(item: Item, st: State): Result<(Val, State)> {
    DecodeAfterHead(item, NextHead(st))
  }

  function DecodeAfterHead(item: Item, next: Result<(AtomHead, State)>): Result<(Val, State)> {
    var (head, st') :- next;
    DecodeItem(item, head, st')
  }

  /** Nesting depth of the segments of a tree. */
  function Height(node: Node): nat
    decreases node, 1
  {
    if node.Leaf? then 0 else 1 + ForestHeight(node.children)
  }

  function ForestHeight(nodes: seq<Node>): nat
    decreases nodes, 0
  {
    if nodes == [] then 0 else Max(Height(nodes[0]), ForestHeight(nodes[1..]))
  }

  /** Size of a serialized tree. */
  function Size(node: Node): nat
    decreases node, 1
  {
    match node
    case Leaf(_, _) => node.Head().AtomSize()
    case Segment(tag, children) => node.Head().AtomSize() + (ForestSize(children) + End(tag).AtomSize())
  }

  function ForestSize(nodes: seq<Node>): nat
    decreases nodes, 0
  {
    if nodes == [] then 0 else Size(nodes[0]) + ForestSize(nodes[1..])
  }

  lemma {:induction false} SizeExact(node: Node)
    ensures |Serialize(node)| == Size(node)
    decreases node, 1
  {
    ReadEncodeHead(node.Head(), []);
    if node.Segment? {
      ReadEncodeHead(End(node.tag), []);
      ForestSizeExact(node.children);
    }
  }

  lemma {:induction false} ForestSizeExact(nodes: seq<Node>)
    ensures |Forest(nodes)| == ForestSize(nodes)
    decreases nodes, 0
  {
    if nodes != [] {
      SizeExact(nodes[0]);
      ForestSizeExact(nodes[1..]);
    }
  }

  /** What decoding a tree costs: its size, and the size of every value that is read once more. */
  function Charge(item: Item, node: Node): nat
    decreases node, 1
  {
    match node
    case Leaf(_, value) => node.Head().AtomSize() + |value|
    case Segment(tag, children) =>
      node.Head().AtomSize()
      + ((if item.Struct? then ForestCharge(item.fields, children) else 0) + End(tag).AtomSize())
  }

  function ForestCharge(fields: seq<Field>, nodes: seq<Node>): nat
    decreases nodes, 0
  {
    if nodes == [] then 0
    else
      (match FieldIndex(fields, nodes[0].tag)
       case Some(i) => Charge(fields[i].item, nodes[0])
       case None => Size(nodes[0]))
      + ForestCharge(fields, nodes[1..])
  }

  lemma NextHeadOf(head: AtomHead, st: State, rest: seq<byte>)
    requires head.Writable() && st.rest == EncodeHead(head) + rest
    ensures NextHead(st) ==
      if head.AtomSize() <= st.budget && (head.Start? ==> st.depth > 0) then
        Ok((head, State(rest, if head.Start? then st.depth - 1 else if head.End? then st.depth + 1 else st.depth,
                        st.budget - head.AtomSize())))
      else Err
  {
    ReadEncodeHead(head, rest);
  }

  /** The state after a tree has been skipped or decoded at the given cost, if within the limits. */
  function After(st: State, height: nat, cost: nat, rest: seq<byte>): Result<State> {
    if height <= st.depth && cost <= st.budget then Ok(State(rest, st.depth, st.budget - cost)) else Err
  }

  function Reopened(r: Result<State>): Result<State> {
    var st :- r;
    Ok(st.(depth := st.depth + 1))
  }

  /** The state after the rest of a segment has been skipped or decoded, if within the limits. */
  function Closed(tag: Tag, st: State, height: nat, cost: nat, rest: seq<byte>): Result<State> {
    Reopened(After(st, height, cost + End(tag).AtomSize(), rest))
  }

  lemma LimitsSplit(st: State, size: nat, height: nat, cost: nat, inner: seq<byte>, rest: seq<byte>)
    ensures After(st, 1 + height, size + cost, rest)
         == if size <= st.budget && st.depth > 0
            then Reopened(After(State(inner, st.depth - 1, st.budget - size), height, cost, rest)) else Err
  {
  }

  /** The limits allow for a segment if they allow for its head and then for the rest. */
  lemma SegmentLimits(node: Node, st: State, cost: nat, inner: seq<byte>, rest: seq<byte>)
    requires node.Segment?
    ensures var size := node.Head().AtomSize();
      After(st, Height(node), size + (cost + End(node.tag).AtomSize()), rest)
      == if size <= st.budget && st.depth > 0
         then Closed(node.tag, State(inner, st.depth - 1, st.budget - size), ForestHeight(node.children), cost, rest)
         else Err
  {
    LimitsSplit(st, node.Head().AtomSize(), ForestHeight(node.children), cost + End(node.tag).AtomSize(), inner, rest);
  }

  /** Skip the next value or segment, head included. */
  function SkipNode(st: State): Result<State> {
    SkipAfterHead(NextHead(st))
  }

  function SkipAfterHead(next: Result<(AtomHead, State)>): Result<State> {
    var (head, st') :- next;
    SkipAtom(head, st')
  }

  /** The result of reading the head of a tree. */
  function Entered(node: Node, st: State, rest: seq<byte>): Result<(AtomHead, State)> {
    var size := node.Head().AtomSize();
    if size <= st.budget && (node.Segment? ==> st.depth > 0) then
      Ok((node.Head(), State(Body(node) + rest, if node.Segment? then st.depth - 1 else st.depth, st.budget - size)))
    else Err
  }

  lemma HeadOfTree(node: Node, st: State, rest: seq<byte>)
    requires st.rest == Serialize(node) + rest
    ensures NextHead(st) == Entered(node, st, rest)
  {
    assert st.rest == EncodeHead(node.Head()) + (Body(node) + rest);
    NextHeadOf(node.Head(), st, Body(node) + rest);
  }

  /** Skipping a tree succeeds exactly within the limits and consumes exactly the tree. */
  lemma {:induction false} SkipTree(node: Node, st: State, rest: seq<byte>)
    requires st.rest == Serialize(node) + rest
    ensures SkipNode(st) == After(st, Height(node), Size(node), rest)
    decreases node, 2
  {
    HeadOfTree(node, st, rest);
    SkipEntered(node, st, rest);
  }

  lemma {:induction false} SkipEntered(node: Node, st: State, rest: seq<byte>)
    ensures SkipAfterHead(Entered(node, st, rest)) == After(st, Height(node), Size(node), rest)
    decreases node, 1
  {
    if node.Leaf? {
      SkipEnteredLeaf(node, st, rest);
    } else if node.Head().AtomSize() <= st.budget && st.depth > 0 {
      var inner := State(Body(node) + rest, st.depth - 1, st.budget - node.Head().AtomSize());
      BodySplit(node, rest);
      SegmentWithin(node, st, inner, rest);
      SkipOpened(node.tag, inner);
      SkipForest(node.tag, node.children, inner, rest);
    } else {
      SegmentBeyond(node, st, rest);
    }
  }

  /** The head of a segment can be read within the limits. */
  lemma SegmentWithin(node: Node, st: State, inner: State, rest: seq<byte>)
    requires node.Segment? && node.Head().AtomSize() <= st.budget && st.depth > 0
    requires inner == State(Body(node) + rest, st.depth - 1, st.budget - node.Head().AtomSize())
    ensures Entered(node, st, rest) == Ok((Start(node.tag), inner))
    ensures After(st, Height(node), Size(node), rest)
         == Closed(node.tag, inner, ForestHeight(node.children), ForestSize(node.children), rest)
  {
    SegmentSize(node);
    SegmentLimits(node, st, ForestSize(node.children), inner.rest, rest);
  }

  lemma SegmentBeyond(node: Node, st: State, rest: seq<byte>)
    requires node.Segment? && !(node.Head().AtomSize() <= st.budget && st.depth > 0)
    ensures Entered(node, st, rest) == Err && After(st, Height(node), Size(node), rest) == Err
  {
    SegmentSize(node);
    SegmentLimits(node, st, ForestSize(node.children), [], rest);
  }

  /** Skipping a segment whose head has been read is skipping up to its end. */
  lemma SkipOpened(tag: Tag, st: State)
    ensures SkipAfterHead(Ok((Start(tag), st))) == SkipSegment(tag, st)
  {
  }

  lemma SegmentSize(node: Node)
    requires node.Segment?
    ensures Size(node) == node.Head().AtomSize() + (ForestSize(node.children) + End(node.tag).AtomSize())
  {
  }

  lemma BodySplit(node: Node, rest: seq<byte>)
    requires node.Segment?
    ensures Body(node) + rest == Forest(node.children) + (EncodeHead(End(node.tag)) + rest)
  {
  }

  lemma SkipEnteredLeaf(node: Node, st: State, rest: seq<byte>)
    requires node.Leaf?
    ensures SkipAfterHead(Entered(node, st, rest)) == After(st, Height(node), Size(node), rest)
  {
    var next := Entered(node, st, rest);
    if next.Ok? {
      SkipLeaf(node, next.value.1, rest);
    }
  }

  lemma SkipLeaf(node: Node, st: State, rest: seq<byte>)
    requires node.Leaf? && st.rest == node.value + rest
    ensures SkipAtom(node.Head(), st) == Ok(st.(rest := rest))
  {
    assert (node.value + rest)[|node.value|..] == rest;
  }

  /** The end of a segment closes it. */
  lemma ReadEnd(tag: Tag, st: State, rest: seq<byte>)
    requires st.rest == EncodeHead(End(tag)) + rest
    ensures SkipSegment(tag, st) == Closed(tag, st, 0, 0, rest)
    ensures NextHead(st) == match Closed(tag, st, 0, 0, rest)
      case Ok(st') => Ok((End(tag), st'))
      case Err => Err
  {
    NextHeadOf(End(tag), st, rest);
  }

  lemma {:induction false} SkipForest(tag: Tag, nodes: seq<Node>, st: State, rest: seq<byte>)
    requires st.rest == Forest(nodes) + (EncodeHead(End(tag)) + rest)
    ensures SkipSegment(tag, st) == Closed(tag, st, ForestHeight(nodes), ForestSize(nodes), rest)
    decreases nodes, 0
  {
    if nodes == [] {
      assert st.rest == EncodeHead(End(tag)) + rest;
      ReadEnd(tag, st, rest);
    } else {
      var node, more := nodes[0], Forest(nodes[1..]) + (EncodeHead(End(tag)) + rest);
      assert st.rest == Serialize(node) + more;
      SkipTree(node, st, more);
      SkipSegmentStep(tag, node, st, more);
      var skipped := SkipNode(st);
      if skipped.Ok? {
        SkipForest(tag, nodes[1..], skipped.value, rest);
      }
      ClosedForestStep(tag, nodes, st, more, rest);
    }
  }

  /** A segment closes after a node and further nodes. */
  lemma ClosedStep(tag: Tag, st: State, height: nat, cost: nat, more: seq<byte>,
                   height': nat, cost': nat, rest: seq<byte>)
    ensures Closed(tag, st, Max(height, height'), cost + cost', rest)
         == match After(st, height, cost, more)
              case Ok(st') => Closed(tag, st', height', cost', rest)
              case Err => Err
  {
  }

  lemma ClosedSum(tag: Tag, st: State, height: nat, cost: nat, more: seq<byte>, height': nat, cost': nat,
                  heights: nat, costs: nat, rest: seq<byte>)
    requires heights == Max(height, height') && costs == cost + cost'
    ensures Closed(tag, st, heights, costs, rest)
         == match After(st, height, cost, more)
              case Ok(st') => Closed(tag, st', height', cost', rest)
              case Err => Err
  {
    ClosedStep(tag, st, height, cost, more, height', cost', rest);
  }

  lemma ForestHead(nodes: seq<Node>)
    requires nodes != []
    ensures ForestHeight(nodes) == Max(Height(nodes[0]), ForestHeight(nodes[1..]))
    ensures ForestSize(nodes) == Size(nodes[0]) + ForestSize(nodes[1..])
  {
  }

  lemma ClosedForestStep(tag: Tag, nodes: seq<Node>, st: State, more: seq<byte>, rest: seq<byte>)
    requires nodes != []
    ensures Closed(tag, st, ForestHeight(nodes), ForestSize(nodes), rest)
         == match After(st, Height(nodes[0]), Size(nodes[0]), more)
              case Ok(st') => Closed(tag, st', ForestHeight(nodes[1..]), ForestSize(nodes[1..]), rest)
              case Err => Err
  {
    ForestHead(nodes);
    ClosedSum(tag, st, Height(nodes[0]), Size(nodes[0]), more, ForestHeight(nodes[1..]), ForestSize(nodes[1..]),
              ForestHeight(nodes), ForestSize(nodes), rest);
  }

  lemma SkipSegmentStep(tag: Tag, node: Node, st: State, rest: seq<byte>)
    requires st.rest == Serialize(node) + rest
    ensures SkipSegment(tag, st) == match SkipNode(st)
      case Ok(st') => SkipSegment(tag, st')
      case Err => Err
  {
    assert st.rest == EncodeHead(node.Head()) + (Body(node) + rest);
    NextHeadOf(node.Head(), st, Body(node) + rest);
  }

  /** The result of decoding a tree from bytes: what the tree encodes, if within the limits. */
  function Decoded(item: Item, node: Node, st: State, rest: seq<byte>): Result<(Val, State)> {
    var v :- TreeDecode(item, node);
    var st' :- After(st, Height(node), Charge(item, node), rest);
    Ok((v, st'))
  }

  /** Decoding the bytes of any tree gives exactly what the tree encodes, and consumes exactly the
      tree; it fails exactly if the tree encodes nothing or exceeds the limits. */
  lemma {:induction false} DecodeTree(item: Item, node: Node, st: State, rest: seq<byte>)
    requires st.rest == Serialize(node) + rest
    ensures Decode(item, st) == Decoded(item, node, st, rest)
    decreases node, 2
  {
    HeadOfTree(node, st, rest);
    DecodeEntered(item, node, st, rest);
  }

  lemma {:induction false} DecodeEntered(item: Item, node: Node, st: State, rest: seq<byte>)
    ensures DecodeAfterHead(item, Entered(node, st, rest)) == Decoded(item, node, st, rest)
    decreases node, 1
  {
    if node.Leaf? {
      DecodeLeaf(item, node, st, rest);
    } else if item.Prim? {
      DecodeNoStruct(item, node, st, rest);
    } else if node.Head().AtomSize() <= st.budget && st.depth > 0 {
      var inner := State(Body(node) + rest, st.depth - 1, st.budget - node.Head().AtomSize());
      BodySplit(node, rest);
      DecodedWithinSegment(item, node, st, inner, rest);
      DecodeOpened(item, node.tag, inner);
      DecodeForest(item.fields, node.tag, node.children, Empty(item.fields), inner, rest);
    } else {
      DecodedBeyond(item, node, st, rest);
    }
  }

  lemma DecodeNoStruct(item: Item, node: Node, st: State, rest: seq<byte>)
    requires item.Prim? && node.Segment?
    ensures DecodeAfterHead(item, Entered(node, st, rest)) == Err && Decoded(item, node, st, rest) == Err
  {
  }

  /** Decoding a struct whose head has been read is decoding its fields. */
  lemma DecodeOpened(item: Item, tag: Tag, st: State)
    requires item.Struct?
    ensures DecodeAfterHead(item, Ok((Start(tag), st))) == DecodeFields(item.fields, tag, Empty(item.fields), st)
  {
  }

  lemma DecodedWithinSegment(item: Item, node: Node, st: State, inner: State, rest: seq<byte>)
    requires item.Struct? && node.Segment? && node.Head().AtomSize() <= st.budget && st.depth > 0
    requires inner == State(Body(node) + rest, st.depth - 1, st.budget - node.Head().AtomSize())
    ensures Entered(node, st, rest) == Ok((Start(node.tag), inner))
    ensures Decoded(item, node, st, rest)
         == DecodedFields(item.fields, node.tag, node.children, Empty(item.fields), inner, rest)
  {
    SegmentCharge(item, node);
    SegmentLimits(node, st, ForestCharge(item.fields, node.children), inner.rest, rest);
  }

  lemma DecodedBeyond(item: Item, node: Node, st: State, rest: seq<byte>)
    requires item.Struct? && node.Segment? && !(node.Head().AtomSize() <= st.budget && st.depth > 0)
    ensures DecodeAfterHead(item, Entered(node, st, rest)) == Err && Decoded(item, node, st, rest) == Err
  {
    SegmentCharge(item, node);
    SegmentLimits(node, st, ForestCharge(item.fields, node.children), [], rest);
  }

  lemma SegmentCharge(item: Item, node: Node)
    requires item.Struct? && node.Segment?
    ensures Charge(item, node)
         == node.Head().AtomSize() + (ForestCharge(item.fields, node.children) + End(node.tag).AtomSize())
  {
  }

  lemma DecodeLeaf(item: Item, node: Node, st: State, rest: seq<byte>)
    requires node.Leaf?
    ensures DecodeAfterHead(item, Entered(node, st, rest)) == Decoded(item, node, st, rest)
  {
    var body := node.value + rest;
    assert body[..|node.value|] == node.value && body[|node.value|..] == rest;
  }

  /** The result of decoding the rest of a struct from the bytes of its nodes. */
  function DecodedFields(fields: seq<Field>, tag: Tag, nodes: seq<Node>, got: seq<seq<Val>>,
                         st: State, rest: seq<byte>): Result<(Val, State)>
    requires |got| == |fields|
  {
    var v :- TreeFields(fields, nodes, got);
    var st' :- Closed(tag, st, ForestHeight(nodes), ForestCharge(fields, nodes), rest);
    Ok((v, st'))
  }

  lemma {:induction false} DecodeForest(fields: seq<Field>, tag: Tag, nodes: seq<Node>, got: seq<seq<Val>>,
                                        st: State, rest: seq<byte>)
    requires |got| == |fields| && st.rest == Forest(nodes) + (EncodeHead(End(tag)) + rest)
    ensures DecodeFields(fields, tag, got, st) == DecodedFields(fields, tag, nodes, got, st, rest)
    decreases nodes, 2
  {
    if nodes == [] {
      assert st.rest == EncodeHead(End(tag)) + rest;
      ReadEnd(tag, st, rest);
    } else {
      var node, more := nodes[0], Forest(nodes[1..]) + (EncodeHead(End(tag)) + rest);
      assert st.rest == Serialize(node) + more;
      DecodeFieldsStep(fields, tag, node, got, st, more);
      match FieldIndex(fields, node.tag)
      case Some(i) => DecodeForestKnown(fields, tag, nodes, i, got, st, more, rest);
      case None => DecodeForestUnknown(fields, tag, nodes, got, st, more, rest);
    }
  }

  /** Decoding goes on behind the first node, which is a value of field `i`. */
  lemma {:induction false} DecodeForestKnown(fields: seq<Field>, tag: Tag, nodes: seq<Node>, i: nat,
                                             got: seq<seq<Val>>, st: State, more: seq<byte>, rest: seq<byte>)
    requires |got| == |fields| && nodes != [] && FieldIndex(fields, nodes[0].tag) == Some(i)
    requires more == Forest(nodes[1..]) + (EncodeHead(End(tag)) + rest) && st.rest == Serialize(nodes[0]) + more
    ensures DecodedFields(fields, tag, nodes, got, st, rest)
         == if !AcceptsMore(fields[i], got[i]) then Err
            else match Decode(fields[i].item, st)
              case Ok((v, st')) => DecodeFields(fields, tag, got[i := got[i] + [v]], st')
              case Err => Err
    decreases nodes, 1
  {
    DecodeTree(fields[i].item, nodes[0], st, more);
    var d := Decode(fields[i].item, st);
    if AcceptsMore(fields[i], got[i]) && d.Ok? {
      DecodeForest(fields, tag, nodes[1..], got[i := got[i] + [d.value.0]], d.value.1, rest);
    }
    KnownStep(fields, tag, nodes, i, got, st, more, rest);
  }

  /** Decoding goes on behind the first node, which is skipped. */
  lemma {:induction false} DecodeForestUnknown(fields: seq<Field>, tag: Tag, nodes: seq<Node>,
                                               got: seq<seq<Val>>, st: State, more: seq<byte>, rest: seq<byte>)
    requires |got| == |fields| && nodes != [] && FieldIndex(fields, nodes[0].tag) == None
    requires more == Forest(nodes[1..]) + (EncodeHead(End(tag)) + rest) && st.rest == Serialize(nodes[0]) + more
    ensures DecodedFields(fields, tag, nodes, got, st, rest)
         == if !IsOptional(nodes[0].tag) then Err
            else match SkipNode(st)
              case Ok(st') => DecodeFields(fields, tag, got, st')
              case Err => Err
    decreases nodes, 1
  {
    SkipTree(nodes[0], st, more);
    var skipped := SkipNode(st);
    if skipped.Ok? {
      DecodeForest(fields, tag, nodes[1..], got, skipped.value, rest);
    }
    UnknownStep(fields, tag, nodes, got, st, more, rest);
  }

  lemma KnownStep(fields: seq<Field>, tag: Tag, nodes: seq<Node>, i: nat, got: seq<seq<Val>>,
                  st: State, more: seq<byte>, rest: seq<byte>)
    requires |got| == |fields| && nodes != [] && FieldIndex(fields, nodes[0].tag) == Some(i)
    ensures DecodedFields(fields, tag, nodes, got, st, rest)
         == if !AcceptsMore(fields[i], got[i]) then Err
            else match Decoded(fields[i].item, nodes[0], st, more)
              case Ok((v, st')) => DecodedFields(fields, tag, nodes[1..], got[i := got[i] + [v]], st', rest)
              case Err => Err
  {
    ClosedStep(tag, st, Height(nodes[0]), Charge(fields[i].item, nodes[0]), more,
               ForestHeight(nodes[1..]), ForestCharge(fields, nodes[1..]), rest);
  }

  lemma UnknownStep(fields: seq<Field>, tag: Tag, nodes: seq<Node>, got: seq<seq<Val>>,
                    st: State, more: seq<byte>, rest: seq<byte>)
    requires |got| == |fields| && nodes != [] && FieldIndex(fields, nodes[0].tag) == None
    ensures DecodedFields(fields, tag, nodes, got, st, rest)
         == if !IsOptional(nodes[0].tag) then Err
            else match After(st, Height(nodes[0]), Size(nodes[0]), more)
              case Ok(st') => DecodedFields(fields, tag, nodes[1..], got, st', rest)
              case Err => Err
  {
    ClosedStep(tag, st, Height(nodes[0]), Size(nodes[0]), more,
               ForestHeight(nodes[1..]), ForestCharge(fields, nodes[1..]), rest);
  }

  lemma DecodeFieldsStep(fields: seq<Field>, tag: Tag, node: Node, got: seq<seq<Val>>, st: State, rest: seq<byte>)
    requires |got| == |fields| && st.rest == Serialize(node) + rest
    ensures DecodeFields(fields, tag, got, st) == match FieldIndex(fields, node.tag)
      case Some(i) =>
        if !AcceptsMore(fields[i], got[i]) then Err
        else (match Decode(fields[i].item, st)
          case Ok((v, st')) => DecodeFields(fields, tag, got[i := got[i] + [v]], st')
          case Err => Err)
      case None =>
        if !IsOptional(node.tag) then Err
        else (match SkipNode(st)
          case Ok(st') => DecodeFields(fields, tag, got, st')
          case Err => Err)
  {
    assert st.rest == EncodeHead(node.Head()) + (Body(node) + rest);
    NextHeadOf(node.Head(), st, Body(node) + rest);
  }

  /** The result of decoding a tree that encodes a value: the value exactly if the limits allow for its
      depth and its cost. */
  function Within(item: Item, node: Node, v: Val, st: State, rest: seq<byte>): Result<(Val, State)> {
    if Height(node) <= st.depth && Charge(item, node) <= st.budget
    then Ok((v, State(rest, st.depth, st.budget - Charge(item, node)))) else Err
  }

  /** Round trip: for every well-formed schema and every value of it, decoding the encoding gives
      the value back, exactly if the limits allow for its depth and its cost. */
  lemma RoundTrip(item: Item, v: Val, tag: Tag, st: State, rest: seq<byte>)
    requires WellFormed(item) && HasType(item, v)
    requires st.rest == Serialize(ToNode(item, v, tag)) + rest
    ensures Decode(item, st) == Within(item, ToNode(item, v, tag), v, st, rest)
  {
    TreeRoundTrip(item, v, tag);
    DecodeKnown(item, ToNode(item, v, tag), v, st, rest);
  }

  lemma DecodeKnown(item: Item, node: Node, v: Val, st: State, rest: seq<byte>)
    requires TreeDecode(item, node) == Ok(v) && st.rest == Serialize(node) + rest
    ensures Decode(item, st) == Within(item, node, v, st, rest)
  {
    DecodeTree(item, node, st, rest);
    DecodedWithin(item, node, v, st, rest);
  }

  lemma DecodedWithin(item: Item, node: Node, v: Val, st: State, rest: seq<byte>)
    requires TreeDecode(item, node) == Ok(v)
    ensures Decoded(item, node, st, rest) == Within(item, node, v, st, rest)
  {
  }

  /** Forward compatibility on bytes: two encodings that differ only in nodes the schema does not
      know and may ignore decode to the same value, wherever the limits allow for both. */
  lemma ForwardCompatible(item: Item, a: Node, b: Node, depth: nat, budget: nat)
    requires Strip(item, a) == Strip(item, b)
    requires Height(a) <= depth && Charge(item, a) <= budget
    requires Height(b) <= depth && Charge(item, b) <= budget
    ensures var ra := Decode(item, State(Serialize(a), depth, budget));
      var rb := Decode(item, State(Serialize(b), depth, budget));
      ra.Ok? == rb.Ok? && (ra.Ok? ==> ra.value.0 == rb.value.0 && ra.value.1.rest == rb.value.1.rest == [])
  {
    StripKeepsMeaning(item, a);
    StripKeepsMeaning(item, b);
    assert Serialize(a) + [] == Serialize(a) && Serialize(b) + [] == Serialize(b);
    DecodeTree(item, a, State(Serialize(a), depth, budget), []);
    DecodeTree(item, b, State(Serialize(b), depth, budget), []);
  }

  /** Decoding the bytes of a struct with a tree that the schema does not know fails if the first byte of the
      unknown tag is below 128; otherwise the tree does not matter, within the limits. */
  lemma UnknownInBytes(fields: seq<Field>, tag: Tag, before: seq<Node>, unknown: Node, after: seq<Node>, st: State,
                       rest: seq<byte>)
    requires FieldIndex(fields, unknown.tag) == None
    requires st.rest == Serialize(Segment(tag, before + [unknown] + after)) + rest
    ensures unknown.tag[0] < 128 ==> Decode(Struct(fields), st) == Err
    ensures unknown.tag[0] >= 128 && Decode(Struct(fields), st).Ok? ==>
      Ok(Decode(Struct(fields), st).value.0) == TreeDecode(Struct(fields), Segment(tag, before + after)) &&
      Decode(Struct(fields), st).value.1.rest == rest
  {
    UnknownByFirstByte(fields, tag, before, unknown, after);
    DecodeTree(Struct(fields), Segment(tag, before + [unknown] + after), st, rest);
  }

  /** A segment must be closed by an end with its own tag. */
  lemma WrongEndRejected(fields: seq<Field>, tag: Tag, end: Tag, got: seq<seq<Val>>, st: State, rest: seq<byte>)
    requires st.rest == EncodeHead(End(end)) + rest && end != tag && |got| == |fields|
    ensures DecodeFields(fields, tag, got, st) == Err && SkipSegment(tag, st) == Err
  {
    NextHeadOf(End(end), st, rest);
  }

  /** Whatever is decoded, from any bytes, is a value of the schema. */
  lemma {:induction false} DecodedHasType(item: Item, head: AtomHead, st: State)
    requires head.Writable() && DecodeItem(item, head, st).Ok?
    ensures HasType(item, DecodeItem(item, head, st).value.0)
    decreases |st.rest|, 1
  {
    if item.Struct? {
      DecodedFieldsHaveType(item.fields, head.tag, Empty(item.fields), st);
    }
  }

  ghost predicate FieldTyped(field: Field, values: seq<Val>) {
    (field.kind.Repeated? || |values| <= 1) && forall j :: 0 <= j < |values| ==> HasType(field.item, values[j])
  }

  ghost predicate PartlyTyped(fields: seq<Field>, got: seq<seq<Val>>) {
    |got| == |fields| && forall i :: 0 <= i < |fields| ==> FieldTyped(fields[i], got[i])
  }

  lemma PartlyTypedPush(fields: seq<Field>, got: seq<seq<Val>>, i: nat, v: Val)
    requires PartlyTyped(fields, got) && i < |fields| && AcceptsMore(fields[i], got[i]) && HasType(fields[i].item, v)
    ensures PartlyTyped(fields, got[i := got[i] + [v]])
  {
    assert FieldTyped(fields[i], got[i] + [v]);
  }

  lemma CompleteTyped(fields: seq<Field>, got: seq<seq<Val>>)
    requires PartlyTyped(fields, got) && Complete(fields, got)
    ensures HasType(Struct(fields), Record(got))
  {
    assert forall i :: 0 <= i < |fields| ==> FieldTyped(fields[i], got[i]);
  }

  lemma {:induction false} DecodedFieldsHaveType(fields: seq<Field>, tag: Tag, got: seq<seq<Val>>, st: State)
    requires PartlyTyped(fields, got) && DecodeFields(fields, tag, got, st).Ok?
    ensures HasType(Struct(fields), DecodeFields(fields, tag, got, st).value.0)
    decreases |st.rest|, 0
  {
    var (head, st') := NextHead(st).value;
    if head.End? {
      CompleteTyped(fields, got);
    } else {
      var index := FieldIndex(fields, head.tag);
      if index.Some? {
        var i := index.value;
        DecodedHasType(fields[i].item, head, st');
        var (v, st'') := DecodeItem(fields[i].item, head, st').value;
        PartlyTypedPush(fields, got, i, v);
        DecodedFieldsHaveType(fields, tag, got[i := got[i] + [v]], st'');
      } else {
        DecodedFieldsHaveType(fields, tag, got, SkipAtom(head, st').value);
      }
    }
  }
}
