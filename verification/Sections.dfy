/** Advancing a source to the next atom of interest, over everything that may be ignored. */
module Sections {
  import opened Base
  import opened BundleSource
  import opened Stlv
  import StlvReader

  /** The atoms a reader looks for: the start or the end of a segment, or a value. */
  datatype Goal = GoalStart(tag: Tag) | GoalEnd(tag: Tag) | GoalValue(tag: Tag) {
    predicate Met(head: AtomHead) {
      match this
      case GoalStart(tag) => head == Start(tag)
      case GoalEnd(tag) => head == End(tag)
      case GoalValue(tag) => head.Value? && head.tag == tag
    }
  }

  /** The first atom that meets the goal and what follows it. Values and segments before it are
      skipped if their tag is optional, and are an error otherwise. */
  function SkipUntil(goal: Goal, s: seq<byte>): (r: Result<(AtomHead, seq<byte>)>)
    ensures r.Ok? ==> goal.Met(r.value.0) && r.value.0.Writable() && |r.value.1| < |s|
    decreases |s|
  {
    var next :- ReadHead(s);
    if next == None then Err
    else
      var (head, rest) := next.value;
      if goal.Met(head) then Ok((head, rest))
      else if !IsOptional(head.tag) then Err
      else
        var (_, rest') :- ReadNode(head, rest);
        SkipUntil(goal, rest')
  }

  method AdvanceUntil(source: Source, goal: Goal) returns (r: Result<AtomHead>)
    requires source.Valid()
    modifies source`pos
    ensures source.Valid()
    ensures match SkipUntil(goal, old(source.Rest()))
      case Ok((head, rest)) => r == Ok(head) && source.Rest() == rest
      case Err => r == Err
  {
    ghost var s := source.Rest();
    while true
      invariant source.Valid() && SkipUntil(goal, s) == SkipUntil(goal, source.Rest())
      decreases |source.Rest()|
    {
      var next := StlvReader.ReadAtomHead(source);
      if next.Err? || next.value == None {
        return Err;
      }
      var head := next.value.value;
      if goal.Met(head) {
        return Ok(head);
      }
      if !IsOptional(head.tag) {
        return Err;
      }
      var skipped := StlvReader.Skip(source, head);
      if skipped.Err? {
        return Err;
      }
    }
  }

  /** Everything before the atom of interest is a run of optional trees, and all of it is skipped. */
  lemma {:induction false} SkipOptional(goal: Goal, nodes: seq<Node>, head: AtomHead, rest: seq<byte>)
    requires forall i :: 0 <= i < |nodes| ==> IsOptional(nodes[i].tag) && !goal.Met(nodes[i].Head())
    requires head.Writable() && goal.Met(head)
    ensures SkipUntil(goal, Forest(nodes) + (EncodeHead(head) + rest)) == Ok((head, rest))
    decreases |nodes|
  {
    var tail := EncodeHead(head) + rest;
    if nodes == [] {
      assert Forest(nodes) + tail == tail;
      ReadEncodeHead(head, rest);
    } else {
      var more := Forest(nodes[1..]) + tail;
      assert Forest(nodes) + tail == EncodeHead(nodes[0].Head()) + (Body(nodes[0]) + more);
      ReadEncodeHead(nodes[0].Head(), Body(nodes[0]) + more);
      ReadSerialized(nodes[0], more);
      SkipOptional(goal, nodes[1..], head, rest);
    }
  }

  /** The next atom, if it meets the goal. */
  lemma FoundAtOnce(goal: Goal, head: AtomHead, rest: seq<byte>)
    requires head.Writable() && goal.Met(head)
    ensures SkipUntil(goal, EncodeHead(head) + rest) == Ok((head, rest))
  {
    ReadEncodeHead(head, rest);
  }

  /** The first byte of the tag of any other atom tells what becomes of it: from 128 on, it is skipped, and must be
      a balanced tree; below, it is an error. So is the end of the source. */
  lemma OthersByFirstByte(goal: Goal, head: AtomHead, rest: seq<byte>)
    requires head.Writable() && !goal.Met(head)
    ensures var skipped := ReadNode(head, rest);
      SkipUntil(goal, EncodeHead(head) + rest)
      == if head.tag[0] < 128 || skipped.Err? then Err else SkipUntil(goal, skipped.value.1)
    ensures SkipUntil(goal, []) == Err
  {
    ReadEncodeHead(head, rest);
  }
}
