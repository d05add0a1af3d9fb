/** The decoder and the encoder for structures, as they work on sources and writers. */
module Decoder {
  import opened Base
  import opened BundleSource
  import opened Stlv
  import opened Schema
  import opened Codec
  import StlvReader

  class Decoder {
    const source: Source
    var remainingDepth: nat
    var remainingBytes: nat
    var valueLength: Option<nat>

    constructor (source: Source, maxDepth: nat, maxSize: nat)
      requires source.Valid()
      ensures Valid() && this.source == source && valueLength == None
      ensures St() == State(source.Rest(), maxDepth, maxSize)
    {
      this.source := source;
      remainingDepth := maxDepth;
      remainingBytes := maxSize;
      valueLength := None;
    }

    ghost predicate Valid()
      reads this, source
    {
      source.Valid()
    }

    ghost function St(): State
      reads this, source
      requires Valid()
    {
      State(source.Rest(), remainingDepth, remainingBytes)
    }

    /** Take the given size from the budget, or exhaust it. */
    method CheckAndSubtractSize(size: nat) returns (ok: bool)
      modifies this`remainingBytes
      ensures ok == (size <= old(remainingBytes))
      ensures remainingBytes == if ok then old(remainingBytes) - size else 0
    {
      if remainingBytes < size {
        remainingBytes := 0;
        return false;
      }
      remainingBytes := remainingBytes - size;
      return true;
    }

    /** Charge an atom to the limits, and remember the length of a value. */
    method Account(head: AtomHead) returns (ok: bool)
      requires valueLength == None
      modifies this
      ensures ok == (head.AtomSize() <= old(remainingBytes) && (head.Start? ==> old(remainingDepth) > 0))
      ensures ok ==>
        remainingBytes == old(remainingBytes) - head.AtomSize() &&
        remainingDepth == old(remainingDepth) + (if head.Start? then -1 else if head.End? then 1 else 0) &&
        valueLength == if head.Value? then Some(head.length) else None
    {
      ok := CheckAndSubtractSize(head.AtomSize());
      if !ok {
        return;
      }
      match head {
        case Start(_) =>
          if remainingDepth > 0 {
            remainingDepth := remainingDepth - 1;
          } else {
            return false;
          }
        case End(_) => remainingDepth := remainingDepth + 1;
        case Value(_, length) => valueLength := Some(length);
      }
    }

    method NextAtomHead() returns (r: Result<AtomHead>)
      requires Valid() && valueLength == None
      modifies this, source`pos
      ensures Valid()
      ensures match NextHead(old(St()))
        case Ok((head, st)) => r == Ok(head) && St() == st
          && valueLength == if head.Value? then Some(head.length) else None
        case Err => r == Err
    {
      ghost var st := St();
      var next := StlvReader.ReadAtomHead(source);
      if next.Err? || next.value == None {
        return Err;
      }
      var head := next.value.value;
      HeadAccounted(st, head, source.Rest());
      var ok := Account(head);
      return if ok then Ok(head) else Err;
    }

    method ReadValue() returns (r: Result<seq<byte>>)
      requires Valid() && valueLength.Some?
      modifies this, source`pos
      ensures Valid() && valueLength == None
      ensures match Codec.ReadValue(old(valueLength.value), old(St()))
        case Ok((value, st)) => r == Ok(value) && St() == st
        case Err => r == Err
    {
      var length := valueLength.value;
      valueLength := None;
      var ok := CheckAndSubtractSize(length);
      if !ok {
        return Err;
      }
      r := source.ReadExact(length);
    }

    /** Skip the value or segment with the given head. */
    method Skip(atom: AtomHead) returns (r: Result<()>)
      requires Valid() && valueLength == if atom.Value? then Some(atom.length) else None
      modifies this, source`pos
      ensures Valid()
      ensures match SkipAtom(atom, old(St()))
        case Ok(st) => r == Ok(()) && St() == st && valueLength == None
        case Err => r == Err
      decreases |St().rest|, 1
    {
      match atom
      case Value(_, length) =>
        valueLength := None;
        r := source.Skip(length);
      case Start(tag) => r := SkipSegment(tag);
      case End(_) => return Err;
    }

    method SkipSegment(tag: Tag) returns (r: Result<()>)
      requires Valid() && valueLength == None
      modifies this, source`pos
      ensures Valid()
      ensures match Codec.SkipSegment(tag, old(St()))
        case Ok(st) => r == Ok(()) && St() == st && valueLength == None
        case Err => r == Err
      decreases |St().rest|, 0
    {
      ghost var st0 := St();
      while true
        invariant Valid() && valueLength == None && |St().rest| <= |st0.rest|
        invariant Codec.SkipSegment(tag, st0) == Codec.SkipSegment(tag, St())
        decreases |St().rest|
      {
        var head := NextAtomHead();
        if head.Err? {
          return Err;
        }
        if head.value == End(tag) {
          return Ok(());
        }
        var skipped := Skip(head.value);
        if skipped.Err? {
          return Err;
        }
      }
    }

    /** Decode the item with the given head. */
    method DecodeItem(item: Item, atom: AtomHead) returns (r: Result<Val>)
      requires Valid() && valueLength == if atom.Value? then Some(atom.length) else None
      modifies this, source`pos
      ensures Valid()
      ensures match Codec.DecodeItem(item, atom, old(St()))
        case Ok((v, st)) => r == Ok(v) && St() == st && valueLength == None
        case Err => r == Err
      decreases |St().rest|, 1
    {
      match item
      case Prim(accepts) =>
        if !atom.Value? {
          return Err;
        }
        var raw := ReadValue();
        if raw.Err? || !accepts(raw.value) {
          return Err;
        }
        return Ok(Bytes(raw.value));
      case Struct(fields) =>
        if !atom.Start? {
          return Err;
        }
        r := DecodeStruct(fields, atom.tag);
    }

    /** Decode the fields of a struct in whatever order they come. */
    method DecodeStruct(fields: seq<Field>, tag: Tag) returns (r: Result<Val>)
      requires Valid() && valueLength == None
      modifies this, source`pos
      ensures Valid()
      ensures match DecodeFields(fields, tag, Empty(fields), old(St()))
        case Ok((v, st)) => r == Ok(v) && St() == st && valueLength == None
        case Err => r == Err
      decreases |St().rest|, 0
    {
      ghost var st0, result := St(), DecodeFields(fields, tag, Empty(fields), St());
      var got := Empty(fields);
      while true
        invariant Valid() && valueLength == None && |got| == |fields| && |St().rest| <= |st0.rest|
        invariant result == DecodeFields(fields, tag, got, St())
        decreases |St().rest|
      {
        var next := NextAtomHead();
        if next.Err? {
          return Err;
        }
        var atom := next.value;
        if atom.End? {
          return if atom.tag == tag && Complete(fields, got) then Ok(Record(got)) else Err;
        }
        var index := FieldIndex(fields, atom.tag);
        if index.Some? {
          var i := index.value;
          if !AcceptsMore(fields[i], got[i]) {
            return Err;
          }
          var v := DecodeItem(fields[i].item, atom);
          if v.Err? {
            return Err;
          }
          got := got[i := got[i] + [v.value]];
        } else if IsOptional(atom.tag) {
          var skipped := Skip(atom);
          if skipped.Err? {
            return Err;
          }
        } else {
          return Err;
        }
      }
    }
  }

  /** Decode one structure from a byte slice, with the limits the program uses. */
  method DecodeSlice(item: Item, slice: seq<byte>) returns (r: Result<Val>)
    ensures match Codec.Decode(item, State(slice, 32, 0xffff_ffff_ffff_ffff))
      case Ok((v, _)) => r == Ok(v)
      case Err => r == Err
  {
    var source := new Source(slice);
    var decoder := new Decoder(source, 32, 0xffff_ffff_ffff_ffff);
    var head := decoder.NextAtomHead();
    if head.Err? {
      return Err;
    }
    r := decoder.DecodeItem(item, head.value);
  }

  /** Append the encoding of a value to the output. */
  method Encode(output: seq<byte>, item: Item, v: Val, tag: Tag) returns (r: seq<byte>)
    requires HasType(item, v)
    ensures r == output + Serialize(ToNode(item, v, tag))
    decreases item, 3
  {
    match item
    case Prim(_) =>
      r := output + EncodeHead(Value(tag, |v.raw|)) + v.raw;
      assert r == output + (EncodeHead(Value(tag, |v.raw|)) + v.raw);
    case Struct(fields) =>
      r := output + EncodeHead(Start(tag));
      r := EncodeFields(r, fields, v);
      r := r + EncodeHead(End(tag));
      SegmentBytes(tag, FieldNodes(fields, v, 0, 0), output);
  }

  /** Append the encoding of all fields of a struct, in order. */
  method EncodeFields(output: seq<byte>, fields: seq<Field>, v: Val) returns (r: seq<byte>)
    requires HasType(Struct(fields), v)
    ensures r == output + Forest(FieldNodes(fields, v, 0, 0))
    decreases fields, 2
  {
    r := output;
    ghost var all := output + Forest(FieldNodes(fields, v, 0, 0));
    for i := 0 to |fields|
      invariant r + Forest(FieldNodes(fields, v, i, 0)) == all
    {
      r := EncodeField(r, fields, v, i);
    }
    NothingLeft(fields, v, r);
  }

  lemma NothingLeft(fields: seq<Field>, v: Val, output: seq<byte>)
    requires HasType(Struct(fields), v)
    ensures output + Forest(FieldNodes(fields, v, |fields|, 0)) == output
  {
  }

  lemma NextField(fields: seq<Field>, v: Val, i: nat)
    requires HasType(Struct(fields), v) && i < |fields|
    ensures FieldNodes(fields, v, i, |v.values[i]|) == FieldNodes(fields, v, i + 1, 0)
  {
  }

  /** Append the encoding of all values of a field, in order. */
  method EncodeField(output: seq<byte>, fields: seq<Field>, v: Val, i: nat) returns (r: seq<byte>)
    requires HasType(Struct(fields), v) && i < |fields|
    ensures r + Forest(FieldNodes(fields, v, i + 1, 0)) == output + Forest(FieldNodes(fields, v, i, 0))
    decreases fields, 1
  {
    r := output;
    for j := 0 to |v.values[i]|
      invariant r + Forest(FieldNodes(fields, v, i, j)) == output + Forest(FieldNodes(fields, v, i, 0))
    {
      EncodedOneMore(fields, v, i, j, r);
      r := Encode(r, fields[i].item, v.values[i][j], fields[i].tag);
    }
    NextField(fields, v, i);
  }

  lemma EncodedOneMore(fields: seq<Field>, v: Val, i: nat, j: nat, output: seq<byte>)
    requires HasType(Struct(fields), v) && i < |fields| && j < |v.values[i]|
    ensures output + Forest(FieldNodes(fields, v, i, j))
         == output + Serialize(ToNode(fields[i].item, v.values[i][j], fields[i].tag))
            + Forest(FieldNodes(fields, v, i, j + 1))
  {
    var node := ToNode(fields[i].item, v.values[i][j], fields[i].tag);
    var rest := FieldNodes(fields, v, i, j + 1);
    assert FieldNodes(fields, v, i, j) == [node] + rest;
    assert ([node] + rest)[1..] == rest;
    assert output + (Serialize(node) + Forest(rest)) == output + Serialize(node) + Forest(rest);
  }
}
