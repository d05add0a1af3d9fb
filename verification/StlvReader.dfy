/** Reading atoms and trees from a source. */
module StlvReader {
  import opened Base
  import opened BundleSource
  import opened Stlv
  import Varint

  method ReadByte(source: Source) returns (r: Result<byte>)
    requires source.Valid()
    modifies source`pos
    ensures source.Valid()
    ensures match r
      case Ok(b) => old(source.Rest()) == [b] + source.Rest()
      case Err => old(source.Rest()) == [] == source.Rest()
  {
    var bytes := source.ReadExact(1);
    match bytes
    case Ok(buf) => return Ok(buf[0]);
    case Err => return Err;
  }

  /** Read a tag, unless the source has ended before it. */
  method ReadTag(source: Source) returns (r: Result<Option<Tag>>)
    requires source.Valid()
    modifies source`pos
    ensures source.Valid()
    ensures match r
      case Ok(Some(tag)) => old(source.Rest()) == tag + source.Rest()
      case Ok(None) => old(source.Rest()) == [] == source.Rest()
      case Err => 0 < |old(source.Rest())| < TAG_SIZE && source.Rest() == []
  {
    var tag: seq<byte> := [];
    while |tag| < TAG_SIZE
      invariant source.Valid() && |tag| <= TAG_SIZE && old(source.Rest()) == tag + source.Rest()
      decreases TAG_SIZE - |tag|
    {
      ghost var before := source.Rest();
      var chunk := source.Read(TAG_SIZE - |tag|);
      assert tag + before == tag + chunk + source.Rest();
      if chunk == [] {
        return if tag != [] then Err else Ok(None);
      }
      tag := tag + chunk;
    }
    return Ok(Some(tag));
  }

  /** Read one more digit of a varint: either it is the last one, or others follow, or reading fails. */
  method ReadDigit(source: Source, integer: nat, ghost all: seq<byte>) returns (next: nat, last: bool, ok: bool)
    requires source.Valid() && Varint.Continues(all, integer, source.Rest())
    modifies source`pos
    ensures source.Valid()
    ensures if !ok then Varint.Read(all) == Err && source.Rest() == Varint.RestFrom(0, all)
      else if last then Varint.Read(all) == Ok((next, source.Rest())) && source.Rest() == Varint.RestFrom(0, all)
      else Varint.Continues(all, next, source.Rest()) && |source.Rest()| < |old(source.Rest())|
  {
    ghost var before := source.Rest();
    var byte := ReadByte(source);
    if byte.Err? {
      return 0, false, false;
    }
    assert before[1..] == source.Rest();
    Varint.ContinueReading(all, integer, before);
    next := Varint.ShiftDigit(integer) + byte.value % 128;
    last := byte.value < 128;
    ok := if last then next <= Varint.MAX_VARINT else next != 0;
  }

  method ReadVarint(source: Source) returns (r: Result<nat>)
    requires source.Valid()
    modifies source`pos
    ensures source.Valid()
    ensures source.Rest() == Varint.RestFrom(0, old(source.Rest()))
    ensures match Varint.Read(old(source.Rest()))
      case Ok((n, rest)) => r == Ok(n) && source.Rest() == rest
      case Err => r == Err
  {
    ghost var all := source.Rest();
    var integer: nat := 0;
    while true
      invariant source.Valid() && Varint.Continues(all, integer, source.Rest())
      decreases |source.Rest()|
    {
      var last, ok;
      integer, last, ok := ReadDigit(source, integer, all);
      if !ok {
        return Err;
      }
      if last {
        return Ok(integer);
      }
    }
  }

  /** Read the rest of a head behind its tag and the byte that says what it is. */
  method ReadBehindTag(source: Source, tag: Tag, indicator: byte) returns (r: Result<AtomHead>)
    requires source.Valid()
    modifies source`pos
    ensures source.Valid() && source.Rest() == BehindIndicator(indicator, old(source.Rest()))
    ensures match ReadIndicated(tag, indicator, old(source.Rest()))
      case Ok((head, rest)) => r == Ok(head) && source.Rest() == rest
      case Err => r == Err
  {
    if indicator >= 128 {
      var length: nat := indicator - 128;
      if length == 127 {
        var more := ReadVarint(source);
        if more.Err? {
          return Err;
        }
        length := length + more.value;
      }
      return Ok(Value(tag, length));
    }
    if indicator % 64 != 0 {
      return Err;
    }
    return Ok(if indicator == 64 then Start(tag) else End(tag));
  }

  method ReadAtomHead(source: Source) returns (r: Result<Option<AtomHead>>)
    requires source.Valid()
    modifies source`pos
    ensures source.Valid() && source.Rest() == BehindHead(old(source.Rest()))
    ensures match ReadHead(old(source.Rest()))
      case Ok(Some((head, rest))) => r == Ok(Some(head)) && source.Rest() == rest
      case Ok(None) => r == Ok(None) && source.Rest() == []
      case Err => r == Err
  {
    ghost var s := source.Rest();
    var tag := ReadTag(source);
    if tag.Err? {
      return Err;
    }
    if tag.value == None {
      return Ok(None);
    }
    assert s[..TAG_SIZE] == tag.value.value && s[TAG_SIZE..] == source.Rest();
    var indicator := ReadByte(source);
    if indicator.Err? {
      return Err;
    }
    assert s[TAG_SIZE] == indicator.value && s[TAG_SIZE + 1..] == source.Rest();
    var head := ReadBehindTag(source, tag.value.value, indicator.value);
    return if head.Err? then Err else Ok(Some(head.value));
  }

  /** Skip the value or segment with the given head: what is consumed is exactly one tree. */
  method Skip(source: Source, head: AtomHead) returns (r: Result<()>)
    requires source.Valid() && head.Writable()
    modifies source`pos
    ensures source.Valid()
    ensures match ReadNode(head, old(source.Rest()))
      case Ok((_, rest)) => r == Ok(()) && source.Rest() == rest
      case Err => r == Err
    decreases |source.Rest()|, 1
  {
    match head
    case Value(_, length) => r := source.Skip(length);
    case Start(openTag) =>
      ghost var s := source.Rest();
      while true
        invariant source.Valid() && |source.Rest()| <= |s|
        invariant ReadChildren(openTag, s).Ok? == ReadChildren(openTag, source.Rest()).Ok?
        invariant ReadChildren(openTag, s).Ok? ==>
          ReadChildren(openTag, s).value.1 == ReadChildren(openTag, source.Rest()).value.1
        decreases |source.Rest()|
      {
        var next := ReadAtomHead(source);
        if next.Err? || next.value == None {
          return Err;
        }
        if next.value.value == End(openTag) {
          return Ok(());
        }
        var skipped := Skip(source, next.value.value);
        if skipped.Err? {
          return Err;
        }
      }
    case End(_) => return Err;
  }

  /** Read the value or segment with the given head into the output, head included. */
  method ReadIntoVec(source: Source, output: seq<byte>, head: AtomHead, limit: nat) returns (r: Result<seq<byte>>)
    requires source.Valid() && head.Writable()
    modifies source`pos
    ensures source.Valid()
    ensures match CopyNode(head, old(source.Rest()), output, limit)
      case Ok((bytes, rest)) => r == Ok(bytes) && source.Rest() == rest
      case Err => r == Err
    decreases |source.Rest()|, 1
  {
    var output' := output + EncodeHead(head);
    match head
    case Value(_, length) =>
      if |output'| + length < limit {
        var value := source.ReadExact(length);
        if value.Err? {
          return Err;
        }
        return Ok(output' + value.value);
      } else {
        return Err;
      }
    case Start(tag) =>
      ghost var s := source.Rest();
      while true
        invariant source.Valid() && |source.Rest()| <= |s|
        invariant CopyNode(head, s, output, limit) == CopyChildren(tag, source.Rest(), output', limit)
        decreases |source.Rest()|
      {
        var inner := ReadAtomHead(source);
        if inner.Err? || inner.value == None {
          return Err;
        }
        if inner.value.value == End(tag) {
          return Ok(output' + EncodeHead(inner.value.value));
        }
        var copied := ReadIntoVec(source, output', inner.value.value, limit);
        if copied.Err? {
          return Err;
        }
        output' := copied.value;
      }
    case End(_) => return Err;
  }
}
