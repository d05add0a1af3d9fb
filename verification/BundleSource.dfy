/** Streaming bundle sources over bytes that are all available eventually. */
module BundleSource {
  import opened Base

  class Source {
    const data: seq<byte>
    var pos: nat

    constructor (data: seq<byte>)
      ensures Valid() && Rest() == data
    {
      this.data := data;
      pos := 0;
    }

    ghost predicate Valid()
      reads this
    {
      pos <= |data|
    }

    /** The bytes not consumed yet. */
    ghost function Rest(): seq<byte>
      reads this
      requires Valid()
    {
      data[pos..]
    }

    /** Read some bytes, at most `max`. Reads may be short, but are empty only if nothing was asked
        for or at the end. */
    method Read(max: nat) returns (chunk: seq<byte>)
      requires Valid()
      modifies this`pos
      ensures Valid() && old(Rest()) == chunk + Rest() && |chunk| <= max
      ensures chunk == [] ==> max == 0 || Rest() == []
    {
      var available := Min(max, |data| - pos);
      var n: nat := 0;
      if available > 0 {
        n :| 1 <= n <= available;
      }
      chunk := data[pos..pos + n];
      pos := pos + n;
    }

    /** Read exactly `length` bytes. Fails at the end of the bundle, which is then consumed. */
    method ReadExact(length: nat) returns (r: Result<seq<byte>>)
      requires Valid()
      modifies this`pos
      ensures Valid()
      ensures if length <= |old(Rest())|
        then r == Ok(old(Rest())[..length]) && Rest() == old(Rest())[length..]
        else r == Err && Rest() == []
    {
      var bytes: seq<byte> := [];
      while |bytes| < length
        invariant Valid() && |bytes| <= length && old(Rest()) == bytes + Rest()
        decreases length - |bytes|
      {
        var chunk := Read(length - |bytes|);
        if chunk == [] {
          return Err;
        }
        bytes := bytes + chunk;
      }
      return Ok(bytes);
    }

    /** Skip bytes by reading them. */
    method Skip(length: nat) returns (r: Result<()>)
      requires Valid()
      modifies this`pos
      ensures Valid()
      ensures if length <= |old(Rest())|
        then r == Ok(()) && Rest() == old(Rest())[length..]
        else r == Err
    {
      var remaining: nat := length;
      ghost var skipped: seq<byte> := [];
      while remaining > 0
        invariant Valid() && |skipped| + remaining == length && old(Rest()) == skipped + Rest()
      {
        var consumed := Read(remaining);
        if consumed == [] {
          return Err;
        }
        remaining := remaining - |consumed|;
        skipped := skipped + consumed;
      }
      assert old(Rest())[|skipped|..] == Rest();
      return Ok(());
    }
  }
}
