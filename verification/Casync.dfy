/** The Casync-compatible content-defined chunker. */
module Casync {
  import opened Base
  import opened Buzhash
  import opened Chunking

  /** Chunker options together with the discriminator derived from the average size. */
  datatype Options = Options(minSize: nat, avgSize: nat, maxSize: nat, discriminator: nat, table: Table) {

    /** The options the program accepts. The discriminator, which the program computes in floating
        point, is only known to be clamped to the size range. */
    predicate Valid() {
      WINDOW_SIZE < minSize <= avgSize <= maxSize <= 0x7fff_ffff && minSize <= discriminator <= maxSize
    }

    /** Number of bytes at the start of a block that are not hashed. */
    function SkipSize(): nat
      requires Valid()
    {
      minSize - WINDOW_SIZE
    }

    /** Where blocks end, from the block's bytes alone: the first size at or above the minimum at
        which the hash of the last 48 bytes hits the discriminator or the maximum is reached. */
    predicate BlockEnds(block: seq<byte>)
      requires Valid()
    {
      |block| >= minSize && ShallBreak(|block|, Hash(table, block[|block| - WINDOW_SIZE..]))
    }

    predicate ShallBreak(size: nat, hash: Word)
      requires Valid()
    {
      size >= maxSize || Value(hash) % discriminator == discriminator - 1
    }

    function Rule(): Rule
      requires Valid()
    {
      block => BlockEnds(block)
    }
  }

  /** Two different positions less than a window apart have different ring slots. */
  lemma SlotsDiffer(a: nat, b: nat)
    requires a < b < a + WINDOW_SIZE
    ensures a % WINDOW_SIZE != b % WINDOW_SIZE
  {
  }

  /** The newest bytes of a block, at most a window of them and none of the first `skip`, each in
      the slot given by its distance from position `skip`. Other slots may hold anything. */
  ghost predicate Ring(ring: seq<byte>, open: seq<byte>, skip: nat)
    requires |ring| == WINDOW_SIZE
  {
    forall k :: skip <= k < |open| && |open| - WINDOW_SIZE <= k ==> ring[(k - skip) % WINDOW_SIZE] == open[k]
  }

  lemma RingPush(ring: seq<byte>, open: seq<byte>, skip: nat, enter: byte)
    requires |ring| == WINDOW_SIZE && skip <= |open| && Ring(ring, open, skip)
    ensures Ring(ring[(|open| - skip) % WINDOW_SIZE := enter], open + [enter], skip)
  {
    var slot := (|open| - skip) % WINDOW_SIZE;
    forall k | skip <= k < |open| && |open| + 1 - WINDOW_SIZE <= k
      ensures ring[slot := enter][(k - skip) % WINDOW_SIZE] == open[k]
    {
      SlotsDiffer(k - skip, |open| - skip);
    }
  }

  /** The slot the next byte goes into holds the byte that leaves a full window. */
  lemma OldestSlot(ring: seq<byte>, open: seq<byte>, skip: nat)
    requires |ring| == WINDOW_SIZE && skip + WINDOW_SIZE <= |open| && Ring(ring, open, skip)
    ensures ring[(|open| - skip) % WINDOW_SIZE] == open[|open| - WINDOW_SIZE]
  {
    assert (|open| - WINDOW_SIZE - skip) % WINDOW_SIZE == (|open| - skip) % WINDOW_SIZE;
  }

  class CasyncChunker {
    const options: Options
    var hash: Word
    var chunkSize: nat
    const window: array<byte>
    var windowSize: nat
    /** The bytes of the current block. */
    ghost var open: seq<byte>

    /** The counters match the block, and the ring holds its newest hashed bytes. */
    ghost predicate RingValid()
      reads this, window
    {
      options.Valid() && window.Length == WINDOW_SIZE && chunkSize == |open| &&
      windowSize == Max(0, Min(WINDOW_SIZE, |open| - options.SkipSize())) &&
      Ring(window[..], open, options.SkipSize())
    }

    /** In addition, the hash of a full window is the hash of the block's last 48 bytes. */
    ghost predicate Valid()
      reads this, window
    {
      RingValid() &&
      (windowSize == WINDOW_SIZE ==> hash == Hash(options.table, open[|open| - WINDOW_SIZE..]))
    }

    constructor (options: Options)
      requires options.Valid()
      ensures Valid() && fresh(window) && this.options == options && open == []
    {
      this.options := options;
      hash, chunkSize, windowSize, open := ZERO, 0, 0, [];
      window := new byte[WINDOW_SIZE](i => 0);
    }

    /** Prepare for the next block. The window keeps its stale bytes. */
    method Reset()
      requires options.Valid() && window.Length == WINDOW_SIZE
      modifies this
      ensures Valid() && open == []
    {
      hash, chunkSize, windowSize, open := ZERO, 0, 0, [];
    }

    /** Compute the hash of the window after it has been filled. */
    method Start()
      requires RingValid() && windowSize == WINDOW_SIZE && |open| == options.minSize
      modifies this`hash
      ensures Valid()
    {
      hash := ZERO;
      for idx := 0 to WINDOW_SIZE
        invariant hash == PartialHash(options.table, window[..], idx)
      {
        hash := Xor(hash, RotateLeft(options.table(window[idx]), WINDOW_SIZE - idx - 1));
      }
      assert window[..] == open[|open| - WINDOW_SIZE..];
    }

    /** Hash input bytes into a window that is not full yet, as far as the input goes. */
    method FillWindow(bytes: seq<byte>, start: nat) returns (offset: nat)
      requires RingValid() && windowSize < WINDOW_SIZE && options.SkipSize() <= |open|
      requires start <= |bytes|
      modifies this, window
      ensures RingValid() && options.SkipSize() <= |open| <= options.minSize
      ensures start <= offset <= |bytes| && open == old(open) + bytes[start..offset]
      ensures windowSize < WINDOW_SIZE ==> offset == |bytes|
      ensures windowSize == WINDOW_SIZE ==> start < offset
    {
      offset := start;
      while windowSize < WINDOW_SIZE && offset < |bytes|
        invariant RingValid() && options.SkipSize() <= |open| <= options.minSize
        invariant start <= offset <= |bytes| && open == old(open) + bytes[start..offset]
        invariant windowSize == WINDOW_SIZE ==> start < offset
      {
        FillByte(bytes[offset]);
        offset := offset + 1;
        assert bytes[start..offset] == bytes[start..offset - 1] + [bytes[offset - 1]];
      }
    }

    /** Put one more byte into a window that is not full yet. */
    method FillByte(enter: byte)
      requires RingValid() && windowSize < WINDOW_SIZE && options.SkipSize() <= |open|
      modifies this, window
      ensures RingValid() && open == old(open) + [enter] && |open| <= options.minSize
    {
      RingPush(window[..], open, options.SkipSize(), enter);
      window[windowSize] := enter;
      windowSize := windowSize + 1;
      chunkSize := chunkSize + 1;
      open := open + [enter];
    }

    /** Move the hash of the full window over one more byte and tell whether the block ends. */
    method Advance(leave: byte, enter: byte) returns (ends: bool)
      requires Valid() && windowSize == WINDOW_SIZE && leave == open[|open| - WINDOW_SIZE]
      modifies this`hash, this`chunkSize
      ensures hash == Hash(options.table, (open + [enter])[|open| + 1 - WINDOW_SIZE..])
      ensures chunkSize == |open| + 1 && ends == options.BlockEnds(open + [enter])
    {
      ghost var full := open[|open| - WINDOW_SIZE..];
      RollingHash(options.table, full, enter);
      hash := Buzhash.Advance(options.table, hash, leave, enter);
      assert (open + [enter])[|open| + 1 - WINDOW_SIZE..] == full[1..] + [enter];
      chunkSize := chunkSize + 1;
      ends := options.ShallBreak(chunkSize, hash);
    }

    /** Put the byte that entered the window into the slot of the byte that left it. */
    method Keep(idx: nat, enter: byte)
      requires options.Valid() && window.Length == WINDOW_SIZE == windowSize
      requires options.minSize <= |open| && chunkSize == |open| + 1
      requires Ring(window[..], open, options.SkipSize())
      requires idx == (|open| - options.SkipSize()) % WINDOW_SIZE
      modifies this`open, window
      ensures RingValid() && open == old(open) + [enter]
    {
      RingPush(window[..], open, options.SkipSize(), enter);
      window[idx] := enter;
      open := open + [enter];
    }

    /** Take one more byte into the block. */
    method RollByte(idx: nat, enter: byte) returns (ends: bool)
      requires Valid() && windowSize == WINDOW_SIZE && idx == (|open| - options.SkipSize()) % WINDOW_SIZE
      modifies this, window
      ensures Valid() && ends == options.BlockEnds(old(open) + [enter])
      ensures if ends then open == [] else windowSize == WINDOW_SIZE && open == old(open) + [enter]
    {
      var leave := window[idx];
      OldestSlot(window[..], open, options.SkipSize());
      ghost var ring := window[..];
      ends := Advance(leave, enter);
      assert window[..] == ring;
      if ends {
        Reset();
      } else {
        Keep(idx, enter);
      }
    }

    /** Roll the full window over the input from `start` on until the block ends. The block was
        `begin` before the input. */
    method Roll(ghost begin: seq<byte>, bytes: seq<byte>, start: nat) returns (r: Option<nat>)
      requires Valid() && windowSize == WINDOW_SIZE && start <= |bytes|
      requires open == begin + bytes[..start] && NoCut(options.Rule(), begin, bytes, start)
      modifies this, window
      ensures Valid()
      ensures match r
        case Some(n) => FirstCut(options.Rule(), begin, bytes, n) && open == []
        case None => NoCut(options.Rule(), begin, bytes, |bytes|) && open == begin + bytes
    {
      var offset := start;
      var idx := (chunkSize - options.SkipSize()) % WINDOW_SIZE;
      while offset < |bytes|
        invariant Valid() && windowSize == WINDOW_SIZE
        invariant idx == (|open| - options.SkipSize()) % WINDOW_SIZE
        invariant start <= offset <= |bytes| && open == begin + bytes[..offset]
        invariant NoCut(options.Rule(), begin, bytes, offset)
      {
        NextSlot(|open| - options.SkipSize());
        assert begin + bytes[..offset + 1] == open + [bytes[offset]];
        var ends := RollByte(idx, bytes[offset]);
        offset := offset + 1;
        if ends {
          return Some(offset);
        }
        ExtendNoCut(options, begin, bytes, offset);
        idx := idx + 1;
        if idx == WINDOW_SIZE {
          idx := 0;
        }
      }
      assert bytes[..offset] == bytes;
      return None;
    }

    /** Hash the filled window and tell whether the block ends with it. */
    method FirstHash() returns (ends: bool)
      requires RingValid() && windowSize == WINDOW_SIZE && |open| == options.minSize
      modifies this
      ensures Valid() && ends == options.BlockEnds(old(open))
      ensures if ends then open == [] else windowSize == WINDOW_SIZE && open == old(open)
    {
      Start();
      ends := options.ShallBreak(chunkSize, hash);
      if ends {
        Reset();
      }
    }

    /** Skip the part of the block that is not hashed. The result is `None` if the input ends
        within it. */
    method SkipHead(bytes: seq<byte>) returns (offset: Option<nat>)
      requires Valid()
      modifies this`chunkSize, this`open
      ensures Valid()
      ensures match offset
        case Some(n) => n <= |bytes| && open == old(open) + bytes[..n]
          && options.SkipSize() <= |open| && (n > 0 ==> |open| == options.SkipSize())
        case None => open == old(open) + bytes && |open| < options.SkipSize()
    {
      var skip := options.SkipSize();
      if chunkSize < skip {
        var maySkip := skip - chunkSize;
        if maySkip > |bytes| {
          chunkSize := chunkSize + |bytes|;
          open := open + bytes;
          return None;
        } else {
          chunkSize := chunkSize + maySkip;
          open := open + bytes[..maySkip];
          return Some(maySkip);
        }
      }
      return Some(0);
    }

    /** Scan for the next block end. The result is the number of input bytes up to and including
        the end of the current block, or `None` if the block continues after the input. */
    method Scan(bytes: seq<byte>) returns (r: Option<nat>)
      requires Valid()
      modifies this, window
      ensures Valid()
      ensures match r
        case Some(n) => FirstCut(options.Rule(), old(open), bytes, n) && open == []
        case None => NoCut(options.Rule(), old(open), bytes, |bytes|) && open == old(open) + bytes
    {
      var head := SkipHead(bytes);
      if head == None {
        ShortBlocksContinue(options, old(open), bytes, |bytes|);
        return None;
      }
      var offset := head.value;
      if windowSize < WINDOW_SIZE {
        offset := FillWindow(bytes, offset);
        assert open == old(open) + bytes[..offset];
        if windowSize < WINDOW_SIZE {
          ShortBlocksContinue(options, old(open), bytes, |bytes|);
          return None;
        }
        ShortBlocksContinue(options, old(open), bytes, offset - 1);
        var ends := FirstHash();
        if ends {
          return Some(offset);
        }
        ExtendNoCut(options, old(open), bytes, offset);
      }
      r := Roll(old(open), bytes, offset);
    }
  }

  lemma NextSlot(n: nat)
    ensures (n + 1) % WINDOW_SIZE == if n % WINDOW_SIZE + 1 == WINDOW_SIZE then 0 else n % WINDOW_SIZE + 1
  {
  }

  lemma ExtendNoCut(options: Options, open: seq<byte>, bytes: seq<byte>, n: nat)
    requires options.Valid() && 0 < n <= |bytes| && NoCut(options.Rule(), open, bytes, n - 1)
    requires !options.BlockEnds(open + bytes[..n])
    ensures NoCut(options.Rule(), open, bytes, n)
  {
  }

  /** No block is shorter than the minimum size. */
  lemma ShortBlocksContinue(options: Options, open: seq<byte>, bytes: seq<byte>, n: nat)
    requires options.Valid() && n <= |bytes| && |open| + n < options.minSize
    ensures NoCut(options.Rule(), open, bytes, n)
  {
    forall m | 0 < m <= n
      ensures !options.Rule()(open + bytes[..m])
    {
      assert |open + bytes[..m]| < options.minSize;
    }
  }

  /** Block sizes: every block but the last has between the minimum and the maximum size, and the
      last block is not larger than the maximum either. */
  lemma BlockSizes(options: Options, blocks: seq<seq<byte>>)
    requires options.Valid() && IsChunking(options.Rule(), blocks)
    ensures forall i :: 0 <= i < |blocks| - 1 ==> options.minSize <= |blocks[i]| <= options.maxSize
    ensures forall i :: 0 <= i < |blocks| ==> 0 < |blocks[i]| <= options.maxSize
  {
    forall i | 0 <= i < |blocks|
      ensures |blocks[i]| <= options.maxSize
    {
      if options.maxSize <= |blocks[i]| {
        EndIsExact(options.Rule(), blocks[i], options.maxSize);
      }
    }
    forall i | 0 <= i < |blocks| - 1
      ensures options.minSize <= |blocks[i]|
    {
      assert options.Rule()(blocks[i]);
    }
  }

  /** The hash of the 48 bytes before position `m` leaves the largest remainder of the discriminator. */
  predicate HitsAt(options: Options, block: seq<byte>, m: nat)
    requires options.Valid() && WINDOW_SIZE <= m <= |block|
  {
    Value(Hash(options.table, block[m - WINDOW_SIZE..m])) % options.discriminator == options.discriminator - 1
  }

  /** A block is cut where it should be: at the maximum size, or at the first position from the minimum size on
      where the hash hits. Only the last block may be shorter. */
  ghost predicate CutByHash(options: Options, block: seq<byte>, last: bool)
    requires options.Valid()
  {
    0 < |block| <= options.maxSize &&
    (forall m :: options.minSize <= m < |block| ==> !HitsAt(options, block, m)) &&
    (!last ==> options.minSize <= |block| && (|block| == options.maxSize || HitsAt(options, block, |block|)))
  }

  /** The blocks of a payload are cut by the hashes of the bytes before their ends, and nothing else. */
  lemma BlocksCutByHash(options: Options, payload: seq<byte>)
    requires options.Valid()
    ensures var blocks := Chunks(options.Rule(), [], payload);
      Flatten(blocks) == payload &&
      forall i :: 0 <= i < |blocks| ==> CutByHash(options, blocks[i], i == |blocks| - 1)
  {
    var blocks := Chunks(options.Rule(), [], payload);
    ChunksAreChunking(options.Rule(), [], payload);
    BlockSizes(options, blocks);
    assert [] + payload == payload;
    forall i | 0 <= i < |blocks|
      ensures CutByHash(options, blocks[i], i == |blocks| - 1)
    {
      OneCutByHash(options, blocks[i], i == |blocks| - 1);
    }
  }

  lemma OneCutByHash(options: Options, block: seq<byte>, last: bool)
    requires options.Valid() && 0 < |block| <= options.maxSize && NoEarlierEnd(options.Rule(), block)
    requires !last ==> options.Rule()(block)
    ensures CutByHash(options, block, last)
  {
    forall m | options.minSize <= m < |block|
      ensures !HitsAt(options, block, m)
    {
      assert !options.Rule()(block[..m]);
      assert block[..m][m - WINDOW_SIZE..] == block[m - WINDOW_SIZE..m];
    }
    if !last {
      assert block[|block| - WINDOW_SIZE..] == block[|block| - WINDOW_SIZE..|block|];
    }
  }
}
