/** What it means to cut a byte stream into blocks, independent of any streaming implementation.

    A rule decides, from the bytes of a block alone, whether the block ends here. The functions
    below feed a stream to a rule one byte at a time; every chunker is proved against them. */
module Chunking {
  import opened Base

  type Rule = seq<byte> -> bool

  /** The blocks of `open + input`, where `open` has been fed already without ending a block. */
  function Chunks(rule: Rule, open: seq<byte>, input: seq<byte>): seq<seq<byte>>
    decreases |input|
  {
    if input == [] then
      if open == [] then [] else [open]
    else
      var block := open + [input[0]];
      if rule(block) then [block] + Chunks(rule, [], input[1..])
      else Chunks(rule, block, input[1..])
  }

  /** The bytes of the unfinished block after feeding `input`. */
  function Pending(rule: Rule, open: seq<byte>, input: seq<byte>): seq<byte>
    decreases |input|
  {
    if input == [] then open
    else
      var block := open + [input[0]];
      Pending(rule, if rule(block) then [] else block, input[1..])
  }

  /** The blocks completed while feeding `input`. */
  function Completed(rule: Rule, open: seq<byte>, input: seq<byte>): seq<seq<byte>>
    decreases |input|
  {
    if input == [] then []
    else
      var block := open + [input[0]];
      if rule(block) then [block] + Completed(rule, [], input[1..])
      else Completed(rule, block, input[1..])
  }

  /** No block ends within the first `n` bytes of the input. */
  ghost predicate NoCut(rule: Rule, open: seq<byte>, input: seq<byte>, n: nat)
    requires n <= |input|
  {
    forall m :: 0 < m <= n ==> !rule(open + input[..m])
  }

  /** The first block end in the input is after exactly `n` bytes. */
  ghost predicate FirstCut(rule: Rule, open: seq<byte>, input: seq<byte>, n: nat) {
    0 < n <= |input| && rule(open + input[..n]) && NoCut(rule, open, input, n - 1)
  }

  /** Feeding bytes that end no block only extends the open block. */
  lemma {:induction false} FeedNoCut(rule: Rule, open: seq<byte>, input: seq<byte>, n: nat)
    requires n <= |input| && NoCut(rule, open, input, n)
    ensures Chunks(rule, open, input) == Chunks(rule, open + input[..n], input[n..])
    ensures Completed(rule, open, input) == Completed(rule, open + input[..n], input[n..])
    ensures Pending(rule, open, input) == Pending(rule, open + input[..n], input[n..])
    decreases n
  {
    if n == 0 {
      assert open + input[..0] == open && input[0..] == input;
    } else {
      var block := open + [input[0]];
      var rest := input[1..];
      assert open + input[..1] == block;
      forall m | 0 < m <= n - 1
        ensures !rule(block + rest[..m])
      {
        assert block + rest[..m] == open + input[..m + 1];
      }
      FeedNoCut(rule, block, rest, n - 1);
      assert block + rest[..n - 1] == open + input[..n];
      assert rest[n - 1..] == input[n..];
    }
  }

  /** Feeding up to the first block end completes exactly that block. */
  lemma FeedCut(rule: Rule, open: seq<byte>, input: seq<byte>, n: nat)
    requires FirstCut(rule, open, input, n)
    ensures Chunks(rule, open, input) == [open + input[..n]] + Chunks(rule, [], input[n..])
    ensures Completed(rule, open, input) == [open + input[..n]] + Completed(rule, [], input[n..])
    ensures Pending(rule, open, input) == Pending(rule, [], input[n..])
  {
    FeedNoCut(rule, open, input, n - 1);
    var rest := input[n - 1..];
    assert open + input[..n - 1] + [rest[0]] == open + input[..n];
    assert rest[1..] == input[n..];
  }

  /** Blocks are the completed ones followed by what is still open. */
  lemma {:induction false} ChunksCompleted(rule: Rule, open: seq<byte>, input: seq<byte>)
    ensures Chunks(rule, open, input)
         == Completed(rule, open, input)
            + (if Pending(rule, open, input) == [] then [] else [Pending(rule, open, input)])
    decreases |input|
  {
    if input != [] {
      var block := open + [input[0]];
      ChunksCompleted(rule, if rule(block) then [] else block, input[1..]);
    }
  }

  /** Splitting the stream does not matter: the open block carries all the state needed. */
  lemma {:induction false} FeedSplit(rule: Rule, open: seq<byte>, a: seq<byte>, b: seq<byte>)
    ensures Pending(rule, open, a + b) == Pending(rule, Pending(rule, open, a), b)
    ensures Completed(rule, open, a + b)
         == Completed(rule, open, a) + Completed(rule, Pending(rule, open, a), b)
    decreases |a|
  {
    if a == [] {
      assert a + b == b;
    } else {
      var block := open + [a[0]];
      assert (a + b)[0] == a[0] && (a + b)[1..] == a[1..] + b;
      FeedSplit(rule, if rule(block) then [] else block, a[1..], b);
    }
  }

  /** Resynchronisation: the blocks of `a + b` are those of `a` followed by those of `b` as soon
      as a block ends exactly with `a`. */
  lemma Resynchronise(rule: Rule, a: seq<byte>, b: seq<byte>)
    requires Pending(rule, [], a) == []
    ensures Chunks(rule, [], a + b) == Chunks(rule, [], a) + Chunks(rule, [], b)
  {
    FeedSplit(rule, [], a, b);
    ChunksCompleted(rule, [], a);
    ChunksCompleted(rule, [], b);
    ChunksCompleted(rule, [], a + b);
  }

  /** The rule holds for no proper prefix of the block. */
  ghost predicate NoEarlierEnd(rule: Rule, block: seq<byte>) {
    forall m :: 0 < m < |block| ==> !rule(block[..m])
  }

  /** A partition of a stream in which every block ends exactly where the rule first says so. Only
      the last block may end without the rule, with the stream. */
  ghost predicate IsChunking(rule: Rule, blocks: seq<seq<byte>>) {
    (forall i :: 0 <= i < |blocks| ==> blocks[i] != [] && NoEarlierEnd(rule, blocks[i])) &&
    (forall i :: 0 <= i < |blocks| - 1 ==> rule(blocks[i]))
  }

  lemma EndIsExact(rule: Rule, block: seq<byte>, n: nat)
    requires NoEarlierEnd(rule, block) && 0 < n <= |block| && rule(block[..n])
    ensures n == |block|
  {
  }

  /** The blocks of a stream are the only partition of it that follows the rule. */
  lemma {:induction false} ChunkingUnique(rule: Rule, blocks: seq<seq<byte>>)
    requires IsChunking(rule, blocks)
    ensures Chunks(rule, [], Flatten(blocks)) == blocks
    decreases |blocks|
  {
    if blocks != [] {
      var b := blocks[0];
      var rest := Flatten(blocks[1..]);
      var all := b + rest;
      assert Flatten(blocks) == all;
      assert all[|b|..] == rest;
      forall m | 0 < m <= |b|
        ensures [] + all[..m] == b[..m]
      {
      }
      assert b[..|b|] == b;
      if rule(b) {
        FeedCut(rule, [], all, |b|);
        ChunkingUnique(rule, blocks[1..]);
      } else {
        FeedNoCut(rule, [], all, |b|);
        assert |blocks| == 1 && rest == [];
      }
    }
  }

  /** The blocks of a stream are a partition of it that follows the rule. */
  lemma {:induction false} ChunksAreChunking(rule: Rule, open: seq<byte>, input: seq<byte>)
    requires NoEarlierEnd(rule, open) && (open != [] ==> !rule(open))
    ensures Flatten(Chunks(rule, open, input)) == open + input
    ensures IsChunking(rule, Chunks(rule, open, input))
    decreases |input|
  {
    if input == [] {
      assert open != [] ==> Flatten([open]) == open + Flatten([open][1..]);
    } else {
      var block := open + [input[0]];
      OneMoreByte(rule, open, input[0]);
      ChunksAreChunking(rule, if rule(block) then [] else block, input[1..]);
      assert block + input[1..] == open + input;
      if rule(block) {
        PrependBlock(rule, block, Chunks(rule, [], input[1..]));
      }
    }
  }

  lemma OneMoreByte(rule: Rule, open: seq<byte>, b: byte)
    requires NoEarlierEnd(rule, open) && (open != [] ==> !rule(open))
    ensures NoEarlierEnd(rule, open + [b])
  {
    forall m | 0 < m < |open + [b]|
      ensures !rule((open + [b])[..m])
    {
      assert (open + [b])[..m] == open[..m];
      assert m == |open| ==> open[..m] == open;
    }
  }

  lemma PrependBlock(rule: Rule, block: seq<byte>, blocks: seq<seq<byte>>)
    requires block != [] && rule(block) && NoEarlierEnd(rule, block) && IsChunking(rule, blocks)
    ensures IsChunking(rule, [block] + blocks)
    ensures Flatten([block] + blocks) == block + Flatten(blocks)
  {
    assert ([block] + blocks)[1..] == blocks;
    forall i | 0 <= i < |blocks|
      ensures ([block] + blocks)[i + 1] == blocks[i]
    {
    }
  }
}
