/** Decoding a block-encoded payload from bundle data, earlier blocks and a local block store. */
module PayloadDecoding {
  import opened Base
  import opened Chunking
  import opened Chunkers
  import opened BlockIndexing
  import opened BlockEncoding

  /** What the block store answers for a block: nothing, a block that cannot be read, or any bytes. */
  datatype Answer = NoBlock | Unreadable | StoredBlock(bytes: seq<byte>)

  /** A block store: what it answers when it is asked for each block. The answers need not agree
      with each other, with the bundle or with anything else. */
  type Store = nat -> Answer

  /** The block encoding of a payload header, uncompressed. */
  datatype Setup = Setup(config: Config, hashes: seq<seq<byte>>, sizes: Option<seq<nat>>)

  /** The blocks written so far, the unread bytes of the source, how many of them are payload data,
      and the number of the next block size. */
  datatype Progress = Progress(blocks: seq<seq<byte>>, rest: seq<byte>, remaining: nat, nextSize: nat)

  /** The size of the next block in the bundle. Sizes running out is a panic. */
  function NextSize(setup: Setup, p: Progress): (r: Result<nat>)
    ensures r.Ok? ==> r.value <= p.remaining
  {
    if setup.sizes.Some? then
      if p.nextSize < |setup.sizes.value| then Ok(Min(setup.sizes.value[p.nextSize], p.remaining)) else Err
    else if setup.config.chunking.Fixed? then Ok(Min(setup.config.chunking.blockSize, p.remaining))
    else Err
  }

  /** Whether the answer of the store is the block looked for. */
  predicate Usable(config: Config, answer: Answer, hash: seq<byte>) {
    answer.StoredBlock? && config.algorithm.digest(answer.bytes) == hash
  }

  /** Get a block from the store, skipping it in the bundle, or else from the bundle. */
  function Take(config: Config, p: Progress, size: nat, hash: seq<byte>, answer: Answer): Result<(seq<byte>, Progress)>
    requires size <= p.remaining
  {
    if answer == Unreadable || |p.rest| < size then Err
    else
      var p' := p.(rest := p.rest[size..], remaining := p.remaining - size);
      if Usable(config, answer, hash) then Ok((answer.bytes, p'))
      else
        var block :- config.Uncompress(p.rest[..size]);
        if config.algorithm.digest(block) == hash then Ok((block, p')) else Err
  }

  function Fetch(setup: Setup, p: Progress, hash: seq<byte>, answer: Answer): Result<(seq<byte>, Progress)> {
    var size :- NextSize(setup, p);
    Take(setup.config, p.(nextSize := p.nextSize + 1), size, hash, answer)
  }

  /** The first occurrence of a hash. */
  function FirstIndex(hashes: seq<seq<byte>>, hash: seq<byte>): (i: nat)
    requires hash in hashes
    ensures i < |hashes| && hashes[i] == hash && Fresh(hashes, i)
  {
    if hashes[0] == hash then 0 else 1 + FirstIndex(hashes[1..], hash)
  }

  /** Decode the next block: from the store or the bundle, or as a copy of an earlier block. */
  function Step(setup: Setup, p: Progress, answer: Answer): Result<Progress>
    requires |p.blocks| < |setup.hashes|
  {
    var i := |p.blocks|;
    var hash := setup.hashes[i];
    if Fresh(setup.hashes, i) || !setup.config.deduplicate then
      var (block, p') :- Fetch(setup, p, hash, answer);
      Ok(p'.(blocks := p.blocks + [block]))
    else
      var block := p.blocks[FirstIndex(setup.hashes[..i], hash)];
      if setup.config.algorithm.digest(block) == hash then Ok(p.(blocks := p.blocks + [block])) else Err
  }

  /** The state after decoding the first `n` blocks. */
  function Run(setup: Setup, start: Progress, answers: Store, n: nat): (r: Result<Progress>)
    requires start.blocks == [] && n <= |setup.hashes|
    ensures r.Ok? ==> |r.value.blocks| == n
  {
    if n == 0 then Ok(start)
    else
      var p :- Run(setup, start, answers, n - 1);
      Step(setup, p, answers(n - 1))
  }

  /** The blocks have the digests the index lists for them. */
  ghost predicate Listed(setup: Setup, blocks: seq<seq<byte>>) {
    |blocks| <= |setup.hashes| &&
    forall i :: 0 <= i < |blocks| ==> setup.config.algorithm.digest(blocks[i]) == setup.hashes[i]
  }

  lemma StepListed(setup: Setup, p: Progress, answer: Answer)
    requires |p.blocks| < |setup.hashes| && Listed(setup, p.blocks) && Step(setup, p, answer).Ok?
    ensures Listed(setup, Step(setup, p, answer).value.blocks)
  {
  }

  /** Every block that is written has the digest the index lists for it. */
  lemma {:induction false} Verified(setup: Setup, start: Progress, answers: Store, n: nat)
    requires start.blocks == [] && n <= |setup.hashes|
    requires Run(setup, start, answers, n).Ok?
    ensures Listed(setup, Run(setup, start, answers, n).value.blocks)
  {
    if n > 0 {
      Verified(setup, start, answers, n - 1);
      StepListed(setup, Run(setup, start, answers, n - 1).value, answers(n - 1));
    }
  }

  /** Two different blocks with the same digest at the same place. */
  ghost predicate Collision(algorithm: HashAlgorithm, a: seq<seq<byte>>, b: seq<seq<byte>>) {
    exists i :: 0 <= i < |a| && i < |b| && a[i] != b[i] && algorithm.digest(a[i]) == algorithm.digest(b[i])
  }

  /** Cache transparency: with whatever answers of the block store, two successful runs consume the
      same bytes and the same sizes, and write the same blocks, or exhibit a hash collision. */
  lemma {:induction false} CacheTransparent(setup: Setup, start: Progress, a: Store, b: Store, n: nat)
    requires start.blocks == [] && n <= |setup.hashes|
    requires Run(setup, start, a, n).Ok? && Run(setup, start, b, n).Ok?
    ensures var pa, pb := Run(setup, start, a, n).value, Run(setup, start, b, n).value;
      pa.(blocks := []) == pb.(blocks := []) &&
      (pa.blocks == pb.blocks || Collision(setup.config.algorithm, pa.blocks, pb.blocks))
  {
    SameConsumption(setup, start, a, b, n);
    Verified(setup, start, a, n);
    Verified(setup, start, b, n);
    var pa, pb := Run(setup, start, a, n).value, Run(setup, start, b, n).value;
    if pa.blocks != pb.blocks {
      var i :| 0 <= i < n && pa.blocks[i] != pb.blocks[i];
    }
  }

  lemma {:induction false} SameConsumption(setup: Setup, start: Progress, a: Store, b: Store, n: nat)
    requires start.blocks == [] && n <= |setup.hashes|
    requires Run(setup, start, a, n).Ok? && Run(setup, start, b, n).Ok?
    ensures Run(setup, start, a, n).value.(blocks := []) == Run(setup, start, b, n).value.(blocks := [])
  {
    if n > 0 {
      SameConsumption(setup, start, a, b, n - 1);
      SameStep(setup, Run(setup, start, a, n - 1).value, Run(setup, start, b, n - 1).value, a(n - 1), b(n - 1));
    }
  }

  lemma SameStep(setup: Setup, p: Progress, q: Progress, a: Answer, b: Answer)
    requires |p.blocks| == |q.blocks| < |setup.hashes| && p.(blocks := []) == q.(blocks := [])
    requires Step(setup, p, a).Ok? && Step(setup, q, b).Ok?
    ensures Step(setup, p, a).value.(blocks := []) == Step(setup, q, b).value.(blocks := [])
  {
  }

  /** The store is asked for block `i`: it is not decoded as a copy of an earlier block. */
  predicate Asked(setup: Setup, i: nat)
    requires i < |setup.hashes|
  {
    Fresh(setup.hashes, i) || !setup.config.deduplicate
  }

  /** No answer among those for the first `n` blocks that are asked for is unreadable. */
  ghost predicate AnswersReadable(setup: Setup, answers: Store, n: nat)
    requires n <= |setup.hashes|
  {
    forall i: nat :: i < n && Asked(setup, i) ==> answers(i) != Unreadable
  }

  /** A store makes decoding fail, where it succeeds without a store, if and only if it cannot read a
      block that it is asked for, whatever else its answers are. */
  lemma {:induction false} StoreOnlyHelps(setup: Setup, start: Progress, none: Store, answers: Store, n: nat)
    requires start.blocks == [] && n <= |setup.hashes|
    requires (forall i: nat :: i < n ==> none(i) == NoBlock) && Run(setup, start, none, n).Ok?
    ensures Run(setup, start, answers, n).Ok? <==> AnswersReadable(setup, answers, n)
  {
    if n > 0 {
      StoreOnlyHelps(setup, start, none, answers, n - 1);
      ReadableNext(setup, answers, n - 1);
      if AnswersReadable(setup, answers, n - 1) {
        HelpedRun(setup, start, none, answers, n - 1);
      }
    }
  }

  /** A store that cannot be read at all makes decoding fail, although it succeeds without a store. */
  lemma UnreadableStore(setup: Setup, start: Progress, none: Store, answers: Store, n: nat)
    requires start.blocks == [] && 0 < n <= |setup.hashes| && answers(0) == Unreadable
    requires (forall i: nat :: i < n ==> none(i) == NoBlock) && Run(setup, start, none, n).Ok?
    ensures Run(setup, start, answers, n).Err?
  {
    StoreOnlyHelps(setup, start, none, answers, n);
    assert Asked(setup, 0);
  }

  ghost predicate HasBlock(setup: Setup, answer: Answer, hash: seq<byte>) {
    answer.StoredBlock? && setup.config.algorithm.digest(answer.bytes) == hash
  }

  /** The store has the right block for every one of the first `n` it is asked for. */
  ghost predicate StoreComplete(setup: Setup, answers: Store, n: nat)
    requires n <= |setup.hashes|
  {
    forall i: nat :: i < n && Asked(setup, i) ==> HasBlock(setup, answers(i), setup.hashes[i])
  }

  /** With a store that has every block it is asked for, the bytes of the data do not matter, only how many there
      are. */
  lemma {:induction false} StoreReplacesData(setup: Setup, start: Progress, other: seq<byte>, answers: Store, n: nat)
    requires start.blocks == [] && n <= |setup.hashes| && |other| == |start.rest| && StoreComplete(setup, answers, n)
    ensures var a, b := Run(setup, start, answers, n), Run(setup, start.(rest := other), answers, n);
      a.Ok? == b.Ok? &&
      (a.Ok? ==> |a.value.rest| == |b.value.rest| && a.value.(rest := []) == b.value.(rest := []))
  {
    if n > 0 {
      StoreReplacesData(setup, start, other, answers, n - 1);
      var a, b := Run(setup, start, answers, n - 1), Run(setup, start.(rest := other), answers, n - 1);
      if a.Ok? {
        DataReplaced(setup, a.value, b.value, answers(n - 1));
      }
    }
  }

  lemma DataReplaced(setup: Setup, a: Progress, b: Progress, answer: Answer)
    requires |a.rest| == |b.rest| && a.(rest := []) == b.(rest := []) && |a.blocks| < |setup.hashes|
    requires Asked(setup, |a.blocks|) ==> HasBlock(setup, answer, setup.hashes[|a.blocks|])
    ensures var c, d := Step(setup, a, answer), Step(setup, b, answer);
      c.Ok? == d.Ok? &&
      (c.Ok? ==> |c.value.rest| == |d.value.rest| && c.value.(rest := []) == d.value.(rest := []))
  {
  }

  lemma ReadableNext(setup: Setup, answers: Store, n: nat)
    requires n < |setup.hashes|
    ensures AnswersReadable(setup, answers, n + 1)
        <==> AnswersReadable(setup, answers, n) && (Asked(setup, n) ==> answers(n) != Unreadable)
  {
  }

  lemma HelpedRun(setup: Setup, start: Progress, none: Store, answers: Store, n: nat)
    requires start.blocks == [] && n < |setup.hashes| && none(n) == NoBlock
    requires Run(setup, start, none, n + 1).Ok? && Run(setup, start, answers, n).Ok?
    ensures Run(setup, start, answers, n + 1).Ok? <==> (Asked(setup, n) ==> answers(n) != Unreadable)
  {
    SameConsumption(setup, start, none, answers, n);
    Verified(setup, start, answers, n);
    HelpedStep(setup, Run(setup, start, none, n).value, Run(setup, start, answers, n).value, answers(n));
  }

  lemma HelpedStep(setup: Setup, p: Progress, q: Progress, answer: Answer)
    requires |p.blocks| == |q.blocks| < |setup.hashes| && p.(blocks := []) == q.(blocks := [])
    requires Listed(setup, q.blocks) && Step(setup, p, NoBlock).Ok?
    ensures Step(setup, q, answer).Ok? <==> (Asked(setup, |q.blocks|) ==> answer != Unreadable)
  {
  }

  /** Decoding does not confuse the given blocks with each other or with answers of the store. */
  ghost predicate NoCollision(config: Config, blocks: seq<seq<byte>>, answers: Store) {
    var digest := config.algorithm.digest;
    (forall i, j :: 0 <= i < j < |blocks| && digest(blocks[i]) == digest(blocks[j]) ==> blocks[i] == blocks[j]) &&
    (forall i: nat :: i < |blocks| && Usable(config, answers(i), digest(blocks[i])) ==>
       answers(i).bytes == blocks[i])
  }

  /** The setup for decoding the encoding of the given blocks. */
  function SetupFor(config: Config, blocks: seq<seq<byte>>): Setup {
    Setup(config, Hashes(config.algorithm, blocks),
          if config.IncludesSizes() then Some(Sizes(Stored(config, blocks))) else None)
  }

  function Stored(config: Config, blocks: seq<seq<byte>>): seq<seq<byte>> {
    CompressAll(config, SentBlocks(config, blocks))
  }

  /** How many of the first `n` blocks are in the bundle. */
  function SentCount(config: Config, blocks: seq<seq<byte>>, n: nat): (k: nat)
    requires n <= |blocks|
  {
    |Sent(config.deduplicate, Hashes(config.algorithm, blocks), blocks, n)|
  }

  /** The state after decoding the first `n` blocks of an encoded payload. */
  function Expected(config: Config, blocks: seq<seq<byte>>, tail: seq<byte>, n: nat): Progress
    requires n <= |blocks| && SentCount(config, blocks, n) <= |Stored(config, blocks)|
  {
    var k := SentCount(config, blocks, n);
    var data := Flatten(Stored(config, blocks)[k..]);
    Progress(blocks[..n], data + tail, |data|, k)
  }

  lemma {:induction false} SentPrefix(deduplicate: bool, hashes: seq<seq<byte>>, blocks: seq<seq<byte>>, n: nat, m: nat)
    requires n <= m <= |blocks| == |hashes|
    ensures |Sent(deduplicate, hashes, blocks, n)| <= |Sent(deduplicate, hashes, blocks, m)|
    ensures Sent(deduplicate, hashes, blocks, m)[..|Sent(deduplicate, hashes, blocks, n)|]
         == Sent(deduplicate, hashes, blocks, n)
    decreases m
  {
    if n < m {
      SentPrefix(deduplicate, hashes, blocks, n, m - 1);
    }
  }

  /** The block in the bundle that belongs to block `i` of the payload, if it has one. */
  lemma NextStored(config: Config, blocks: seq<seq<byte>>, i: nat)
    requires i < |blocks|
    ensures var k := SentCount(config, blocks, i);
      k <= SentCount(config, blocks, i + 1) <= |Stored(config, blocks)| &&
      if !config.deduplicate || Fresh(Hashes(config.algorithm, blocks), i)
      then SentCount(config, blocks, i + 1) == k + 1 && Stored(config, blocks)[k] == config.Compress(blocks[i])
      else SentCount(config, blocks, i + 1) == k
  {
    var d, hashes := config.deduplicate, Hashes(config.algorithm, blocks);
    SentPrefix(d, hashes, blocks, i, |blocks|);
    SentPrefix(d, hashes, blocks, i + 1, |blocks|);
    var all := Sent(d, hashes, blocks, |blocks|);
    var upTo := Sent(d, hashes, blocks, i + 1);
    if !d || Fresh(hashes, i) {
      assert all[|upTo| - 1] == upTo[|upTo| - 1] == blocks[i];
    }
  }

  /** The decoder finds the right size for every block: even without recorded sizes, where only the
      last block of the payload can be short. */
  lemma NextSizeExact(config: Config, payload: seq<byte>, tail: seq<byte>, i: nat)
    requires config.Valid() && i < |config.Blocks(payload)|
    requires var blocks := config.Blocks(payload);
      SentCount(config, blocks, i) + 1 == SentCount(config, blocks, i + 1) <= |Stored(config, blocks)| &&
      Stored(config, blocks)[SentCount(config, blocks, i)] == config.Compress(blocks[i])
    ensures var blocks := config.Blocks(payload);
      NextSize(SetupFor(config, blocks), Expected(config, blocks, tail, i)) == Ok(|config.Compress(blocks[i])|)
  {
    var blocks := config.Blocks(payload);
    var stored, k := Stored(config, blocks), SentCount(config, blocks, i);
    assert Flatten(stored[k..]) == stored[k] + Flatten(stored[k + 1..]) by {
      assert stored[k..][1..] == stored[k + 1..];
    }
    if !config.IncludesSizes() {
      ChunksAreChunking(config.chunking.Rule(), [], payload);
      FixedBlockSizes(config.chunking.blockSize, blocks);
      if i + 1 == |blocks| {
        assert stored[k + 1..] == [];
      }
    }
  }

  lemma StepExpected(config: Config, payload: seq<byte>, tail: seq<byte>, answers: Store, i: nat)
    requires config.Valid() && i < |config.Blocks(payload)|
    requires NoCollision(config, config.Blocks(payload), answers)
    requires SentCount(config, config.Blocks(payload), i) <= |Stored(config, config.Blocks(payload))|
    ensures var blocks := config.Blocks(payload);
      SentCount(config, blocks, i + 1) <= |Stored(config, blocks)| &&
      Step(SetupFor(config, blocks), Expected(config, blocks, tail, i), answers(i))
      == (if Asked(SetupFor(config, blocks), i) && answers(i) == Unreadable then Err
          else Ok(Expected(config, blocks, tail, i + 1)))
  {
    var blocks := config.Blocks(payload);
    var hashes := Hashes(config.algorithm, blocks);
    NextStored(config, blocks, i);
    assert blocks[..i + 1] == blocks[..i] + [blocks[i]];
    if Fresh(hashes, i) || !config.deduplicate {
      if answers(i) != Unreadable {
        NextSizeExact(config, payload, tail, i);
        FetchExpected(config, blocks, tail, answers(i), i);
      }
    } else {
      assert hashes[i] in hashes[..i];
      var first := FirstIndex(hashes[..i], hashes[i]);
      assert hashes[first] == hashes[i] && blocks[first] == blocks[i];
    }
  }

  lemma FetchExpected(config: Config, blocks: seq<seq<byte>>, tail: seq<byte>, answer: Answer, i: nat)
    requires config.Valid() && i < |blocks| && answer != Unreadable
    requires Usable(config, answer, config.algorithm.digest(blocks[i])) ==> answer.bytes == blocks[i]
    requires SentCount(config, blocks, i) + 1 == SentCount(config, blocks, i + 1) <= |Stored(config, blocks)|
    requires Stored(config, blocks)[SentCount(config, blocks, i)] == config.Compress(blocks[i])
    requires NextSize(SetupFor(config, blocks), Expected(config, blocks, tail, i)) == Ok(|config.Compress(blocks[i])|)
    ensures Fetch(SetupFor(config, blocks), Expected(config, blocks, tail, i), config.algorithm.digest(blocks[i]),
                  answer)
         == Ok((blocks[i], Expected(config, blocks, tail, i + 1).(blocks := blocks[..i])))
  {
    var stored, k := Stored(config, blocks), SentCount(config, blocks, i);
    var more := Flatten(stored[k + 1..]);
    assert stored[k..][1..] == stored[k + 1..];
    var rest := Expected(config, blocks, tail, i).rest;
    assert rest == stored[k] + (more + tail);
    assert rest[..|stored[k]|] == stored[k] && rest[|stored[k]|..] == more + tail;
  }

  /** Decoding the first `n` blocks of an encoded payload gives these blocks, exactly if the store can read
      those that it is asked for. */
  ghost predicate RunsAsExpected(config: Config, blocks: seq<seq<byte>>, tail: seq<byte>, answers: Store, n: nat) {
    n <= |blocks| && SentCount(config, blocks, n) <= |Stored(config, blocks)| &&
    Run(SetupFor(config, blocks), Expected(config, blocks, tail, 0), answers, n)
    == if AnswersReadable(SetupFor(config, blocks), answers, n) then Ok(Expected(config, blocks, tail, n)) else Err
  }

  lemma RunsAtStart(config: Config, blocks: seq<seq<byte>>, tail: seq<byte>, answers: Store)
    ensures RunsAsExpected(config, blocks, tail, answers, 0)
  {
  }

  lemma RunNext(config: Config, payload: seq<byte>, tail: seq<byte>, answers: Store, n: nat)
    requires config.Valid() && n < |config.Blocks(payload)| && NoCollision(config, config.Blocks(payload), answers)
    requires RunsAsExpected(config, config.Blocks(payload), tail, answers, n)
    ensures RunsAsExpected(config, config.Blocks(payload), tail, answers, n + 1)
  {
    StepExpected(config, payload, tail, answers, n);
    ReadableNext(SetupFor(config, config.Blocks(payload)), answers, n);
  }

  /** Decoding the data of an encoded payload, with any store, block by block. */
  lemma {:induction false} RunExpected(config: Config, payload: seq<byte>, tail: seq<byte>, answers: Store, n: nat)
    requires config.Valid() && n <= |config.Blocks(payload)|
    requires NoCollision(config, config.Blocks(payload), answers)
    ensures RunsAsExpected(config, config.Blocks(payload), tail, answers, n)
  {
    if n == 0 {
      RunsAtStart(config, config.Blocks(payload), tail, answers);
    } else {
      RunExpected(config, payload, tail, answers, n - 1);
      RunNext(config, payload, tail, answers, n - 1);
    }
  }

  function DecodeU32(bytes: seq<byte>): nat
    requires |bytes| == 4
  {
    var b: seq<int> := bytes;
    b[0] * 0x100_0000 + b[1] * 0x1_0000 + b[2] * 0x100 + b[3]
  }

  /** The sizes in an array of 32-bit integers. Left-over bytes at the end are ignored. */
  function DecodeSizes(raw: seq<byte>): seq<nat> {
    if |raw| < 4 then [] else [DecodeU32(raw[..4])] + DecodeSizes(raw[4..])
  }

  lemma DecodeEncodeU32(n: nat)
    requires n < 0x1_0000_0000
    ensures DecodeU32(EncodeU32(n)) == n
  {
    assert n / 0x1_0000 == n / 0x100 / 0x100 && n / 0x100_0000 == n / 0x100 / 0x100 / 0x100;
  }

  lemma {:induction false} DecodeSizesAppend(a: seq<nat>, raw: seq<byte>)
    requires AllU32(a)
    ensures DecodeSizes(EncodeSizes(a) + raw) == a + DecodeSizes(raw)
  {
    if a == [] {
      assert EncodeSizes(a) + raw == raw;
    } else {
      var init, last := a[..|a| - 1], EncodeU32(a[|a| - 1]);
      assert EncodeSizes(a) + raw == EncodeSizes(init) + (last + raw);
      DecodeSizesAppend(init, last + raw);
      assert (last + raw)[..4] == last && (last + raw)[4..] == raw;
      DecodeEncodeU32(a[|a| - 1]);
    }
  }

  /** The hashes stored back to back. Left-over bytes at the end are ignored. */
  function SplitHashes(algorithm: HashAlgorithm, raw: seq<byte>): seq<seq<byte>>
    requires 0 < algorithm.size
  {
    if |raw| < algorithm.size then []
    else [raw[..algorithm.size]] + SplitHashes(algorithm, raw[algorithm.size..])
  }

  lemma {:induction false} SplitFlattened(algorithm: HashAlgorithm, hashes: seq<seq<byte>>)
    requires 0 < algorithm.size && forall k :: 0 <= k < |hashes| ==> |hashes[k]| == algorithm.size
    ensures SplitHashes(algorithm, Flatten(hashes)) == hashes
  {
    if hashes != [] {
      var tail := Flatten(hashes[1..]);
      assert Flatten(hashes)[..algorithm.size] == hashes[0] && Flatten(hashes)[algorithm.size..] == tail;
      SplitFlattened(algorithm, hashes[1..]);
    }
  }

  /** The hash found by its number is the hash found by splitting. */
  lemma {:induction false} SplitAt(algorithm: HashAlgorithm, raw: seq<byte>, i: nat)
    requires 0 < algorithm.size && i < |SplitHashes(algorithm, raw)|
    ensures HashAt(algorithm, raw, i) == SplitHashes(algorithm, raw)[i]
    decreases i
  {
    if i == 0 {
      Times(0, algorithm.size);
    } else {
      SplitAt(algorithm, raw[algorithm.size..], i - 1);
      HashAtShift(algorithm, raw, i - 1);
    }
  }

  /** Uncompress and check the block encoding of a payload header. */
  function Prepare(config: Config, encoding: Encoding): Result<Setup>
    requires 0 < config.algorithm.size
  {
    var raw :- config.Uncompress(encoding.blockHashes);
    var hashes := SplitHashes(config.algorithm, raw);
    if encoding.blockSizes.Some? then
      var sizes :- config.Uncompress(encoding.blockSizes.value);
      Ok(Setup(config, hashes, Some(DecodeSizes(sizes))))
    else if config.chunking.Fixed? then Ok(Setup(config, hashes, None))
    else Err
  }

  lemma PrepareEncoded(config: Config, blocks: seq<seq<byte>>)
    requires config.Valid() && Encoded(config, blocks).Ok?
    ensures var (encoding, data) := Encoded(config, blocks).value;
      Prepare(config, encoding) == Ok(SetupFor(config, blocks)) && data == Flatten(Stored(config, blocks))
  {
    SplitFlattened(config.algorithm, Hashes(config.algorithm, blocks));
    if config.IncludesSizes() {
      var sizes := Sizes(Stored(config, blocks));
      DecodeSizesAppend(sizes, []);
      assert EncodeSizes(sizes) + [] == EncodeSizes(sizes) && sizes + [] == sizes;
    }
  }

  /** The start of decoding a payload whose data is the next `length` bytes of the source. */
  function Begin(rest: seq<byte>, length: nat): Progress {
    Progress([], rest, length, 0)
  }

  /** The store can read every block of the payload that it is asked for. */
  ghost predicate ReadableFor(config: Config, payload: seq<byte>, answers: Store)
    requires config.chunking.Valid()
  {
    AnswersReadable(SetupFor(config, config.Blocks(payload)), answers, |config.Blocks(payload)|)
  }

  /** The end of decoding an encoded payload: all of it is decoded, exactly its data is consumed, and every
      recorded size is used. */
  ghost predicate Complete(setup: Setup, p: Progress, payload: seq<byte>, tail: seq<byte>) {
    Flatten(p.blocks) == payload && p.rest == tail && p.remaining == 0 &&
    (setup.sizes.Some? ==> p.nextSize == |setup.sizes.value|)
  }

  /** Round trip: whatever the chunker, deduplication and compression, decoding an encoded payload with any
      store gives the payload back, consumes exactly its data, uses every recorded size, and leaves what
      follows the data, exactly if the store can read the blocks it is asked for; unless hashes of the
      blocks involved collide. */
  lemma PayloadRoundTrip(config: Config, payload: seq<byte>, tail: seq<byte>, answers: Store)
    requires config.Valid() && Encoded(config, config.Blocks(payload)).Ok?
    requires NoCollision(config, config.Blocks(payload), answers)
    ensures var (encoding, data) := Encoded(config, config.Blocks(payload)).value;
      var setup := Prepare(config, encoding);
      setup.Ok? &&
      var r := Run(setup.value, Begin(data + tail, |data|), answers, |setup.value.hashes|);
      (r.Ok? <==> ReadableFor(config, payload, answers)) && (r.Ok? ==> Complete(setup.value, r.value, payload, tail))
  {
    var blocks := config.Blocks(payload);
    PrepareEncoded(config, blocks);
    ChunksAreChunking(config.chunking.Rule(), [], payload);
    assert [] + payload == payload;
    RunExpected(config, payload, tail, answers, |blocks|);
    var stored := Stored(config, blocks);
    assert stored[0..] == stored && stored[|stored|..] == [];
    assert blocks[..0] == [] && blocks[..|blocks|] == blocks;
    assert Flatten(stored[|stored|..]) + tail == tail;
  }
}
