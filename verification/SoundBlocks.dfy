/** When the database of local blocks can be relied on. */
module SoundBlocks {
  import opened Base
  import opened Outcomes
  import opened BlockIndexing
  import opened BlockEncoding
  import opened PayloadDecoding
  import opened KnownBlocks
  import opened StoredHashes
  import opened IndexFiles
  import opened BlockDb

  /** The database has exactly the known blocks, up to hashes without sizes at the end. */
  ghost predicate Sound(algorithm: HashAlgorithm, db: Db, known: seq<Known>, surplus: seq<byte>) {
    0 < algorithm.size && db.hashes == Flatten(HashesOf(known)) + surplus && Sane(algorithm, known, |db.files|) &&
    |db.dimensions| == |known| && Dimensions(db.dimensions, known) && db.table == TableOf(known, |known|)
  }

  /** The blocks an index makes known, for the file with the given number. */
  function Added(algorithm: HashAlgorithm, index: IndexFile, file: nat): seq<Known>
    requires index.Index?
  {
    var sizes := SizesOf(index);
    seq(|sizes|, i requires 0 <= i < |sizes| =>
      Known(HashAt(algorithm, index.hashes, i), file, Sum(sizes, i), sizes[i]))
  }

  /** The hashes of an index for which there are no sizes. */
  function Surplus(algorithm: HashAlgorithm, index: IndexFile): seq<byte>
    requires index.Index?
  {
    Positive(|SizesOf(index)|, algorithm.size);
    Slice(index.hashes, |SizesOf(index)| * algorithm.size, |index.hashes|)
  }

  lemma NoSurplus(algorithm: HashAlgorithm, index: IndexFile)
    requires index.Index? && !Lacking(algorithm, index)
    ensures Surplus(algorithm, index) == [] <==> Matching(algorithm, index)
  {
  }

  function FirstHashes(algorithm: HashAlgorithm, raw: seq<byte>, n: nat): seq<seq<byte>> {
    seq(n, i requires 0 <= i < n => HashAt(algorithm, raw, i))
  }

  lemma FirstHashesPush(algorithm: HashAlgorithm, raw: seq<byte>, n: nat)
    ensures FirstHashes(algorithm, raw, n + 1) == FirstHashes(algorithm, raw, n) + [HashAt(algorithm, raw, n)]
  {
  }

  lemma {:induction false} FirstHashesFlat(algorithm: HashAlgorithm, raw: seq<byte>, n: nat)
    requires n * algorithm.size <= |raw|
    ensures 0 <= n * algorithm.size && Flatten(FirstHashes(algorithm, raw, n)) == raw[..n * algorithm.size]
    ensures forall i :: 0 <= i < n ==> |FirstHashes(algorithm, raw, n)[i]| == algorithm.size
  {
    if n > 0 {
      Times(n - 1, algorithm.size);
      Positive(n - 1, algorithm.size);
      FirstHashesFlat(algorithm, raw, n - 1);
      FirstHashesPush(algorithm, raw, n - 1);
      FlattenPush(FirstHashes(algorithm, raw, n - 1), HashAt(algorithm, raw, n - 1));
    }
  }

  lemma HashesExtended(algorithm: HashAlgorithm, known: seq<Known>, index: IndexFile, file: nat)
    requires index.Index? && !Lacking(algorithm, index) && Sane(algorithm, known, file)
    ensures var all := known + Added(algorithm, index, file);
      Flatten(HashesOf(all)) + Surplus(algorithm, index) == Flatten(HashesOf(known)) + index.hashes &&
      Sane(algorithm, all, file + 1)
  {
    var n := |SizesOf(index)|;
    var added := FirstHashes(algorithm, index.hashes, n);
    FirstHashesFlat(algorithm, index.hashes, n);
    FlattenAppend(HashesOf(known), added);
    assert HashesOf(known + Added(algorithm, index, file)) == HashesOf(known) + added;
    assert index.hashes[..n * algorithm.size] + Surplus(algorithm, index) == index.hashes;
    AddedSane(algorithm, known, index, file, added);
  }

  lemma AddedSane(algorithm: HashAlgorithm, known: seq<Known>, index: IndexFile, file: nat, hashes: seq<seq<byte>>)
    requires index.Index? && Sane(algorithm, known, file)
    requires hashes == FirstHashes(algorithm, index.hashes, |SizesOf(index)|)
    requires forall i :: 0 <= i < |hashes| ==> |hashes[i]| == algorithm.size
    ensures Sane(algorithm, known + Added(algorithm, index, file), file + 1)
  {
    forall i | 0 <= i < |SizesOf(index)|
      ensures |Added(algorithm, index, file)[i].hash| == algorithm.size
    {
      assert Added(algorithm, index, file)[i].hash == hashes[i];
    }
  }

  /** With known blocks only, the number of the next block is found from the hashes. */
  lemma Aligned(algorithm: HashAlgorithm, db: Db, known: seq<Known>)
    requires Sound(algorithm, db, known, [])
    ensures NextBlock(algorithm, db) == |known| && Leftover(algorithm, db) == [] && Shift(algorithm, db) == 0
    ensures |db.hashes| == |known| * algorithm.size
  {
    FlattenedSize(algorithm, HashesOf(known));
    Quotient(|known|, algorithm.size);
  }

  /** The blocks that are entered are described by what is known. */
  ghost predicate Describes(algorithm: HashAlgorithm, all: seq<Known>, hashes: seq<byte>, first: nat, file: nat,
                            n: nat) {
    first + n <= |all| && forall i: nat :: i < n ==> DescribesAt(algorithm, all, hashes, first, file, i)
  }

  ghost predicate DescribesAt(algorithm: HashAlgorithm, all: seq<Known>, hashes: seq<byte>, first: nat, file: nat,
                              i: nat) {
    first + i < |all| && all[first + i].hash == BlockHash(algorithm, hashes, first, i) && all[first + i].file == file
  }

  lemma {:induction false} TableDescribed(algorithm: HashAlgorithm, db: Db, all: seq<Known>, first: nat, file: nat,
                                          sizes: seq<nat>, n: nat)
    requires n <= |sizes| && EnterBlocks(algorithm, db, first, file, sizes, n).Done?
    requires Describes(algorithm, all, db.hashes, first, file, n) && db.table == TableOf(all, first)
    ensures var next := EnterBlocks(algorithm, db, first, file, sizes, n).value;
      next.hashes == db.hashes && next.table == TableOf(all, first + n)
  {
    if n > 0 {
      assert DescribesAt(algorithm, all, db.hashes, first, file, n - 1);
      TableDescribed(algorithm, db, all, first, file, sizes, n - 1);
    }
  }

  lemma AddedDescribed(algorithm: HashAlgorithm, db: Db, known: seq<Known>, index: IndexFile)
    requires Sound(algorithm, db, known, []) && index.Index?
    ensures var file, n := |db.files|, |SizesOf(index)|;
      Describes(algorithm, known + Added(algorithm, index, file), db.hashes + index.hashes, |known|, file, n)
  {
    Aligned(algorithm, db, known);
    var all, hashes := known + Added(algorithm, index, |db.files|), db.hashes + index.hashes;
    forall i: nat | i < |SizesOf(index)|
      ensures DescribesAt(algorithm, all, hashes, |known|, |db.files|, i)
    {
      HashReadIs(algorithm, db, index, i);
      assert [] + index.hashes == index.hashes;
      assert all[|known| + i] == Added(algorithm, index, |db.files|)[i];
    }
  }

  lemma RangesDescribed(algorithm: HashAlgorithm, dimensions: seq<(nat, nat)>, known: seq<Known>, index: IndexFile,
                        file: nat)
    requires index.Index? && Dimensions(dimensions, known) && |dimensions| == |known|
    ensures var sizes := SizesOf(index);
      Dimensions(dimensions + Ranges(sizes, |sizes|), known + Added(algorithm, index, file))
  {
  }

  lemma TableAdded(algorithm: HashAlgorithm, db: Db, known: seq<Known>, index: IndexFile, dataFile: string)
    requires Sound(algorithm, db, known, []) && index.Index? && AddIndexTo(algorithm, db, index, dataFile).Done?
    ensures var all := known + Added(algorithm, index, |db.files|);
      AddIndexTo(algorithm, db, index, dataFile).value.table == TableOf(all, |all|)
  {
    var file, sizes, with := |db.files|, SizesOf(index), WithFile(db, index.hashes, dataFile);
    Aligned(algorithm, db, known);
    TableOfExtended(known, Added(algorithm, index, file), |known|);
    AddedDescribed(algorithm, db, known, index);
    TableDescribed(algorithm, with, known + Added(algorithm, index, file), |known|, file, sizes, |sizes|);
  }

  lemma NextSound(algorithm: HashAlgorithm, db: Db, known: seq<Known>, index: IndexFile, dataFile: string, next: Db)
    requires Sound(algorithm, db, known, []) && index.Index? && !Lacking(algorithm, index)
    requires next.hashes == db.hashes + index.hashes && next.files == db.files + [dataFile]
    requires next.dimensions == db.dimensions + Ranges(SizesOf(index), |SizesOf(index)|)
    requires var all := known + Added(algorithm, index, |db.files|); next.table == TableOf(all, |all|)
    ensures Sound(algorithm, next, known + Added(algorithm, index, |db.files|), Surplus(algorithm, index))
  {
    HashesExtended(algorithm, known, index, |db.files|);
    RangesDescribed(algorithm, db.dimensions, known, index, |db.files|);
  }

  /** Adding an index to a sound database panics exactly if the index lacks hashes. Otherwise its blocks are
      known, and the database is sound, up to surplus hashes of this index. */
  lemma AddSound(algorithm: HashAlgorithm, db: Db, known: seq<Known>, index: IndexFile, dataFile: string)
    requires Sound(algorithm, db, known, []) && index.Index?
    ensures var r := AddIndexTo(algorithm, db, index, dataFile);
      if Lacking(algorithm, index) then r == Panicked
      else
        r.Done? && r.value.files == db.files + [dataFile] &&
        Sound(algorithm, r.value, known + Added(algorithm, index, |db.files|), Surplus(algorithm, index)) &&
        (Surplus(algorithm, index) == [] <==> Matching(algorithm, index))
  {
    Aligned(algorithm, db, known);
    AddedExactly(algorithm, db, index, dataFile);
    if !Lacking(algorithm, index) {
      TableAdded(algorithm, db, known, index, dataFile);
      NextSound(algorithm, db, known, index, dataFile, AddIndexTo(algorithm, db, index, dataFile).value);
      NoSurplus(algorithm, index);
    }
  }

  /** What is found is the first known block with the hash. */
  ghost predicate IsFound(files: seq<string>, known: seq<Known>, hash: seq<byte>, found: (string, nat, nat), i: nat) {
    IsFirst(known, hash, i) && known[i].file < |files| &&
    found == (files[known[i].file], known[i].offset, known[i].size)
  }

  /** Queries of a sound database do not panic. The first known block with the hash is found, or nothing if
      there is none. */
  lemma FindSound(algorithm: HashAlgorithm, db: Db, known: seq<Known>, surplus: seq<byte>, hash: seq<byte>)
    requires Sound(algorithm, db, known, surplus)
    ensures match Find(db, hash)
      case Done(None) => forall i :: 0 <= i < |known| ==> known[i].hash != hash
      case Done(Some(found)) => exists i: nat :: IsFound(db.files, known, hash, found, i)
      case _ => false
  {
    TableOfKnows(known, |known|);
    if hash in db.table {
      var (block, file) := db.table[hash];
      assert IsEntry(known, |known|, hash, db.table[hash]) && IsDimension(db.dimensions[block], known[block]);
      assert IsFound(db.files, known, hash, Find(db, hash).value.value, block);
    }
  }

  /** A range of a file has a hash. */
  ghost predicate HasHash(algorithm: HashAlgorithm, contents: seq<byte>, offset: nat, size: nat, hash: seq<byte>) {
    offset + size <= |contents| && algorithm.digest(contents[offset..offset + size]) == hash
  }

  /** A known block is where it is said to be: its range of the file has its hash. */
  ghost predicate IsTrue(algorithm: HashAlgorithm, k: Known, contents: seq<seq<byte>>) {
    k.file < |contents| && HasHash(algorithm, contents[k.file], k.offset, k.size, k.hash)
  }

  ghost predicate Truthful(algorithm: HashAlgorithm, known: seq<Known>, contents: seq<seq<byte>>) {
    forall k :: k in known ==> IsTrue(algorithm, k, contents)
  }

  /** What is found has the hash. */
  ghost predicate IsRight(algorithm: HashAlgorithm, files: seq<string>, contents: string -> seq<byte>,
                          found: (string, nat, nat), hash: seq<byte>) {
    found.0 in files && HasHash(algorithm, contents(found.0), found.1, found.2, hash)
  }

  /** The contents of the given files. */
  ghost function ContentsOf(files: seq<string>, contents: string -> seq<byte>): seq<seq<byte>> {
    seq(|files|, i requires 0 <= i < |files| => contents(files[i]))
  }

  /** If what is known is true of the contents of the files, whatever is found has the hash. */
  lemma FoundIsRight(algorithm: HashAlgorithm, files: seq<string>, known: seq<Known>, contents: string -> seq<byte>,
                     hash: seq<byte>, found: (string, nat, nat), i: nat)
    requires IsFound(files, known, hash, found, i) && Truthful(algorithm, known, ContentsOf(files, contents))
    ensures IsRight(algorithm, files, contents, found, hash)
  {
    assert IsTrue(algorithm, known[i], ContentsOf(files, contents));
  }

  lemma {:induction false} SumOfSizes(blocks: seq<seq<byte>>, n: nat)
    requires n <= |blocks|
    ensures Sum(Sizes(blocks), n) == |Flatten(blocks[..n])|
  {
    if n > 0 {
      SumOfSizes(blocks, n - 1);
      assert blocks[..n] == blocks[..n - 1] + [blocks[n - 1]];
      FlattenPush(blocks[..n - 1], blocks[n - 1]);
    }
  }

  /** Adding the index of a file that is unchanged since it was indexed keeps all known blocks
      truthful. */
  lemma IndexedFileTruthful(algorithm: HashAlgorithm, blocks: seq<seq<byte>>, known: seq<Known>,
                            contents: seq<seq<byte>>)
    requires algorithm.Valid() && AllU32(Sizes(blocks)) && Truthful(algorithm, known, contents)
    ensures Matching(algorithm, IndexFileFor(algorithm, blocks))
    ensures Truthful(algorithm, known + Added(algorithm, IndexFileFor(algorithm, blocks), |contents|),
                     contents + [Flatten(blocks)])
  {
    IndexFileRead(algorithm, blocks);
    var index := IndexFileFor(algorithm, blocks);
    var added := Added(algorithm, index, |contents|);
    forall k | k in known + added
      ensures IsTrue(algorithm, k, contents + [Flatten(blocks)])
    {
      if k in known {
        TruthKept(algorithm, k, contents, Flatten(blocks));
      } else {
        var i :| 0 <= i < |added| && added[i] == k;
        AddedBlockTrue(algorithm, blocks, contents, i);
      }
    }
  }

  lemma TruthKept(algorithm: HashAlgorithm, k: Known, contents: seq<seq<byte>>, more: seq<byte>)
    requires IsTrue(algorithm, k, contents)
    ensures IsTrue(algorithm, k, contents + [more])
  {
  }

  lemma AddedBlockTrue(algorithm: HashAlgorithm, blocks: seq<seq<byte>>, contents: seq<seq<byte>>, i: nat)
    requires algorithm.Valid() && AllU32(Sizes(blocks)) && i < |blocks|
    ensures var added := Added(algorithm, IndexFileFor(algorithm, blocks), |contents|);
      |added| == |blocks| && IsTrue(algorithm, added[i], contents + [Flatten(blocks)])
  {
    IndexFileRead(algorithm, blocks);
    HashesAt(algorithm, Hashes(algorithm, blocks), i);
    SumOfSizes(blocks, i);
    Layout(blocks, i);
    assert (contents + [Flatten(blocks)])[|contents|] == Flatten(blocks);
  }

  lemma IndexFileRead(algorithm: HashAlgorithm, blocks: seq<seq<byte>>)
    requires algorithm.Valid() && AllU32(Sizes(blocks))
    ensures var index := IndexFileFor(algorithm, blocks);
      index.hashes == Flatten(Hashes(algorithm, blocks)) && SizesOf(index) == Sizes(blocks) &&
      Matching(algorithm, index)
  {
    DecodeSizesAppend(Sizes(blocks), []);
    FlattenedSize(algorithm, Hashes(algorithm, blocks));
    assert EncodeSizes(Sizes(blocks)) + [] == EncodeSizes(Sizes(blocks)) && Sizes(blocks) + [] == Sizes(blocks);
  }

  /** An index that is used, and its data file. */
  type Used = u: (IndexFile, string) | u.0.Index? witness (Index([], []), "")

  /** Add indices, one after the other. */
  function AddEach(algorithm: HashAlgorithm, db: Db, used: seq<Used>): Outcome<Db>
    requires 0 < algorithm.size
    decreases |used|
  {
    if used == [] then Done(db)
    else
      var next :- AddIndexTo(algorithm, db, used[0].0, used[0].1);
      AddEach(algorithm, next, used[1..])
  }

  /** What is known with further indices, for files from the given number on. */
  function KnownWith(algorithm: HashAlgorithm, known: seq<Known>, file: nat, used: seq<Used>): seq<Known>
    decreases |used|
  {
    if used == [] then known
    else KnownWith(algorithm, known + Added(algorithm, used[0].0, file), file + 1, used[1..])
  }

  function NamesOf(used: seq<Used>): seq<string> {
    seq(|used|, i requires 0 <= i < |used| => used[i].1)
  }

  /** If all indices but the last are matching, adding them panics exactly if the last one lacks hashes.
      Otherwise the database is sound, and knows the blocks of all of them. */
  lemma {:induction false} EachSound(algorithm: HashAlgorithm, db: Db, known: seq<Known>, used: seq<Used>)
    requires Sound(algorithm, db, known, [])
    requires forall i :: 0 <= i < |used| - 1 ==> Matching(algorithm, used[i].0)
    ensures var r := AddEach(algorithm, db, used);
      if used != [] && Lacking(algorithm, used[|used| - 1].0) then r == Panicked
      else
        r.Done? && r.value.files == db.files + NamesOf(used) &&
        Sound(algorithm, r.value, KnownWith(algorithm, known, |db.files|, used), LastSurplus(algorithm, used))
    decreases |used|
  {
    if used != [] {
      var index, added := used[0].0, Added(algorithm, used[0].0, |db.files|);
      AddSound(algorithm, db, known, index, used[0].1);
      if !Lacking(algorithm, index) {
        NoSurplus(algorithm, index);
        if |used| > 1 {
          EachSound(algorithm, AddIndexTo(algorithm, db, index, used[0].1).value, known + added, used[1..]);
        }
        FirstName(used, db.files);
      }
    }
  }

  lemma FirstName(used: seq<Used>, files: seq<string>)
    requires used != []
    ensures files + NamesOf(used) == files + [used[0].1] + NamesOf(used[1..])
  {
  }

  /** Whatever indices are added to a database, it has no more dimensions than hashes. */
  lemma {:induction false} EachNumbered(algorithm: HashAlgorithm, db: Db, used: seq<Used>)
    requires Numbered(algorithm, db) && AddEach(algorithm, db, used).Done?
    ensures Numbered(algorithm, AddEach(algorithm, db, used).value)
    decreases |used|
  {
    if used != [] {
      StaysNumbered(algorithm, db, used[0].0, used[0].1);
      EachNumbered(algorithm, AddIndexTo(algorithm, db, used[0].0, used[0].1).value, used[1..]);
    }
  }

  function LastSurplus(algorithm: HashAlgorithm, used: seq<Used>): seq<byte> {
    if used == [] then [] else Surplus(algorithm, used[|used| - 1].0)
  }

  /** A database after an index with the hashes `a` and `b`, and with one size. */
  ghost predicate OneSurplus(algorithm: HashAlgorithm, a: seq<byte>, b: seq<byte>, db: Db) {
    db.hashes == a + b && |db.dimensions| == |db.files| == 1 && db.table == map[a := (0, 0)]
  }

  lemma OneSize(size: seq<byte>)
    requires |size| == 4
    ensures DecodeSizes(size) == [DecodeU32(size)]
  {
    assert size[..4] == size;
    assert DecodeSizes(size[4..]) == [];
  }

  lemma FirstAdded(algorithm: HashAlgorithm, a: seq<byte>, b: seq<byte>, size: seq<byte>)
    requires |a| == |b| == algorithm.size > 0 && |size| == 4
    ensures var r := AddIndexTo(algorithm, EMPTY, Index(a + b, size), "first");
      r.Done? && OneSurplus(algorithm, a, b, r.value)
  {
    var index := Index(a + b, size);
    OneSize(size);
    assert Sound(algorithm, EMPTY, [], []);
    AddSound(algorithm, EMPTY, [], index, "first");
    AddedExactly(algorithm, EMPTY, index, "first");
    var known := [] + Added(algorithm, index, 0);
    assert known[0].hash == a;
    assert TableOf(known, 1) == map[a := (0, 0)];
  }

  lemma SecondShifted(algorithm: HashAlgorithm, a: seq<byte>, b: seq<byte>, c: seq<byte>, size: seq<byte>, db: Db)
    requires |a| == |b| == |c| == algorithm.size > 0 && a != c && |size| == 4 && OneSurplus(algorithm, a, b, db)
    ensures var r := AddIndexTo(algorithm, db, Index(c, size), "second");
      r.Done? && Find(r.value, c).Panicked?
  {
    var index := Index(c, size);
    OneSize(size);
    Quotient(2, algorithm.size);
    assert NextBlock(algorithm, db) == 2 && Leftover(algorithm, db) == [];
    AddedExactly(algorithm, db, index, "second");
    HashReadIs(algorithm, db, index, 0);
    assert [] + c == c;
    assert HashRead(algorithm, db, index, 0) == c;
    assert IsFresh(algorithm, db, index, 0);
    ShiftedBlock(algorithm, db, index, "second", 0);
  }

  /** An index with hashes `a` and `b` and only one size confuses the block of the next file, though its index
      is matching: finding the block panics. */
  lemma ConfusedExample(algorithm: HashAlgorithm, a: seq<byte>, b: seq<byte>, c: seq<byte>, size: seq<byte>)
    requires |a| == |b| == |c| == algorithm.size > 0 && a != c && |size| == 4
    ensures Matching(algorithm, Index(c, size)) && !Lacking(algorithm, Index(a + b, size))
    ensures var r := AddEach(algorithm, EMPTY, [(Index(a + b, size), "first"), (Index(c, size), "second")]);
      r.Done? && Find(r.value, c).Panicked?
  {
    OneSize(size);
    FirstAdded(algorithm, a, b, size);
    var used: seq<Used> := [(Index(a + b, size), "first"), (Index(c, size), "second")];
    var db := AddIndexTo(algorithm, EMPTY, used[0].0, used[0].1).value;
    SecondShifted(algorithm, a, b, c, size, db);
    assert used[1..] == [used[1]];
    assert AddEach(algorithm, db, [used[1]]) == AddIndexTo(algorithm, db, used[1].0, used[1].1);
  }
}
