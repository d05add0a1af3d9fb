/** The blocks of local files as they are stored: hashes and dimensions side by side, and a table of blocks
    by hash. Whether the two fit together depends on the indices they come from. */
module BlockDb {
  import opened Base
  import opened Outcomes
  import opened BlockIndexing
  import opened PayloadDecoding
  import opened KnownBlocks
  import opened StoredHashes
  import opened IndexFiles

  /** The table leads from a hash to the number of its first block, and to the number of the file. Hashes
      are stored back to back; dimensions are offsets and sizes. */
  datatype Db = Db(table: Table, hashes: seq<byte>, dimensions: seq<(nat, nat)>, files: seq<string>)

  type Table = map<seq<byte>, (nat, nat)>

  const EMPTY: Db := Db(map[], [], [], [])

  function SizesOf(index: IndexFile): seq<nat>
    requires index.Index?
  {
    DecodeSizes(index.sizes)
  }

  /** An index has exactly one hash for every size; those the program writes do. */
  predicate Matching(algorithm: HashAlgorithm, index: IndexFile)
    requires index.Index?
  {
    |index.hashes| == |SizesOf(index)| * algorithm.size
  }

  /** An index has fewer hashes than sizes. */
  predicate Lacking(algorithm: HashAlgorithm, index: IndexFile)
    requires index.Index?
  {
    |index.hashes| < |SizesOf(index)| * algorithm.size
  }

  /** Enter a hash into the table, unless it is there already. */
  function WithEntry(table: Table, hash: seq<byte>, entry: (nat, nat)): Table {
    if hash in table then table else table[hash := entry]
  }

  /** Add the dimensions of a block, and enter it into the table unless its hash is there already. The
      program panics if the block has no hash. */
  function EnterBlock(algorithm: HashAlgorithm, db: Db, block: nat, file: nat, offset: nat, size: nat): Outcome<Db> {
    if (block + 1) * algorithm.size > |db.hashes| then Panicked
    else
      var table := WithEntry(db.table, HashAt(algorithm, db.hashes, block), (block, file));
      Done(Db(table, db.hashes, db.dimensions + [(offset, size)], db.files))
  }

  /** Enter the first `n` blocks of a file. */
  function EnterBlocks(algorithm: HashAlgorithm, db: Db, first: nat, file: nat, sizes: seq<nat>, n: nat): Outcome<Db>
    requires n <= |sizes|
  {
    if n == 0 then Done(db)
    else
      var before :- EnterBlocks(algorithm, db, first, file, sizes, n - 1);
      EnterBlock(algorithm, before, first + n - 1, file, Sum(sizes, n - 1), sizes[n - 1])
  }

  /** The number of the next block, as it is found from the hashes. */
  function NextBlock(algorithm: HashAlgorithm, db: Db): nat
    requires 0 < algorithm.size
  {
    |db.hashes| / algorithm.size
  }

  /** A database with a new file and the hashes of its blocks. */
  function WithFile(db: Db, hashes: seq<byte>, dataFile: string): Db {
    db.(hashes := db.hashes + hashes, files := db.files + [dataFile])
  }

  /** Make the blocks of a data file known from its index. */
  function AddIndexTo(algorithm: HashAlgorithm, db: Db, index: IndexFile, dataFile: string): Outcome<Db>
    requires 0 < algorithm.size && index.Index?
  {
    EnterBlocks(algorithm, WithFile(db, index.hashes, dataFile), NextBlock(algorithm, db), |db.files|, SizesOf(index),
                |SizesOf(index)|)
  }

  /** Find a block by its hash: its file, offset, and size. */
  function Find(db: Db, hash: seq<byte>): Outcome<Option<(string, nat, nat)>> {
    if hash !in db.table then Done(None)
    else
      var (block, file) := db.table[hash];
      if block >= |db.dimensions| || file >= |db.files| then Panicked
      else Done(Some((db.files[file], db.dimensions[block].0, db.dimensions[block].1)))
  }

  /** The dimensions of the first `n` blocks of a file. */
  function Ranges(sizes: seq<nat>, n: nat): seq<(nat, nat)>
    requires n <= |sizes|
  {
    seq(n, i requires 0 <= i < n => (Sum(sizes, i), sizes[i]))
  }

  lemma RangesPush(sizes: seq<nat>, n: nat)
    requires n < |sizes|
    ensures Ranges(sizes, n + 1) == Ranges(sizes, n) + [(Sum(sizes, n), sizes[n])]
  {
  }

  /** Blocks have been entered exactly if all of them have hashes. */
  lemma {:induction false} EnteredExactly(algorithm: HashAlgorithm, db: Db, first: nat, file: nat, sizes: seq<nat>,
                                          n: nat)
    requires n <= |sizes| && first * algorithm.size <= |db.hashes|
    ensures var r := EnterBlocks(algorithm, db, first, file, sizes, n);
      if (first + n) * algorithm.size > |db.hashes| then r == Panicked
      else r.Done? && r.value == db.(table := r.value.table, dimensions := db.dimensions + Ranges(sizes, n))
  {
    if n > 0 {
      EnteredExactly(algorithm, db, first, file, sizes, n - 1);
      Increasing(first + n - 1, first + n, algorithm.size);
      RangesPush(sizes, n - 1);
    }
  }

  function BlockHash(algorithm: HashAlgorithm, hashes: seq<byte>, first: nat, i: nat): seq<byte> {
    HashAt(algorithm, hashes, first + i)
  }

  /** Block `i` of those from `first` on is the first one with its hash. */
  ghost predicate IsNew(algorithm: HashAlgorithm, before: Table, hashes: seq<byte>, first: nat, i: nat) {
    BlockHash(algorithm, hashes, first, i) !in before &&
    forall j: nat :: j < i ==> BlockHash(algorithm, hashes, first, j) != BlockHash(algorithm, hashes, first, i)
  }

  /** The hash is that of new block `i`. */
  ghost predicate IsHashOf(algorithm: HashAlgorithm, before: Table, hashes: seq<byte>, first: nat, hash: seq<byte>,
                           i: nat) {
    IsNew(algorithm, before, hashes, first, i) && hash == BlockHash(algorithm, hashes, first, i)
  }

  /** A hash in the table was there before, or is that of a new block. */
  ghost predicate Explained(algorithm: HashAlgorithm, before: Table, hashes: seq<byte>, first: nat, file: nat, n: nat,
                            hash: seq<byte>, entry: (nat, nat)) {
    if hash in before then entry == before[hash]
    else exists i: nat :: i < n && IsHashOf(algorithm, before, hashes, first, hash, i) && entry == (first + i, file)
  }

  /** The table after `n` blocks have been entered. */
  ghost predicate Entered(algorithm: HashAlgorithm, before: Table, hashes: seq<byte>, first: nat, file: nat, n: nat,
                          table: Table) {
    (forall h :: h in before ==> h in table) &&
    (forall i: nat :: i < n ==> BlockHash(algorithm, hashes, first, i) in table) &&
    forall h :: h in table ==> Explained(algorithm, before, hashes, first, file, n, h, table[h])
  }

  lemma EnteredPush(algorithm: HashAlgorithm, before: Table, hashes: seq<byte>, first: nat, file: nat, n: nat,
                    table: Table)
    requires Entered(algorithm, before, hashes, first, file, n, table)
    ensures var next := WithEntry(table, BlockHash(algorithm, hashes, first, n), (first + n, file));
      Entered(algorithm, before, hashes, first, file, n + 1, next)
  {
    var hash := BlockHash(algorithm, hashes, first, n);
    if hash !in table {
      assert IsHashOf(algorithm, before, hashes, first, hash, n);
    }
    var next := WithEntry(table, hash, (first + n, file));
    forall h | h in next
      ensures Explained(algorithm, before, hashes, first, file, n + 1, h, next[h])
    {
      assert h in table ==> Explained(algorithm, before, hashes, first, file, n, h, table[h]);
    }
  }

  lemma {:induction false} EnteredTable(algorithm: HashAlgorithm, db: Db, first: nat, file: nat, sizes: seq<nat>,
                                        n: nat)
    requires n <= |sizes| && EnterBlocks(algorithm, db, first, file, sizes, n).Done?
    ensures var next := EnterBlocks(algorithm, db, first, file, sizes, n).value;
      next.hashes == db.hashes && Entered(algorithm, db.table, db.hashes, first, file, n, next.table)
  {
    if n > 0 {
      EnteredTable(algorithm, db, first, file, sizes, n - 1);
      var before := EnterBlocks(algorithm, db, first, file, sizes, n - 1).value;
      EnteredPush(algorithm, db.table, db.hashes, first, file, n - 1, before.table);
    }
  }

  /** The hashes that are left over behind the last whole hash. */
  function Leftover(algorithm: HashAlgorithm, db: Db): seq<byte>
    requires 0 < algorithm.size
  {
    Slice(db.hashes, NextBlock(algorithm, db) * algorithm.size, |db.hashes|)
  }

  lemma NextBlockFits(algorithm: HashAlgorithm, db: Db)
    requires 0 < algorithm.size
    ensures NextBlock(algorithm, db) * algorithm.size + |Leftover(algorithm, db)| == |db.hashes|
    ensures |Leftover(algorithm, db)| < algorithm.size
  {
    var n, size := |db.hashes|, algorithm.size;
    assert n == n / size * size + n % size;
    Positive(n / size, size);
  }

  /** Adding an index panics exactly if it has too few hashes for its sizes, together with a part of a hash
      that earlier indices have left over. Otherwise the dimensions of all its blocks are added. */
  lemma AddedExactly(algorithm: HashAlgorithm, db: Db, index: IndexFile, dataFile: string)
    requires 0 < algorithm.size && index.Index?
    ensures var r, sizes := AddIndexTo(algorithm, db, index, dataFile), SizesOf(index);
      if |Leftover(algorithm, db)| + |index.hashes| < |sizes| * algorithm.size then r == Panicked
      else
        r.Done? && r.value.hashes == db.hashes + index.hashes && r.value.files == db.files + [dataFile] &&
        r.value.dimensions == db.dimensions + Ranges(sizes, |sizes|)
  {
    var first, sizes := NextBlock(algorithm, db), SizesOf(index);
    NextBlockFits(algorithm, db);
    Distribute(first, |sizes|, algorithm.size);
    EnteredExactly(algorithm, WithFile(db, index.hashes, dataFile), first, |db.files|, sizes, |sizes|);
  }

  /** How many whole hashes without sizes earlier indices have left. */
  function Shift(algorithm: HashAlgorithm, db: Db): int
    requires 0 < algorithm.size
  {
    NextBlock(algorithm, db) - |db.dimensions|
  }

  /** No more dimensions than hashes, and entries only for files there are. */
  ghost predicate Numbered(algorithm: HashAlgorithm, db: Db) {
    0 < algorithm.size && 0 <= Shift(algorithm, db) &&
    forall h :: h in db.table ==> db.table[h].1 < |db.files|
  }

  /** The hash that block `k` of an index is entered with. */
  function HashRead(algorithm: HashAlgorithm, db: Db, index: IndexFile, k: nat): seq<byte>
    requires 0 < algorithm.size && index.Index?
  {
    BlockHash(algorithm, db.hashes + index.hashes, NextBlock(algorithm, db), k)
  }

  /** Block `k` of an index is the first one that is entered with its hash. */
  ghost predicate IsFresh(algorithm: HashAlgorithm, db: Db, index: IndexFile, k: nat)
    requires 0 < algorithm.size && index.Index?
  {
    k < |SizesOf(index)| && IsNew(algorithm, db.table, db.hashes + index.hashes, NextBlock(algorithm, db), k)
  }

  /** Without a part of a hash left over, hashes are read as they are in the index; otherwise each begins
      with the part that is left over. */
  lemma HashReadIs(algorithm: HashAlgorithm, db: Db, index: IndexFile, k: nat)
    requires 0 < algorithm.size && index.Index?
    ensures HashRead(algorithm, db, index, k) == HashAt(algorithm, Leftover(algorithm, db) + index.hashes, k)
  {
    var first, size := NextBlock(algorithm, db), algorithm.size;
    NextBlockFits(algorithm, db);
    Distribute(k, first, size);
    Distribute(k + 1, first, size);
    SliceShift(db.hashes + index.hashes, first * size, k * size, (k + 1) * size);
    assert (db.hashes + index.hashes)[first * size..] == Leftover(algorithm, db) + index.hashes;
  }

  /** What is found for block `i` of an index. */
  function FoundAt(dataFile: string, sizes: seq<nat>, i: nat): Outcome<Option<(string, nat, nat)>> {
    if i < |sizes| then Done(Some((dataFile, Sum(sizes, i), sizes[i]))) else Panicked
  }

  /** What adding an index does. */
  ghost predicate Adds(algorithm: HashAlgorithm, db: Db, index: IndexFile, dataFile: string, next: Db)
    requires 0 < algorithm.size && index.Index?
  {
    var first, sizes := NextBlock(algorithm, db), SizesOf(index);
    next.dimensions == db.dimensions + Ranges(sizes, |sizes|) && next.files == db.files + [dataFile] &&
    next.hashes == db.hashes + index.hashes &&
    Entered(algorithm, db.table, next.hashes, first, |db.files|, |sizes|, next.table)
  }

  lemma AddsThis(algorithm: HashAlgorithm, db: Db, index: IndexFile, dataFile: string)
    requires 0 < algorithm.size && index.Index? && AddIndexTo(algorithm, db, index, dataFile).Done?
    ensures Adds(algorithm, db, index, dataFile, AddIndexTo(algorithm, db, index, dataFile).value)
  {
    var sizes := SizesOf(index);
    AddedExactly(algorithm, db, index, dataFile);
    EnteredTable(algorithm, WithFile(db, index.hashes, dataFile), NextBlock(algorithm, db), |db.files|, sizes, |sizes|);
  }

  /** A new block is found, but with the dimensions of a later block of the index: as many blocks later as
      there are whole hashes without sizes in earlier indices. If there is no such block, finding it
      panics. */
  lemma ShiftedBlock(algorithm: HashAlgorithm, db: Db, index: IndexFile, dataFile: string, k: nat)
    requires Numbered(algorithm, db) && index.Index? && AddIndexTo(algorithm, db, index, dataFile).Done?
    requires IsFresh(algorithm, db, index, k)
    ensures Find(AddIndexTo(algorithm, db, index, dataFile).value, HashRead(algorithm, db, index, k))
         == FoundAt(dataFile, SizesOf(index), k + Shift(algorithm, db))
  {
    AddsThis(algorithm, db, index, dataFile);
    ShiftedEntry(algorithm, db, index, dataFile, AddIndexTo(algorithm, db, index, dataFile).value, k);
  }

  lemma ShiftedEntry(algorithm: HashAlgorithm, db: Db, index: IndexFile, dataFile: string, next: Db, k: nat)
    requires Numbered(algorithm, db) && index.Index? && Adds(algorithm, db, index, dataFile, next)
    requires IsFresh(algorithm, db, index, k)
    ensures Find(next, HashRead(algorithm, db, index, k)) == FoundAt(dataFile, SizesOf(index), k + Shift(algorithm, db))
  {
    var first, n, hash := NextBlock(algorithm, db), |SizesOf(index)|, HashRead(algorithm, db, index, k);
    assert Explained(algorithm, db.table, next.hashes, first, |db.files|, n, hash, next.table[hash]);
    assert next.table[hash] == (first + k, |db.files|);
  }

  /** A query for the hash panics: it did before and there are still too few dimensions, or it is that of a
      new block that is too far behind. */
  ghost predicate WillPanic(algorithm: HashAlgorithm, db: Db, index: IndexFile, hash: seq<byte>)
    requires 0 < algorithm.size && index.Index?
  {
    (hash in db.table && db.table[hash].0 >= |db.dimensions| + |SizesOf(index)|) ||
    exists k: nat :: PanicsAt(algorithm, db, index, hash, k)
  }

  ghost predicate PanicsAt(algorithm: HashAlgorithm, db: Db, index: IndexFile, hash: seq<byte>, k: nat)
    requires 0 < algorithm.size && index.Index?
  {
    IsFresh(algorithm, db, index, k) && hash == HashRead(algorithm, db, index, k) &&
    k + Shift(algorithm, db) >= |SizesOf(index)|
  }

  /** After an index has been added, exactly these queries panic. */
  lemma PanicsExactly(algorithm: HashAlgorithm, db: Db, index: IndexFile, dataFile: string, hash: seq<byte>)
    requires Numbered(algorithm, db) && index.Index? && AddIndexTo(algorithm, db, index, dataFile).Done?
    ensures var next := AddIndexTo(algorithm, db, index, dataFile).value;
      Find(next, hash).Panicked? <==> WillPanic(algorithm, db, index, hash)
  {
    var next := AddIndexTo(algorithm, db, index, dataFile).value;
    AddsThis(algorithm, db, index, dataFile);
    if hash in next.table {
      EntryPanics(algorithm, db, index, dataFile, next, hash);
    } else {
      NoEntry(algorithm, db, index, dataFile, next, hash);
    }
  }

  lemma NoEntry(algorithm: HashAlgorithm, db: Db, index: IndexFile, dataFile: string, next: Db, hash: seq<byte>)
    requires Numbered(algorithm, db) && index.Index? && Adds(algorithm, db, index, dataFile, next)
    requires hash !in next.table
    ensures !WillPanic(algorithm, db, index, hash)
  {
  }

  lemma EntryPanics(algorithm: HashAlgorithm, db: Db, index: IndexFile, dataFile: string, next: Db, hash: seq<byte>)
    requires Numbered(algorithm, db) && index.Index? && Adds(algorithm, db, index, dataFile, next)
    requires hash in next.table
    ensures Find(next, hash).Panicked? <==> WillPanic(algorithm, db, index, hash)
  {
    var first, n, all := NextBlock(algorithm, db), |SizesOf(index)|, db.hashes + index.hashes;
    assert Explained(algorithm, db.table, all, first, |db.files|, n, hash, next.table[hash]);
    if hash !in db.table {
      var k: nat :|
        k < n && IsHashOf(algorithm, db.table, all, first, hash, k) && next.table[hash] == (first + k, |db.files|);
      forall i: nat | PanicsAt(algorithm, db, index, hash, i)
        ensures i == k
      {
        assert BlockHash(algorithm, all, first, i) == hash == BlockHash(algorithm, all, first, k);
      }
      assert PanicsAt(algorithm, db, index, hash, k) <==> k + Shift(algorithm, db) >= n;
    }
  }

  lemma StaysNumbered(algorithm: HashAlgorithm, db: Db, index: IndexFile, dataFile: string)
    requires Numbered(algorithm, db) && index.Index? && AddIndexTo(algorithm, db, index, dataFile).Done?
    ensures Numbered(algorithm, AddIndexTo(algorithm, db, index, dataFile).value)
  {
    var first, n := NextBlock(algorithm, db), |SizesOf(index)|;
    AddedExactly(algorithm, db, index, dataFile);
    AddsThis(algorithm, db, index, dataFile);
    var next := AddIndexTo(algorithm, db, index, dataFile).value;
    forall h | h in next.table
      ensures next.table[h].1 < |next.files|
    {
      assert Explained(algorithm, db.table, next.hashes, first, |db.files|, n, h, next.table[h]);
    }
    NextBlockFits(algorithm, db);
    Distribute(first, n, algorithm.size);
    NextBlockAtLeast(algorithm, next, first + n);
  }

  lemma NextBlockAtLeast(algorithm: HashAlgorithm, db: Db, n: nat)
    requires 0 < algorithm.size && n * algorithm.size <= |db.hashes|
    ensures n <= NextBlock(algorithm, db)
  {
    NextBlockFits(algorithm, db);
    if NextBlock(algorithm, db) < n {
      Times(NextBlock(algorithm, db), algorithm.size);
      Increasing(NextBlock(algorithm, db) + 1, n, algorithm.size);
    }
  }
}
