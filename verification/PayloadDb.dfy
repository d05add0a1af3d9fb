/** The database of blocks that are available locally. */
module PayloadDb {
  import opened Base
  import opened BlockIndexing
  import opened BlockEncoding
  import opened PayloadDecoding
  import opened KnownBlocks
  import opened Format
  import opened IndexFiles
  import opened BlockDb
  import opened SoundBlocks
  import opened Outcomes

  /** A stored index with the names of the algorithms it was made with, and the bytes of its file, unless
      that cannot be opened. */
  datatype StoredIndex = StoredIndex(hashAlgorithm: string, chunker: string, file: Option<seq<byte>>)

  /** A data file and its stored indices. */
  type StoredFile = (seq<StoredIndex>, string)

  /** The algorithms for which a provider finds blocks, with their names. */
  datatype Settings = Settings(registry: Registry, algorithm: HashAlgorithm, hashAlgorithm: string, chunker: string) {
    predicate Wants(index: StoredIndex) {
      index.hashAlgorithm == hashAlgorithm && index.chunker == chunker
    }
  }

  /** The index that is used: the first one made with the right algorithms, if its file can be opened and
      decoded. Files that are something else are passed over. */
  function Select(s: Settings, indices: seq<StoredIndex>): (i: Result<Option<IndexFile>>)
    ensures i.Ok? && i.value.Some? ==> i.value.value.Index?
  {
    if indices == [] then Ok(None)
    else if !s.Wants(indices[0]) then Select(s, indices[1..])
    else if indices[0].file == None then Err
    else
      match Load(s.registry, indices[0].file.value)
      case NotAnIndex => Select(s, indices[1..])
      case Undecodable => Err
      case Index(hashes, sizes) => Ok(Some(Index(hashes, sizes)))
  }

  /** The file of a stored index can be opened, but is something else. */
  predicate SomethingElse(s: Settings, index: StoredIndex) {
    index.file.Some? && Load(s.registry, index.file.value) == NotAnIndex
  }

  /** The index was made with the wanted algorithms. */
  predicate IsWanted(s: Settings, index: StoredIndex) {
    index.hashAlgorithm == s.hashAlgorithm && index.chunker == s.chunker
  }

  /** None of the first `n` stored indices is used: each was made with other algorithms or is something
      else. */
  ghost predicate PassedOver(s: Settings, indices: seq<StoredIndex>, n: nat)
    requires n <= |indices|
  {
    forall i :: 0 <= i < n && IsWanted(s, indices[i]) ==> SomethingElse(s, indices[i])
  }

  /** Stored index `k` decides: it was made with the wanted algorithms, and those before are passed over. */
  ghost predicate Decides(s: Settings, indices: seq<StoredIndex>, k: nat) {
    k < |indices| && IsWanted(s, indices[k]) && !SomethingElse(s, indices[k]) && PassedOver(s, indices, k)
  }

  ghost predicate LoadsAs(s: Settings, index: StoredIndex, file: IndexFile) {
    index.file.Some? && file.Index? && Load(s.registry, index.file.value) == file
  }

  /** What is selected, by position: nothing exactly if all stored indices are passed over; and otherwise the
      first one that is not, which is used exactly if it loads, and an error exactly if it does not. */
  lemma {:induction false} SelectedExactly(s: Settings, indices: seq<StoredIndex>)
    ensures Select(s, indices) == Ok(None) <==> PassedOver(s, indices, |indices|)
    ensures forall file :: Select(s, indices) == Ok(Some(file)) <==>
      exists k: nat :: Decides(s, indices, k) && LoadsAs(s, indices[k], file)
    ensures Select(s, indices) == Err <==>
      exists k: nat :: Decides(s, indices, k) && forall file :: !LoadsAs(s, indices[k], file)
    decreases |indices|
  {
    if indices != [] {
      if IsWanted(s, indices[0]) && !SomethingElse(s, indices[0]) {
        assert Decides(s, indices, 0);
        assert forall k: nat :: Decides(s, indices, k) ==> k == 0;
      } else {
        SelectedExactly(s, indices[1..]);
        assert PassedOver(s, indices, |indices|) <==> PassedOver(s, indices[1..], |indices| - 1);
        DecidesLater(s, indices);
      }
    }
  }

  lemma DecidesLater(s: Settings, indices: seq<StoredIndex>)
    requires indices != [] && (IsWanted(s, indices[0]) ==> SomethingElse(s, indices[0]))
    ensures !Decides(s, indices, 0)
    ensures forall k: nat :: Decides(s, indices[1..], k) <==> Decides(s, indices, k + 1)
    ensures forall k: nat :: Decides(s, indices, k) ==> 0 < k && Decides(s, indices[1..], k - 1)
  {
    assert forall i :: 0 <= i < |indices| - 1 ==> indices[1..][i] == indices[i + 1];
  }

  /** Make the blocks of a data file known from its stored indices. Without a suitable index, nothing
      changes. */
  function AddTo(s: Settings, db: Db, indices: seq<StoredIndex>, dataFile: string): Outcome<Db>
    requires 0 < s.algorithm.size
  {
    match Select(s, indices)
    case Err => Failed
    case Ok(None) => Done(db)
    case Ok(Some(index)) => AddIndexTo(s.algorithm, db, index, dataFile)
  }

  /** Make the blocks of several files known, and pass over those whose index cannot be decoded. */
  function AddAllTo(s: Settings, db: Db, stored: seq<StoredFile>): Outcome<Db>
    requires 0 < s.algorithm.size
    decreases |stored|
  {
    if stored == [] then Done(db)
    else
      match AddTo(s, db, stored[0].0, stored[0].1)
      case Panicked => Panicked
      case Failed => AddAllTo(s, db, stored[1..])
      case Done(next) => AddAllTo(s, next, stored[1..])
  }

  class BlockProvider {
    const settings: Settings
    /** From a hash to the number of its first block, and the number of the file. */
    var table: Table
    var hashes: seq<byte>
    var dimensions: seq<(nat, nat)>
    var files: seq<string>

    ghost function State(): Db
      reads this
    {
      Db(table, hashes, dimensions, files)
    }

    constructor (settings: Settings)
      ensures this.settings == settings && State() == EMPTY
    {
      this.settings, table, hashes, dimensions, files := settings, map[], [], [], [];
    }

    /** Enter a block into the table, unless its hash is there already. The program panics if the block has
        no hash. */
    method Enter(block: nat, file: nat, offset: nat, size: nat) returns (ok: bool)
      modifies this`table, this`dimensions
      ensures var r := EnterBlock(settings.algorithm, old(State()), block, file, offset, size);
        if ok then r == Done(State()) else r == Panicked
    {
      dimensions := dimensions + [(offset, size)];
      if (block + 1) * settings.algorithm.size > |hashes| {
        return false;
      }
      var hash := HashAt(settings.algorithm, hashes, block);
      if hash !in table {
        table := table[hash := (block, file)];
      }
      return true;
    }

    /** Make the blocks of a data file known from its stored indices. Only the first suitable index is
        used. */
    method AddIndices(indices: seq<StoredIndex>, dataFile: string) returns (r: Outcome<()>)
      requires 0 < settings.algorithm.size
      modifies this
      ensures match AddTo(settings, old(State()), indices, dataFile)
        case Done(next) => r == Done(()) && State() == next
        case Failed => r == Failed && State() == old(State())
        case Panicked => r == Panicked
    {
      var rest := indices;
      while rest != []
        invariant State() == old(State()) && Select(settings, indices) == Select(settings, rest)
        decreases |rest|
      {
        var index := rest[0];
        if !settings.Wants(index) {
          rest := rest[1..];
        } else if index.file == None {
          return Failed;
        } else {
          var file := LoadIndexFile(settings.registry, index.file.value);
          match file {
            case NotAnIndex => rest := rest[1..];
            case Undecodable => return Failed;
            case Index(_, _) =>
              r := AddIndex(file, dataFile);
              return r;
          }
        }
      }
      return Done(());
    }

    method AddIndex(index: IndexFile, dataFile: string) returns (r: Outcome<()>)
      requires 0 < settings.algorithm.size && index.Index?
      modifies this
      ensures match AddIndexTo(settings.algorithm, old(State()), index, dataFile)
        case Done(next) => r == Done(()) && State() == next
        case Failed => false
        case Panicked => r == Panicked
    {
      var file, first, sizes := |files|, |hashes| / settings.algorithm.size, DecodeSizes(index.sizes);
      files := files + [dataFile];
      hashes := hashes + index.hashes;
      ghost var start := State();
      var offset := 0;
      for i := 0 to |sizes|
        invariant offset == Sum(sizes, i)
        invariant EnterBlocks(settings.algorithm, start, first, file, sizes, i) == Done(State())
      {
        var ok := Enter(first + i, file, offset, sizes[i]);
        offset := offset + sizes[i];
        if !ok {
          PanicStays(settings.algorithm, start, first, file, sizes, i + 1, |sizes|);
          return Panicked;
        }
      }
      return Done(());
    }

    /** Find a stored block. */
    method Query(hash: seq<byte>) returns (r: Outcome<Option<(string, nat, nat)>>)
      ensures r == Find(State(), hash)
    {
      if hash in table {
        var (block, file) := table[hash];
        if file >= |files| || block >= |dimensions| {
          // The access is out of bounds.
          return Panicked;
        }
        return Done(Some((files[file], dimensions[block].0, dimensions[block].1)));
      }
      return Done(None);
    }

    /** Make the blocks of several files known. An index that cannot be decoded is passed over. */
    method AddFiles(stored: seq<StoredFile>) returns (r: Outcome<()>)
      requires 0 < settings.algorithm.size
      modifies this
      ensures match AddAllTo(settings, old(State()), stored)
        case Done(next) => r == Done(()) && State() == next
        case Failed => false
        case Panicked => r == Panicked
    {
      for i := 0 to |stored|
        invariant AddAllTo(settings, old(State()), stored) == AddAllTo(settings, State(), stored[i..])
      {
        assert stored[i..][1..] == stored[i + 1..];
        var added := AddIndices(stored[i].0, stored[i].1);
        if added.Panicked? {
          return Panicked;
        }
      }
      return Done(());
    }
  }

  lemma {:induction false} PanicStays(algorithm: HashAlgorithm, db: Db, first: nat, file: nat, sizes: seq<nat>, n: nat,
                                      m: nat)
    requires n <= m <= |sizes| && EnterBlocks(algorithm, db, first, file, sizes, n) == Panicked
    ensures EnterBlocks(algorithm, db, first, file, sizes, m) == Panicked
  {
    if n < m {
      PanicStays(algorithm, db, first, file, sizes, n, m - 1);
    }
  }

  /** The indices that are used, with their data files. */
  function UsedOf(s: Settings, stored: seq<StoredFile>): seq<Used> {
    if stored == [] then []
    else
      var index, rest := Select(s, stored[0].0), UsedOf(s, stored[1..]);
      if index.Ok? && index.value.Some? then [(index.value.value, stored[0].1)] + rest else rest
  }

  /** Adding files is adding the indices that are used, one after the other. */
  lemma {:induction false} AddAllIsEach(s: Settings, db: Db, stored: seq<StoredFile>)
    requires 0 < s.algorithm.size
    ensures AddAllTo(s, db, stored) == AddEach(s.algorithm, db, UsedOf(s, stored))
    decreases |stored|
  {
    if stored != [] {
      var index, rest := Select(s, stored[0].0), UsedOf(s, stored[1..]);
      if index.Ok? && index.value.Some? {
        assert UsedOf(s, stored)[1..] == rest;
        AddedExactly(s.algorithm, db, index.value.value, stored[0].1);
      }
      var next := AddTo(s, db, stored[0].0, stored[0].1);
      if !next.Panicked? {
        AddAllIsEach(s, if next.Done? then next.value else db, stored[1..]);
      }
    }
  }

  /** The index is that of the blocks of the file as it is now. */
  ghost predicate IsCurrent(algorithm: HashAlgorithm, index: IndexFile, contents: seq<byte>) {
    exists blocks: seq<seq<byte>> ::
      AllU32(Sizes(blocks)) && Flatten(blocks) == contents && index == IndexFileFor(algorithm, blocks)
  }

  /** The file is unchanged since it was indexed with the wanted algorithms. */
  ghost predicate UpToDate(s: Settings, indices: seq<StoredIndex>, contents: seq<byte>) {
    forall i :: i in indices && IsWanted(s, i) && i.file.Some? && Load(s.registry, i.file.value).Index? ==>
      IsCurrent(s.algorithm, Load(s.registry, i.file.value), contents)
  }

  lemma {:induction false} SelectedUpToDate(s: Settings, indices: seq<StoredIndex>, contents: seq<byte>)
    requires UpToDate(s, indices, contents)
    ensures var index := Select(s, indices);
      index.Ok? && index.value.Some? ==> IsCurrent(s.algorithm, index.value.value, contents)
    decreases |indices|
  {
    if indices != [] {
      assert indices[0] in indices;
      assert forall i :: i in indices[1..] ==> i in indices;
      SelectedUpToDate(s, indices[1..], contents);
    }
  }

  ghost predicate AllUpToDate(s: Settings, stored: seq<StoredFile>, contents: string -> seq<byte>) {
    forall f :: f in stored ==> UpToDate(s, f.0, contents(f.1))
  }

  ghost predicate AllCurrent(algorithm: HashAlgorithm, used: seq<Used>, contents: string -> seq<byte>) {
    forall i :: 0 <= i < |used| ==> IsCurrent(algorithm, used[i].0, contents(used[i].1))
  }

  lemma {:induction false} UsedCurrent(s: Settings, stored: seq<StoredFile>, contents: string -> seq<byte>)
    requires AllUpToDate(s, stored, contents)
    ensures AllCurrent(s.algorithm, UsedOf(s, stored), contents)
    decreases |stored|
  {
    if stored != [] {
      assert stored[0] in stored && forall f :: f in stored[1..] ==> f in stored;
      SelectedUpToDate(s, stored[0].0, contents(stored[0].1));
      UsedCurrent(s, stored[1..], contents);
    }
  }

  lemma CurrentTruthful(algorithm: HashAlgorithm, index: IndexFile, known: seq<Known>, files: seq<string>,
                        dataFile: string, contents: string -> seq<byte>)
    requires algorithm.Valid() && index.Index? && IsCurrent(algorithm, index, contents(dataFile))
    requires Truthful(algorithm, known, ContentsOf(files, contents))
    ensures Matching(algorithm, index)
    ensures Truthful(algorithm, known + Added(algorithm, index, |files|), ContentsOf(files + [dataFile], contents))
  {
    var blocks: seq<seq<byte>> :|
      AllU32(Sizes(blocks)) && Flatten(blocks) == contents(dataFile) && index == IndexFileFor(algorithm, blocks);
    IndexedFileTruthful(algorithm, blocks, known, ContentsOf(files, contents));
    assert ContentsOf(files + [dataFile], contents) == ContentsOf(files, contents) + [contents(dataFile)];
  }

  lemma {:induction false} UsedTruthful(algorithm: HashAlgorithm, known: seq<Known>, files: seq<string>,
                                        used: seq<Used>, contents: string -> seq<byte>)
    requires algorithm.Valid() && AllCurrent(algorithm, used, contents)
    requires Truthful(algorithm, known, ContentsOf(files, contents))
    ensures forall i :: 0 <= i < |used| ==> Matching(algorithm, used[i].0)
    ensures Truthful(algorithm, KnownWith(algorithm, known, |files|, used), ContentsOf(files + NamesOf(used), contents))
    decreases |used|
  {
    if used == [] {
      assert files + NamesOf(used) == files;
    } else {
      var added := Added(algorithm, used[0].0, |files|);
      CurrentTruthful(algorithm, used[0].0, known, files, used[0].1, contents);
      UsedTruthful(algorithm, known + added, files + [used[0].1], used[1..], contents);
      assert files + NamesOf(used) == files + [used[0].1] + NamesOf(used[1..]);
    }
  }

  /** A database that can be relied on: it is sound, and what is known is true of the contents of the
      files. */
  ghost predicate Reliable(algorithm: HashAlgorithm, db: Db, known: seq<Known>, contents: string -> seq<byte>) {
    Sound(algorithm, db, known, []) && Truthful(algorithm, known, ContentsOf(db.files, contents))
  }

  /** If the indices made with the wanted algorithms are up to date, adding files does not panic. Then the
      blocks of every index that is used are known, and can be relied on. */
  lemma UpToDateReliable(s: Settings, db: Db, known: seq<Known>, stored: seq<StoredFile>, contents: string -> seq<byte>)
    requires s.algorithm.Valid() && Reliable(s.algorithm, db, known, contents)
    requires AllUpToDate(s, stored, contents)
    ensures var r, all := AddAllTo(s, db, stored), KnownWith(s.algorithm, known, |db.files|, UsedOf(s, stored));
      r.Done? && Reliable(s.algorithm, r.value, all, contents)
  {
    var used := UsedOf(s, stored);
    AddAllIsEach(s, db, stored);
    UsedCurrent(s, stored, contents);
    UsedTruthful(s.algorithm, known, db.files, used, contents);
    EachSound(s.algorithm, db, known, used);
    if used != [] {
      NoSurplus(s.algorithm, used[|used| - 1].0);
    }
  }

  /** The index has a block with the hash. */
  ghost predicate Lists(algorithm: HashAlgorithm, index: IndexFile, hash: seq<byte>, i: nat)
    requires index.Index?
  {
    i < |SizesOf(index)| && HashAt(algorithm, index.hashes, i) == hash
  }

  /** A hash is known exactly if it was known before, or an index that is used lists it. */
  lemma {:induction false} KnownExactly(algorithm: HashAlgorithm, known: seq<Known>, file: nat, used: seq<Used>,
                                        hash: seq<byte>)
    ensures Knows(KnownWith(algorithm, known, file, used), hash) <==>
      Knows(known, hash) || exists u: Used, i: nat :: u in used && Lists(algorithm, u.0, hash, i)
    decreases |used|
  {
    if used != [] {
      var added := Added(algorithm, used[0].0, file);
      KnownExactly(algorithm, known + added, file + 1, used[1..], hash);
      KnowsAdded(algorithm, known, used[0].0, file, hash);
      assert forall u :: u in used <==> u == used[0] || u in used[1..];
    }
  }

  ghost predicate Knows(known: seq<Known>, hash: seq<byte>) {
    exists k :: k in known && k.hash == hash
  }

  lemma KnowsAdded(algorithm: HashAlgorithm, known: seq<Known>, index: IndexFile, file: nat, hash: seq<byte>)
    requires index.Index?
    ensures Knows(known + Added(algorithm, index, file), hash) <==>
      Knows(known, hash) || exists i: nat :: Lists(algorithm, index, hash, i)
  {
    var added := Added(algorithm, index, file);
    if i: nat :| Lists(algorithm, index, hash, i) {
      assert added[i].hash == hash && added[i] in known + added;
    }
    if Knows(known, hash) {
      var k :| k in known && k.hash == hash;
      assert k in known + added;
    }
    if Knows(known + added, hash) {
      var k :| k in known + added && k.hash == hash;
      if k !in known {
        var i :| 0 <= i < |added| && added[i] == k;
        assert Lists(algorithm, index, hash, i);
      }
    }
  }

  /** The index is the one that is used for the file. */
  ghost predicate UsesIndex(s: Settings, file: StoredFile, index: IndexFile) {
    exists k: nat :: Decides(s, file.0, k) && LoadsAs(s, file.0[k], index)
  }

  /** The used indices are exactly those that decide for one of the files. */
  lemma {:induction false} UsedExactly(s: Settings, stored: seq<StoredFile>, u: Used)
    ensures u in UsedOf(s, stored) <==> exists f :: f in stored && f.1 == u.1 && UsesIndex(s, f, u.0)
    decreases |stored|
  {
    if stored != [] {
      SelectedExactly(s, stored[0].0);
      UsedExactly(s, stored[1..], u);
      assert UsesIndex(s, stored[0], u.0) <==> Select(s, stored[0].0) == Ok(Some(u.0));
      assert forall f :: f in stored <==> f == stored[0] || f in stored[1..];
    }
  }

  /** The index that is used for the file lists a block with the hash. */
  ghost predicate HasBlock(s: Settings, file: StoredFile, hash: seq<byte>) {
    exists index: IndexFile, i: nat :: UsesIndex(s, file, index) && index.Index? && Lists(s.algorithm, index, hash, i)
  }

  lemma UsedHasBlock(s: Settings, stored: seq<StoredFile>, hash: seq<byte>)
    ensures (exists u: Used, i: nat :: u in UsedOf(s, stored) && Lists(s.algorithm, u.0, hash, i))
        <==> (exists f :: f in stored && HasBlock(s, f, hash))
  {
    if u: Used, i: nat :| u in UsedOf(s, stored) && Lists(s.algorithm, u.0, hash, i) {
      UsedExactly(s, stored, u);
      var f :| f in stored && f.1 == u.1 && UsesIndex(s, f, u.0);
      assert HasBlock(s, f, hash);
    }
    if f :| f in stored && HasBlock(s, f, hash) {
      var index: IndexFile, i: nat :| UsesIndex(s, f, index) && index.Index? && Lists(s.algorithm, index, hash, i);
      var u: Used := (index, f.1);
      UsedExactly(s, stored, u);
      assert u in UsedOf(s, stored) && Lists(s.algorithm, u.0, hash, i);
    }
  }

  /** After files with up-to-date indices have been added to an empty database, a block is found exactly if
      the first wanted index of a file loads and lists its hash; and what is found has the hash. */
  lemma FoundExactly(s: Settings, stored: seq<StoredFile>, contents: string -> seq<byte>, hash: seq<byte>)
    requires s.algorithm.Valid() && AllUpToDate(s, stored, contents)
    ensures var r := AddAllTo(s, EMPTY, stored);
      r.Done? && match Find(r.value, hash)
      case Done(None) => forall f :: f in stored ==> !HasBlock(s, f, hash)
      case Done(Some(found)) =>
        IsRight(s.algorithm, r.value.files, contents, found, hash) && exists f :: f in stored && HasBlock(s, f, hash)
      case _ => false
  {
    UpToDateReliable(s, EMPTY, [], stored, contents);
    UsedHasBlock(s, stored, hash);
    var db, known := AddAllTo(s, EMPTY, stored).value, KnownWith(s.algorithm, [], 0, UsedOf(s, stored));
    FindSound(s.algorithm, db, known, [], hash);
    KnownExactly(s.algorithm, [], 0, UsedOf(s, stored), hash);
    var found := Find(db, hash).value;
    if found.Some? {
      var i: nat :| IsFound(db.files, known, hash, found.value, i);
      FoundIsRight(s.algorithm, db.files, known, contents, hash, found.value, i);
      assert known[i] in known;
    }
  }
}
