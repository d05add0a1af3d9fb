/** What is known about the blocks of local files. */
module KnownBlocks {
  import opened Base
  import opened BlockIndexing

  /** A block that can be found: its hash, the number of its file, and where it is in the file. */
  datatype Known = Known(hash: seq<byte>, file: nat, offset: nat, size: nat)

  /** The sum of the first `n` sizes. */
  function Sum(sizes: seq<nat>, n: nat): nat
    requires n <= |sizes|
  {
    if n == 0 then 0 else Sum(sizes, n - 1) + sizes[n - 1]
  }

  function HashesOf(known: seq<Known>): seq<seq<byte>> {
    seq(|known|, i requires 0 <= i < |known| => known[i].hash)
  }

  /** Block `i` is the first with the given hash. */
  ghost predicate IsFirst(known: seq<Known>, hash: seq<byte>, i: nat) {
    i < |known| && known[i].hash == hash && forall j :: 0 <= j < i ==> known[j].hash != hash
  }

  /** An entry of the table is the first occurrence of its hash, with its file. */
  ghost predicate IsEntry(known: seq<Known>, n: nat, hash: seq<byte>, entry: (nat, nat)) {
    entry.0 < n && IsFirst(known, hash, entry.0) && entry.1 == known[entry.0].file
  }

  /** The table has entries for exactly the hashes of the first `n` blocks. */
  ghost predicate TableKnows(table: map<seq<byte>, (nat, nat)>, known: seq<Known>, n: nat) {
    n <= |known| && (forall i :: 0 <= i < n ==> known[i].hash in table) &&
    forall h :: h in table ==> IsEntry(known, n, h, table[h])
  }

  lemma TableStep(table: map<seq<byte>, (nat, nat)>, known: seq<Known>, n: nat)
    requires TableKnows(table, known, n) && n < |known|
    ensures var k := known[n];
      TableKnows(if k.hash in table then table else table[k.hash := (n, k.file)], known, n + 1)
  {
  }

  /** The table after the first `n` blocks were entered, each unless its hash was there already. */
  function TableOf(known: seq<Known>, n: nat): map<seq<byte>, (nat, nat)>
    requires n <= |known|
  {
    if n == 0 then map[]
    else
      var (table, k) := (TableOf(known, n - 1), known[n - 1]);
      if k.hash in table then table else table[k.hash := (n - 1, k.file)]
  }

  lemma {:induction false} TableOfKnows(known: seq<Known>, n: nat)
    requires n <= |known|
    ensures TableKnows(TableOf(known, n), known, n)
  {
    if n > 0 {
      TableOfKnows(known, n - 1);
      TableStep(TableOf(known, n - 1), known, n - 1);
    }
  }

  lemma {:induction false} TableOfExtended(known: seq<Known>, more: seq<Known>, n: nat)
    requires n <= |known|
    ensures TableOf(known + more, n) == TableOf(known, n)
  {
    if n > 0 {
      TableOfExtended(known, more, n - 1);
    }
  }

  /** The dimensions of the first blocks, as many as there are. */
  ghost predicate Dimensions(dimensions: seq<(nat, nat)>, known: seq<Known>) {
    |dimensions| <= |known| && forall i :: 0 <= i < |dimensions| ==> IsDimension(dimensions[i], known[i])
  }

  ghost predicate IsDimension(dimension: (nat, nat), k: Known) {
    dimension == (k.offset, k.size)
  }

  /** Known blocks belong to known files, and their hashes have the right size. */
  ghost predicate Sane(algorithm: HashAlgorithm, known: seq<Known>, files: nat) {
    forall i :: 0 <= i < |known| ==> |known[i].hash| == algorithm.size && known[i].file < files
  }
}
