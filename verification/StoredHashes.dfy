/** Hashes stored back to back. */
module StoredHashes {
  import opened Base
  import opened BlockIndexing

  lemma {:induction false} FlattenedSize(algorithm: HashAlgorithm, hashes: seq<seq<byte>>)
    requires forall k :: 0 <= k < |hashes| ==> |hashes[k]| == algorithm.size
    ensures |Flatten(hashes)| == |hashes| * algorithm.size
    decreases |hashes|
  {
    if hashes != [] {
      FlattenedSize(algorithm, hashes[1..]);
      Times(|hashes| - 1, algorithm.size);
    }
  }

  lemma Positive(n: nat, size: nat)
    ensures 0 <= n * size
  {
  }

  lemma Quotient(n: nat, size: nat)
    requires 0 < size
    ensures n * size / size == n
  {
    QuotientIs(n * size, n, n * size / size, n * size % size, size);
  }

  lemma QuotientIs(total: nat, n: nat, d: nat, rest: nat, size: nat)
    requires total == n * size && total == d * size + rest && rest < size
    ensures d == n
  {
    Times(d, size);
    Times(n, size);
    if d < n {
      Increasing(d + 1, n, size);
    } else if n < d {
      Increasing(n + 1, d, size);
    }
  }

  lemma Distribute(a: nat, b: nat, size: nat)
    ensures (a + b) * size == a * size + b * size && 0 <= a * size
  {
  }

  lemma Increasing(a: nat, b: nat, size: nat)
    requires a <= b
    ensures a * size <= b * size
  {
  }
}
