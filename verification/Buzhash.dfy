/** The rolling hash of the Casync-compatible chunker: a Buzhash over 48 bytes. */
module Buzhash {
  import opened Base

  const WINDOW_SIZE: nat := 48

  /** A 32-bit word, least significant bit first. */
  type Word = w: seq<bool> | |w| == 32 witness seq(32, i => false)

  const ZERO: Word := seq(32, i => false)

  function Xor(a: Word, b: Word): Word {
    seq(32, i requires 0 <= i < 32 => a[i] != b[i])
  }

  /** Rotate left by `offset % 32`. */
  function RotateLeft(w: Word, offset: nat): Word {
    var shift := offset % 32;
    seq(32, i requires 0 <= i < 32 => if shift <= i then w[i - shift] else w[i + 32 - shift])
  }

  /** The number a word stands for. */
  function Value(w: seq<bool>): nat {
    if w == [] then 0 else (if w[0] then 1 else 0) + 2 * Value(w[1..])
  }

  /** Maps every byte to a word; the program uses one fixed table, nothing depends on which. */
  type Table = byte -> Word

  /** Xor of the first `n` bytes' words, each rotated by its distance from the end of `bytes`. */
  function PartialHash(table: Table, bytes: seq<byte>, n: nat): Word
    requires n <= |bytes|
  {
    if n == 0 then ZERO
    else Xor(PartialHash(table, bytes, n - 1), RotateLeft(table(bytes[n - 1]), |bytes| - n))
  }

  /** The hash of `bytes`, computed from scratch. */
  function Hash(table: Table, bytes: seq<byte>): Word {
    PartialHash(table, bytes, |bytes|)
  }

  /** The hash after one more byte, when the byte `leave` drops out of a full window. */
  function Advance(table: Table, hash: Word, leave: byte, enter: byte): Word {
    Xor(Xor(RotateLeft(hash, 1), RotateLeft(table(leave), WINDOW_SIZE)), table(enter))
  }

  lemma RotateXor(a: Word, b: Word)
    ensures RotateLeft(Xor(a, b), 1) == Xor(RotateLeft(a, 1), RotateLeft(b, 1))
  {
  }

  lemma RotateAgain(w: Word, k: nat)
    ensures RotateLeft(RotateLeft(w, k), 1) == RotateLeft(w, k + 1)
  {
    assert (k + 1) % 32 == if k % 32 == 31 then 0 else k % 32 + 1;
  }

  /** Moving the window by one byte rotates every term that stays and leaves behind the first. */
  lemma {:induction false} ShiftWindow(table: Table, window: seq<byte>, enter: byte, n: nat)
    requires n < |window|
    ensures RotateLeft(PartialHash(table, window, n + 1), 1)
         == Xor(RotateLeft(table(window[0]), |window|),
                PartialHash(table, window[1..] + [enter], n))
  {
    var moved := window[1..] + [enter];
    var prefix := PartialHash(table, window, n);
    var last := RotateLeft(table(window[n]), |window| - n - 1);
    RotateXor(prefix, last);
    RotateAgain(table(window[n]), |window| - n - 1);
    if n == 0 {
      assert Xor(RotateLeft(ZERO, 1), RotateLeft(table(window[0]), |window|))
          == Xor(RotateLeft(table(window[0]), |window|), ZERO);
    } else {
      ShiftWindow(table, window, enter, n - 1);
      assert moved[n - 1] == window[n];
      XorAssociative(RotateLeft(table(window[0]), |window|), PartialHash(table, moved, n - 1),
                     RotateLeft(table(window[n]), |window| - n));
    }
  }

  lemma XorAssociative(a: Word, b: Word, c: Word)
    ensures Xor(Xor(a, b), c) == Xor(a, Xor(b, c))
  {
  }

  lemma XorCancels(a: Word, b: Word, c: Word)
    ensures Xor(Xor(Xor(a, b), a), c) == Xor(b, c)
    ensures RotateLeft(c, 0) == c
  {
  }

  /** Rolling the hash of a full window forward gives the hash of the moved window. */
  lemma RollingHash(table: Table, window: seq<byte>, enter: byte)
    requires |window| == WINDOW_SIZE
    ensures Advance(table, Hash(table, window), window[0], enter)
         == Hash(table, window[1..] + [enter])
  {
    var moved := window[1..] + [enter];
    ShiftWindow(table, window, enter, WINDOW_SIZE - 1);
    XorCancels(RotateLeft(table(window[0]), WINDOW_SIZE),
               PartialHash(table, moved, WINDOW_SIZE - 1), table(enter));
    assert moved[WINDOW_SIZE - 1] == enter;
  }

  function Power(n: nat): (p: nat)
    ensures 0 < p
  {
    if n == 0 then 1 else 2 * Power(n - 1)
  }

  lemma {:induction false} ValuePush(w: seq<bool>, bit: bool)
    ensures Value(w + [bit]) == Value(w) + if bit then Power(|w|) else 0
    decreases |w|
  {
    if w == [] {
      assert Value([bit][1..]) == 0;
    } else {
      ValuePush(w[1..], bit);
      assert (w + [bit])[1..] == w[1..] + [bit];
    }
  }

  /** A word stands for a number below 2 to the 32, and different words for different numbers. */
  lemma {:induction false} ValueBits(w: seq<bool>, v: seq<bool>)
    requires |v| == |w|
    ensures Value(w) < Power(|w|) && (Value(w) == Value(v) ==> w == v)
    decreases |w|
  {
    if w != [] {
      ValueBits(w[1..], v[1..]);
      assert w == [w[0]] + w[1..] && v == [v[0]] + v[1..];
    }
  }

  /** Rotating by one doubles the number, and brings the bit that leaves at the top back at the bottom. */
  lemma RotateValue(w: Word)
    ensures Value(RotateLeft(w, 1)) + (if w[31] then Power(32) else 0) == 2 * Value(w) + if w[31] then 1 else 0
  {
    var low := w[..31];
    assert w == low + [w[31]];
    ValuePush(low, w[31]);
    assert RotateLeft(w, 1) == [w[31]] + low;
    assert RotateLeft(w, 1)[1..] == low;
    assert Power(32) == 2 * Power(31);
  }

  /** Rotating further is rotating by one again and again. */
  lemma RotateSteps(w: Word, k: nat)
    ensures RotateLeft(w, 0) == w && RotateLeft(w, k + 1) == RotateLeft(RotateLeft(w, k), 1)
  {
    RotateAgain(w, k);
  }
}
