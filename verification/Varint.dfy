/** Variable-length integers: big-endian base-128 digits, all but the last with the high bit set. */
module Varint {
  import opened Base

  const MAX_VARINT: nat := 0x7fff_ffff_ffff_ffff

  /** The digits of a positive integer, all marked as being followed by another digit. */
  function Prefix(n: nat): seq<byte> {
    if n == 0 then [] else Prefix(n / 128) + [128 + n % 128]
  }

  /** The encoding the writer produces. */
  function Encode(n: nat): seq<byte> {
    Prefix(n / 128) + [n % 128]
  }

  /** Shifting left by one digit in 64-bit arithmetic: high bits are lost silently. */
  function ShiftDigit(n: nat): nat {
    n * 128 % 0x1_0000_0000_0000_0000
  }

  /** What the reader makes of the remaining digits `s`, with the value of the digits so far. */
  function ReadFrom(integer: nat, s: seq<byte>): (r: Result<(nat, seq<byte>)>)
    ensures r.Ok? ==> |r.value.1| < |s| && r.value.0 <= MAX_VARINT
    ensures r.Ok? ==> r.value.1 == s[|s| - |r.value.1|..]
    decreases |s|
  {
    if s == [] then Err
    else
      var next := ShiftDigit(integer) + s[0] % 128;
      if s[0] < 128 then
        if next > MAX_VARINT then Err else Ok((next, s[1..]))
      else if next == 0 then Err
      else ReadFrom(next, s[1..])
  }

  function Read(s: seq<byte>): Result<(nat, seq<byte>)> {
    ReadFrom(0, s)
  }

  /** What is left after reading, whether or not it succeeds. */
  function RestFrom(integer: nat, s: seq<byte>): (rest: seq<byte>)
    ensures ReadFrom(integer, s).Ok? ==> rest == ReadFrom(integer, s).value.1
    decreases |s|
  {
    if s == [] then []
    else
      var next := ShiftDigit(integer) + s[0] % 128;
      if s[0] < 128 || next == 0 then s[1..] else RestFrom(next, s[1..])
  }

  /** Reading continues with the value of the digits so far and the remaining digits. */
  ghost predicate Continues(all: seq<byte>, integer: nat, s: seq<byte>) {
    Read(all) == ReadFrom(integer, s) && RestFrom(0, all) == RestFrom(integer, s)
  }

  lemma ContinueReading(all: seq<byte>, integer: nat, s: seq<byte>)
    requires Continues(all, integer, s) && s != []
    ensures var next := ShiftDigit(integer) + s[0] % 128;
      if s[0] < 128 then
        Read(all) == (if next > MAX_VARINT then Err else Ok((next, s[1..]))) && RestFrom(0, all) == s[1..]
      else if next == 0 then Read(all) == Err && RestFrom(0, all) == s[1..]
      else Continues(all, next, s[1..])
  {
  }

  lemma ReadDigit(integer: nat, digit: byte, s: seq<byte>)
    requires integer < 0x200_0000_0000_0000
    ensures var next := integer * 128 + digit % 128;
      ReadFrom(integer, [digit] + s)
      == if digit < 128 then (if next > MAX_VARINT then Err else Ok((next, s)))
         else if next == 0 then Err else ReadFrom(next, s)
  {
    assert ([digit] + s)[1..] == s;
  }

  lemma PrefixPush(n: nat, digit: byte)
    requires digit >= 128 && 0 < n * 128 + digit % 128
    ensures Prefix(n * 128 + digit % 128) == Prefix(n) + [digit]
  {
  }

  /** Reading marked digits whose value fits into 64 bits just accumulates it. */
  lemma {:induction false} ReadPrefix(n: nat, s: seq<byte>)
    requires n < 0x1_0000_0000_0000_0000
    ensures ReadFrom(0, Prefix(n) + s) == ReadFrom(n, s)
  {
    if n == 0 {
      assert Prefix(n) + s == s;
    } else {
      var high, digit: byte := n / 128, 128 + n % 128;
      assert n == high * 128 + digit % 128;
      ReadPrefix(high, [digit] + s);
      assert Prefix(n) + s == Prefix(high) + ([digit] + s);
      ReadDigit(high, digit, s);
    }
  }

  /** Reading inverts writing, whatever follows. */
  lemma ReadEncode(n: nat, s: seq<byte>)
    requires n <= MAX_VARINT
    ensures Read(Encode(n) + s) == Ok((n, s))
  {
    var digit: byte := n % 128;
    assert n == n / 128 * 128 + digit % 128 && digit < 128;
    assert Encode(n) + s == Prefix(n / 128) + ([digit] + s);
    ReadPrefix(n / 128, [digit] + s);
    ReadDigit(n / 128, digit, s);
  }

  lemma {:induction false} PrefixLength(n: nat, digits: nat)
    requires n < Power128(digits)
    ensures |Prefix(n)| <= digits
    decreases digits
  {
    if n != 0 {
      PrefixLength(n / 128, digits - 1);
    }
  }

  function Power128(k: nat): (p: nat)
    ensures p > 0
  {
    if k == 0 then 1 else 128 * Power128(k - 1)
  }

  /** Without overflow, the digits read so far can be recovered from their value. */
  lemma {:induction false} ReadCanonical(integer: nat, s: seq<byte>, before: nat, n: nat, rest: seq<byte>)
    requires ReadFrom(integer, s) == Ok((n, rest)) && |rest| < |s|
    requires integer < Power128(before) && |s| - |rest| + before <= 9
    ensures Prefix(integer) + s[..|s| - |rest|] == Encode(n)
    decreases |s|, 1
  {
    var digit, tail := s[0], s[1..];
    Power128Bound(before);
    assert s == [digit] + tail;
    ReadDigit(integer, digit, tail);
    if digit < 128 {
      EncodeSplit(integer, digit, n);
      assert s[..1] == [digit];
    } else {
      PrefixPush(integer, digit);
      PowerPush(integer, digit % 128, before);
      ReadCanonicalStep(Prefix(integer), digit, integer * 128 + digit % 128, tail, before, n, rest);
    }
  }

  lemma {:induction false} ReadCanonicalStep(high: seq<byte>, digit: byte, next: nat, tail: seq<byte>, before: nat,
                                             n: nat, rest: seq<byte>)
    requires ReadFrom(next, tail) == Ok((n, rest)) && |rest| < |tail|
    requires Prefix(next) == high + [digit] && next < Power128(before + 1) && |tail| + 1 - |rest| + before <= 9
    ensures high + ([digit] + tail)[..|tail| + 1 - |rest|] == Encode(n)
    decreases |tail| + 1, 0
  {
    ReadCanonical(next, tail, before + 1, n, rest);
    SliceCons(digit, tail, |tail| - |rest|);
    assert high + ([digit] + tail[..|tail| - |rest|]) == (high + [digit]) + tail[..|tail| - |rest|];
  }

  lemma PowerPush(integer: nat, digit: nat, k: nat)
    requires integer < Power128(k) && digit < 128
    ensures integer * 128 + digit < Power128(k + 1)
  {
  }

  lemma LastDigit(n: nat, digit: nat)
    requires digit < 128
    ensures (n * 128 + digit) / 128 == n && (n * 128 + digit) % 128 == digit
  {
  }

  lemma EncodeSplit(high: nat, low: nat, n: nat)
    requires low < 128 && n == high * 128 + low
    ensures Encode(n) == Prefix(high) + [low]
  {
    LastDigit(high, low);
    assert n / 128 == high;
  }

  lemma SliceCons(b: byte, s: seq<byte>, n: nat)
    requires n <= |s|
    ensures ([b] + s)[..n + 1] == [b] + s[..n]
  {
  }

  lemma Power128Bound(k: nat)
    requires k <= 8
    ensures Power128(k) <= 0x100_0000_0000_0000
    ensures k == 8 ==> Power128(k) == 0x100_0000_0000_0000
  {
    assert Power128(1) == 128 && Power128(2) == 0x4000 && Power128(3) == 0x20_0000;
    assert Power128(4) == 0x1000_0000 && Power128(5) == 0x8_0000_0000;
    assert Power128(6) == 0x400_0000_0000 && Power128(7) == 0x2_0000_0000_0000;
  }

  /** Which of the accepted encodings the writer produces: exactly those of at most nine digits. */
  lemma CanonicalIffShort(s: seq<byte>)
    requires Read(s).Ok?
    ensures var (n, rest) := Read(s).value;
      var digits := s[..|s| - |rest|];
      digits == Encode(n) <==> |digits| <= 9
  {
    var (n, rest) := Read(s).value;
    Power128Bound(8);
    PrefixLength(n / 128, 8);
    if |s| - |rest| <= 9 {
      ReadCanonical(0, s, 0, n, rest);
    }
  }

  /** `k` continued zero digits and a last zero digit. */
  function Zeros(k: nat): seq<byte> {
    if k == 0 then [0] else [128] + Zeros(k - 1)
  }

  lemma ZerosStep(n: nat, k: nat, s: seq<byte>)
    requires 0 < k && 0 < n < 0x200_0000_0000_0000
    ensures ReadFrom(n, Zeros(k) + s) == ReadFrom(n * 128, Zeros(k - 1) + s) && |Zeros(k)| == 1 + |Zeros(k - 1)|
  {
    assert Zeros(k) + s == [128] + (Zeros(k - 1) + s);
    ReadDigit(n, 128, Zeros(k - 1) + s);
  }

  const EIGHT: nat := 8

  /** Ten digits that lose their highest bit: an encoding of 2^64 is read as 0. */
  lemma OverlongExample(s: seq<byte>)
    ensures Read([130] + Zeros(EIGHT) + s) == Ok((0, s)) && |[130] + Zeros(EIGHT)| == 10
  {
    FirstZeros(8, s);
    assert [130] + Zeros(EIGHT) + s == [130] + (Zeros(EIGHT) + s);
    ReadDigit(0, 130, Zeros(EIGHT) + s);
  }

  lemma FirstZeros(k: nat, s: seq<byte>)
    requires k == 8
    ensures ReadFrom(2, Zeros(k) + s) == Ok((0, s)) && |Zeros(k)| == 9
  {
    ZerosStep(2, k, s);
    ZerosStep(0x100, k - 1, s);
    MiddleZeros(k - 2, s);
  }

  lemma MiddleZeros(k: nat, s: seq<byte>)
    requires k == 6
    ensures ReadFrom(0x8000, Zeros(k) + s) == Ok((0, s)) && |Zeros(k)| == 7
  {
    ZerosStep(0x8000, k, s);
    ZerosStep(0x40_0000, k - 1, s);
    LastZeros(k - 2, s);
  }

  lemma LastZeros(k: nat, s: seq<byte>)
    requires k == 4
    ensures ReadFrom(0x2000_0000, Zeros(k) + s) == Ok((0, s)) && |Zeros(k)| == 5
  {
    ZerosStep(0x2000_0000, k, s);
    ZerosStep(0x10_0000_0000, k - 1, s);
    ZerosStep(0x800_0000_0000, k - 2, s);
    ZerosStep(0x4_0000_0000_0000, k - 3, s);
    ZerosEnd(s);
  }

  lemma ZerosEnd(s: seq<byte>)
    ensures ReadFrom(0x200_0000_0000_0000, Zeros(0) + s) == Ok((0, s)) && |Zeros(0)| == 1
  {
    assert ShiftDigit(0x200_0000_0000_0000) == 0;
    assert (Zeros(0) + s)[1..] == s;
  }

  /** Number of significant bits. */
  function BitLength(n: nat): nat {
    if n == 0 then 0 else 1 + BitLength(n / 2)
  }

  /** The size the program computes for the encoding. */
  function Size(n: nat): nat {
    var bits := BitLength(n);
    if bits == 0 then 1 else (bits + 6) / 7
  }

  lemma ThreeBits(n: nat)
    requires n >= 4
    ensures BitLength(n) == 3 + BitLength(n / 8)
  {
    assert BitLength(n / 2) == 1 + BitLength(n / 4);
  }

  lemma BitsPerDigit(n: nat)
    requires n >= 128
    ensures BitLength(n) == 7 + BitLength(n / 128)
  {
    ThreeBits(n);
    ThreeBits(n / 8);
  }

  /** The computed size is the number of bytes written. */
  lemma {:induction false} SizeExact(n: nat)
    ensures Size(n) == |Encode(n)|
  {
    if n >= 128 {
      BitsPerDigit(n);
      SizeExact(n / 128);
    } else {
      SmallBits(n);
    }
  }

  lemma SmallBits(n: nat)
    requires n < 128
    ensures BitLength(n) <= 7
  {
    if n >= 32 {
      ThreeBits(n);
      ThreeBits(n / 8);
    } else if n >= 4 {
      ThreeBits(n);
    }
  }

  /** `n >> 7 * digits`. */
  function ShiftRight(n: nat, digits: nat): nat {
    if digits == 0 then n else ShiftRight(n / 128, digits - 1)
  }

  lemma {:induction false} ShiftOneMore(n: nat, digits: nat)
    ensures ShiftRight(n, digits) / 128 == ShiftRight(n, digits + 1)
  {
    if digits != 0 {
      ShiftOneMore(n / 128, digits - 1);
    }
  }

  /** All digits of an encoding but the first are shifted out exactly when none is left. */
  lemma {:induction false} DigitsLeft(n: nat, digits: nat)
    requires 0 < digits
    ensures ShiftRight(n, digits) == 0 <==> |Encode(n)| <= digits
  {
    if n / 128 == 0 {
      ShiftZero(digits - 1);
    } else {
      assert |Encode(n)| == 1 + |Encode(n / 128)|;
      if digits > 1 {
        DigitsLeft(n / 128, digits - 1);
      }
    }
  }

  lemma {:induction false} ShiftZero(digits: nat)
    ensures ShiftRight(0, digits) == 0
  {
    if digits != 0 {
      ShiftZero(digits - 1);
    }
  }

  /** Write the digits from the highest down. */
  method Write(output: seq<byte>, integer: nat) returns (r: seq<byte>)
    requires integer <= MAX_VARINT
    ensures r == output + Encode(integer)
  {
    r := output;
    var shift := Size(integer) - 1;
    SizeExact(integer);
    DigitsLeft(integer, shift + 1);
    while shift > 0
      invariant 0 <= shift < |Encode(integer)|
      invariant r == output + Prefix(ShiftRight(integer, shift + 1))
    {
      var digit := ShiftRight(integer, shift) % 128;
      ShiftOneMore(integer, shift);
      DigitsLeft(integer, shift);
      r := r + [128 + digit];
      shift := shift - 1;
    }
    r := r + [ShiftRight(integer, 0) % 128];
  }
}
