/**
 * Bytes and machine words as the result buffer holds them: unsigned integers written in
 * the machine's byte order, and `SYS_ALIGN`, which rounds a length up to a whole number
 * of `size_t` words.
 */
module Bytes {

  /** `uint8_t`. */
  type Byte = x: int | 0 <= x < 256

  /** The width in bytes of `size_t`, `oid_t` and `time_t` on the modelled platform. */
  const WORD: nat := 8

  /** 256 to the power `n`: the number of values `n` bytes can hold. */
  function Pow256(n: nat): (p: nat)
    ensures p >= 1
  {
    if n == 0 then 1 else 256 * Pow256(n - 1)
  }

  /** The largest `size_t`, `SIZE_MAX`, plus one. */
  const WORD_LIMIT: nat := 0x1_0000_0000_0000_0000

  lemma WordLimitIsPow256()
    ensures Pow256(WORD) == WORD_LIMIT
  {
  }

  /** The `width` low bytes of `n`, least significant first. */
  function LittleEndian(n: nat, width: nat): (b: seq<Byte>)
    ensures |b| == width
  {
    if width == 0 then [] else [n % 256] + LittleEndian(n / 256, width - 1)
  }

  /** The unsigned value of bytes read least significant first. */
  function FromLittleEndian(b: seq<Byte>): (n: nat)
    ensures n < Pow256(|b|)
  {
    if b == [] then 0 else b[0] + 256 * FromLittleEndian(b[1..])
  }

  /** The `width` low bytes of `n`, most significant first. */
  function BigEndian(n: nat, width: nat): (b: seq<Byte>)
    ensures |b| == width
  {
    if width == 0 then [] else BigEndian(n / 256, width - 1) + [n % 256]
  }

  /** The unsigned value of bytes read most significant first. */
  function FromBigEndian(b: seq<Byte>): (n: nat)
    ensures n < Pow256(|b|)
  {
    if b == [] then 0 else 256 * FromBigEndian(b[..|b| - 1]) + b[|b| - 1]
  }

  /** `memcpy` of an unsigned integer of `width` bytes in the given byte order. */
  function Encode(n: nat, width: nat, little: bool): (b: seq<Byte>)
    ensures |b| == width
  {
    if little then LittleEndian(n, width) else BigEndian(n, width)
  }

  /** Reading an unsigned integer back, as the reader's `u2`/`u4`/`u8` in either order. */
  function Decode(b: seq<Byte>, little: bool): (n: nat)
    ensures n < Pow256(|b|)
  {
    if little then FromLittleEndian(b) else FromBigEndian(b)
  }

  lemma {:induction false} LittleEndianRoundTrip(n: nat, width: nat)
    requires n < Pow256(width)
    ensures FromLittleEndian(LittleEndian(n, width)) == n
  {
    if width > 0 {
      LittleEndianRoundTrip(n / 256, width - 1);
      assert LittleEndian(n, width)[1..] == LittleEndian(n / 256, width - 1);
    }
  }

  lemma {:induction false} FromLittleEndianRoundTrip(b: seq<Byte>)
    ensures LittleEndian(FromLittleEndian(b), |b|) == b
  {
    if b != [] {
      FromLittleEndianRoundTrip(b[1..]);
      var n := FromLittleEndian(b);
      assert n % 256 == b[0] && n / 256 == FromLittleEndian(b[1..]);
    }
  }

  lemma {:induction false} BigEndianRoundTrip(n: nat, width: nat)
    requires n < Pow256(width)
    ensures FromBigEndian(BigEndian(n, width)) == n
  {
    if width > 0 {
      BigEndianRoundTrip(n / 256, width - 1);
      var b := BigEndian(n, width);
      assert b[..|b| - 1] == BigEndian(n / 256, width - 1);
    }
  }

  lemma {:induction false} FromBigEndianRoundTrip(b: seq<Byte>)
    ensures BigEndian(FromBigEndian(b), |b|) == b
  {
    if b != [] {
      var init := b[..|b| - 1];
      FromBigEndianRoundTrip(init);
      var n := FromBigEndian(b);
      assert n % 256 == b[|b| - 1] && n / 256 == FromBigEndian(init);
      assert b == init + [b[|b| - 1]];
    }
  }

  /** Every value that fits is read back as written, in either byte order. */
  lemma DecodeEncode(n: nat, width: nat, little: bool)
    requires n < Pow256(width)
    ensures Decode(Encode(n, width, little), little) == n
  {
    if little {
      LittleEndianRoundTrip(n, width);
    } else {
      BigEndianRoundTrip(n, width);
    }
  }

  /** Every byte string is the encoding of the value read from it. */
  lemma EncodeDecode(b: seq<Byte>, little: bool)
    ensures Encode(Decode(b, little), |b|, little) == b
  {
    if little {
      FromLittleEndianRoundTrip(b);
    } else {
      FromBigEndianRoundTrip(b);
    }
  }

  /** A word holding a `size_t` value reads back as that value. */
  lemma WordRoundTrip(n: nat, little: bool)
    requires n < WORD_LIMIT
    ensures Decode(Encode(n, WORD, little), little) == n
  {
    WordLimitIsPow256();
    DecodeEncode(n, WORD, little);
  }

  // ---------------------------------------------------------------- alignment

  /**
   * `SYS_ALIGN(x)`, `(x + 7) & ~7`: the least multiple of the word size not below `x`.
   */
  function SysAlign(x: nat): (r: nat)
    ensures r % WORD == 0
    ensures x <= r < x + 8
  {
    ((x + 7) / 8) * 8
  }

  /** Aligning is idempotent, and an aligned length is left alone. */
  lemma SysAlignFixesAligned(x: nat)
    ensures SysAlign(SysAlign(x)) == SysAlign(x)
    ensures x % WORD == 0 ==> SysAlign(x) == x
  {
  }

  /** A whole number of words needs no padding. */
  lemma WordMultiple(n: nat)
    ensures SysAlign(n * 8) == 8 * n
  {
    SysAlignFixesAligned(n * 8);
  }

  /** `n` zero bytes: what `std::vector::resize` fills new room with. */
  function Zeros(n: nat): (z: seq<Byte>)
    ensures |z| == n && forall i :: 0 <= i < n ==> z[i] == 0
  {
    seq(n, _ => 0)
  }

  /** `b` followed by zeros up to the next word boundary. */
  function Padded(b: seq<Byte>): (r: seq<Byte>)
    ensures |r| == SysAlign(|b|) && |r| % WORD == 0
    ensures r[..|b|] == b
    ensures forall i :: |b| <= i < |r| ==> r[i] == 0
  {
    b + Zeros(SysAlign(|b|) - |b|)
  }

  /** A word-sized unsigned integer in its own aligned slot. */
  function Word(n: nat, little: bool): (b: seq<Byte>)
    ensures |b| == 8
  {
    Encode(n, WORD, little)
  }
}
