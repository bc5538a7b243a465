/**
 * Strict UTF-8, as Python's `bytes.decode("utf-8")` applies it to the metadata string of
 * a results buffer: a byte string decodes exactly when it is a concatenation of the
 * well-formed sequences of the Unicode Standard (table 3-7), with no overlong form, no
 * surrogate and nothing above U+10FFFF; anything else raises `UnicodeDecodeError`.
 */
module Utf8 {
  import opened Wrappers
  import opened Bytes

  /** A continuation byte, `10xxxxxx`. */
  predicate Continuation(b: Byte) {
    0x80 <= b <= 0xBF
  }

  /**
   * The encoding of one scalar value: one to four bytes, the value's bits six at a time
   * after a lead byte that says how many follow.
   */
  function EncodeChar(c: char): (b: seq<Byte>)
    ensures 1 <= |b| <= 4
  {
    var v := c as int;
    var t := v / 64;
    var u := t / 64;
    var w := u / 64;
    if v < 0x80 then [v]
    else if v < 0x800 then [0xC0 + t, 0x80 + v % 64]
    else if v < 0x1_0000 then [0xE0 + u, 0x80 + t % 64, 0x80 + v % 64]
    else [0xF0 + w, 0x80 + u % 64, 0x80 + t % 64, 0x80 + v % 64]
  }

  /** What one code point takes from the front of a byte string. */
  datatype Decoded = Decoded(c: char, length: nat)

  /** Six more bits below `high`. */
  function Shift(high: int, cont: Byte): int {
    high * 64 + (cont as int - 0x80)
  }

  /**
   * The first well-formed sequence of `b`, or `None` when `b` does not start with one.
   * The second byte's range depends on the first: it rules out overlong forms after
   * E0 and F0, surrogates after ED and values above U+10FFFF after F4.
   */
  function DecodeFirst(b: seq<Byte>): (r: Option<Decoded>)
    requires b != []
    ensures r.Some? ==> 1 <= r.value.length <= |b| && r.value.length <= 4
  {
    var b0: int := b[0];
    if b0 < 0x80 then Some(Decoded(b0 as char, 1))
    else if 0xC2 <= b0 <= 0xDF then
      if |b| >= 2 && Continuation(b[1]) then Some(Decoded(Shift(b0 - 0xC0, b[1]) as char, 2))
      else None
    else if 0xE0 <= b0 <= 0xEF then
      var lo := if b0 == 0xE0 then 0xA0 else 0x80;
      var hi := if b0 == 0xED then 0x9F else 0xBF;
      if |b| >= 3 && lo <= b[1] <= hi && Continuation(b[2]) then
        Some(Decoded(Shift(Shift(b0 - 0xE0, b[1]), b[2]) as char, 3))
      else None
    else if 0xF0 <= b0 <= 0xF4 then
      var lo := if b0 == 0xF0 then 0x90 else 0x80;
      var hi := if b0 == 0xF4 then 0x8F else 0xBF;
      if |b| >= 4 && lo <= b[1] <= hi && Continuation(b[2]) && Continuation(b[3]) then
        Some(Decoded(Shift(Shift(Shift(b0 - 0xF0, b[1]), b[2]), b[3]) as char, 4))
      else None
    else None
  }

  /** `bytes.decode("utf-8")`: the whole string, or `None` for `UnicodeDecodeError`. */
  function Decode(b: seq<Byte>): Option<string>
    decreases |b|
  {
    if b == [] then Some([])
    else match DecodeFirst(b)
      case None => None
      case Some(d) =>
        match Decode(b[d.length..])
        case None => None
        case Some(rest) => Some([d.c] + rest)
  }

  /** `str.encode("utf-8")`. */
  function Encode(s: string): seq<Byte> {
    if s == [] then [] else EncodeChar(s[0]) + Encode(s[1..])
  }

  /** Taking six bits off and putting them back. */
  lemma ShiftSplits(high: nat, cont: Byte)
    requires Continuation(cont)
    ensures Shift(high, cont) / 64 == high && Shift(high, cont) % 64 == cont - 0x80
  {
  }

  lemma ShiftJoins(v: nat)
    ensures Shift(v / 64, 0x80 + v % 64) == v
  {
  }

  /** One encoded character is decoded back from the front, whatever follows it. */
  lemma DecodeFirstEncodeChar(c: char, rest: seq<Byte>)
    ensures DecodeFirst(EncodeChar(c) + rest) == Some(Decoded(c, |EncodeChar(c)|))
  {
    var v := c as int;
    ShiftJoins(v);
    if 0x800 <= v < 0x1_0000 {
      DecodeThree(c, rest);
    } else if 0x1_0000 <= v {
      DecodeFour(c, rest);
    }
  }

  lemma DecodeThree(c: char, rest: seq<Byte>)
    requires 0x800 <= c as int < 0x1_0000
    ensures DecodeFirst(EncodeChar(c) + rest) == Some(Decoded(c, 3))
  {
    var v := c as int;
    ShiftJoins(v);
    ShiftJoins(v / 64);
  }

  lemma DecodeFour(c: char, rest: seq<Byte>)
    requires 0x1_0000 <= c as int
    ensures DecodeFirst(EncodeChar(c) + rest) == Some(Decoded(c, 4))
  {
    var v := c as int;
    ShiftJoins(v);
    ShiftJoins(v / 64);
    ShiftJoins(v / 64 / 64);
  }

  /** A sequence decoded from the front is the encoding of the character it gives. */
  lemma DecodeFirstIsEncoding(b: seq<Byte>)
    requires b != [] && DecodeFirst(b).Some?
    ensures b[..DecodeFirst(b).value.length] == EncodeChar(DecodeFirst(b).value.c)
  {
    var d := DecodeFirst(b).value;
    var b0: int := b[0];
    if d.length == 2 {
      ShiftSplits(b0 - 0xC0, b[1]);
    } else if d.length == 3 {
      ShiftSplits(b0 - 0xE0, b[1]);
      ShiftSplits(Shift(b0 - 0xE0, b[1]), b[2]);
    } else if d.length == 4 {
      ShiftSplits(b0 - 0xF0, b[1]);
      ShiftSplits(Shift(b0 - 0xF0, b[1]), b[2]);
      ShiftSplits(Shift(Shift(b0 - 0xF0, b[1]), b[2]), b[3]);
    }
  }

  /** Every string survives encoding and decoding. */
  lemma {:induction false} DecodeEncode(s: string)
    ensures Decode(Encode(s)) == Some(s)
  {
    if s != [] {
      var e := EncodeChar(s[0]);
      DecodeFirstEncodeChar(s[0], Encode(s[1..]));
      assert (e + Encode(s[1..]))[|e|..] == Encode(s[1..]);
      DecodeEncode(s[1..]);
      assert [s[0]] + s[1..] == s;
    }
  }

  lemma EncodeCons(c: char, rest: string)
    ensures Encode([c] + rest) == EncodeChar(c) + Encode(rest)
  {
    assert ([c] + rest)[1..] == rest;
  }

  /** The first step of a successful decode, named. */
  lemma DecodeStep(b: seq<Byte>) returns (c: char, n: nat)
    requires b != [] && Decode(b).Some?
    ensures 1 <= n <= |b| && Decode(b[n..]).Some?
    ensures Decode(b).value == [c] + Decode(b[n..]).value && b[..n] == EncodeChar(c)
  {
    var d := DecodeFirst(b).value;
    c, n := d.c, d.length;
    DecodeFirstIsEncoding(b);
  }

  /** Whatever decodes is the encoding of what it decodes to: decoding is exact. */
  lemma {:induction false} EncodeDecode(b: seq<Byte>)
    requires Decode(b).Some?
    ensures Encode(Decode(b).value) == b
    decreases |b|
  {
    if b != [] {
      var c, n := DecodeStep(b);
      var tail := b[n..];
      EncodeDecode(tail);
      EncodeCons(c, Decode(tail).value);
      assert b == b[..n] + tail;
    }
  }

  /** Hence a byte string decodes to `s` exactly when it is the encoding of `s`. */
  lemma DecodeIffEncode(b: seq<Byte>, s: string)
    ensures Decode(b) == Some(s) <==> b == Encode(s)
  {
    if Decode(b) == Some(s) {
      EncodeDecode(b);
    }
    if b == Encode(s) {
      DecodeEncode(s);
    }
  }
}
