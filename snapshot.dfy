/**
 * The reader of a results buffer generated from the `ip_forward_mib` format description:
 * a 16-byte header whose first three bytes give the word size `sys_size`, the arc size
 * `suboid_size` and the byte order, then a body of the metadata string, the root OIDs and
 * the variable bindings. Every reader consumes a shared stream position.
 *
 * Each reader is specified by a function of the bytes and the starting position that
 * gives the value read and the position after it, or the error that ends the parse;
 * the reading methods over a `Stream` object are proved to compute those functions. An
 * encoder for the same format, also given here, is what the round-trip lemmas read back.
 */
module Snapshot {
  import opened Wrappers
  import opened Bytes
  import Utf8
  import Layout

  /** The ways a parse ends early. */
  datatype ReadError =
    /** `EOFError`: fewer bytes are left than a read asks for. */
    | EndOfStream
    /** `UndecidedEndiannessError`: the byte-order byte is neither 0 nor 1. */
    | UndecidedEndianness
    /** `AttributeError`: a width other than 2, 4 or 8 leaves `as_int` unset. */
    | WidthUnset
    /** `ZeroDivisionError`: a zero width used as a divisor or modulus. */
    | ZeroDivision
    /** `UnicodeDecodeError`: the metadata bytes are not UTF-8. */
    | NotUtf8
    /**
     * The arc loop never ends: with a width other than 2, 4 or 8 an arc read consumes
     * nothing, so a non-empty arc substream is never exhausted.
     */
    | NoProgress

  /** The three interpreted header bytes, in the reader's order. */
  datatype Info = Info(sysSize: Byte, suboidSize: Byte, endianess: Byte)

  /** A value read and the position just after it. */
  datatype Parsed<T> = Parsed(value: T, next: nat)

  /** The decoded body. */
  datatype Body = Body(little: bool, metadata: string, rootOids: seq<seq<nat>>, varBinds: seq<seq<Byte>>)

  datatype Snapshot = Snapshot(header: Info, body: Body)

  /** The widths `SizeT` and `OidT` know how to read. */
  predicate IsWidth(w: int) {
    w == 2 || w == 4 || w == 8
  }

  // ---------------------------------------------------------------- the readers, as functions

  /** `read_bytes(n)`. */
  function BytesAt(data: seq<Byte>, pos: nat, n: nat): Result<Parsed<seq<Byte>>, ReadError> {
    if pos + n <= |data| then Ok(Parsed(data[pos..pos + n], pos + n)) else Err(EndOfStream)
  }

  /** `read_u2le` … `read_u8be`: an unsigned integer of `width` bytes in the given order. */
  function UIntAt(data: seq<Byte>, pos: nat, width: nat, little: bool): Result<Parsed<nat>, ReadError> {
    var b :- BytesAt(data, pos, width);
    Ok(Parsed(Decode(b.value, little), b.next))
  }

  /** `SizeT`: an unsigned integer of `sys_size` bytes. */
  function SizeTAt(data: seq<Byte>, pos: nat, info: Info, little: bool): Result<Parsed<nat>, ReadError> {
    if IsWidth(info.sysSize) then UIntAt(data, pos, info.sysSize, little) else Err(WidthUnset)
  }

  /** `OidT`: one arc of `suboid_size` bytes. */
  function OidTAt(data: seq<Byte>, pos: nat, info: Info, little: bool): Result<Parsed<nat>, ReadError> {
    if IsWidth(info.suboidSize) then UIntAt(data, pos, info.suboidSize, little) else Err(WidthUnset)
  }

  /** `(sys_size - pos) % sys_size`, Python's `%`, which for a positive modulus is never negative. */
  function PadLength(pos: nat, sysSize: nat): nat
    requires sysSize > 0
  {
    (sysSize - pos) % sysSize
  }

  /** `Aligned`: the padding bytes up to the next multiple of `sys_size`. */
  function AlignedAt(data: seq<Byte>, pos: nat, info: Info): Result<Parsed<seq<Byte>>, ReadError> {
    if info.sysSize == 0 then Err(ZeroDivision) else BytesAt(data, pos, PadLength(pos, info.sysSize))
  }

  /** `Metadata`: a length, that many bytes of UTF-8, then padding. */
  function MetadataAt(data: seq<Byte>, pos: nat, info: Info, little: bool): Result<Parsed<string>, ReadError> {
    var len :- SizeTAt(data, pos, info, little);
    var raw :- BytesAt(data, len.next, len.value);
    match Utf8.Decode(raw.value)
    case None => Err(NotUtf8)
    case Some(s) =>
      var pad :- AlignedAt(data, raw.next, info);
      Ok(Parsed(s, pad.next))
  }

  /** `Suboids`: arcs read from `raw` from `pos` until it is exhausted. */
  function SuboidsAt(raw: seq<Byte>, pos: nat, info: Info, little: bool): Result<seq<nat>, ReadError>
    decreases |raw| - pos
  {
    if pos >= |raw| then Ok([])
    else if !IsWidth(info.suboidSize) then Err(NoProgress)
    else
      var arc :- OidTAt(raw, pos, info, little);
      var rest :- SuboidsAt(raw, arc.next, info, little);
      Ok([arc.value] + rest)
  }

  /**
   * `Oid`: a length `len`, then `len // suboid_size` bytes decoded as arcs, then padding.
   * The length is divided by the arc width, so it counts the arc bytes times that width.
   */
  function OidAt(data: seq<Byte>, pos: nat, info: Info, little: bool): Result<Parsed<seq<nat>>, ReadError> {
    var len :- SizeTAt(data, pos, info, little);
    OidArcsAt(data, len.next, len.value, info, little)
  }

  /** What `Oid` reads after its length `len`. */
  function OidArcsAt(data: seq<Byte>, pos: nat, len: nat, info: Info, little: bool): Result<Parsed<seq<nat>>, ReadError> {
    if info.suboidSize == 0 then Err(ZeroDivision)
    else
      var raw :- BytesAt(data, pos, len / info.suboidSize);
      var arcs :- SuboidsAt(raw.value, 0, info, little);
      var pad :- AlignedAt(data, raw.next, info);
      Ok(Parsed(arcs, pad.next))
  }

  /** `count` OIDs one after the other: the loop of `RootOids`. */
  function OidsAt(data: seq<Byte>, pos: nat, count: nat, info: Info, little: bool): Result<Parsed<seq<seq<nat>>>, ReadError>
    decreases count
  {
    if count == 0 then Ok(Parsed([], pos))
    else
      var oid :- OidAt(data, pos, info, little);
      var rest :- OidsAt(data, oid.next, count - 1, info, little);
      Ok(Parsed([oid.value] + rest.value, rest.next))
  }

  /** `RootOids`: a count, that many OIDs, then padding. */
  function RootOidsAt(data: seq<Byte>, pos: nat, info: Info, little: bool): Result<Parsed<seq<seq<nat>>>, ReadError> {
    var count :- SizeTAt(data, pos, info, little);
    var oids :- OidsAt(data, count.next, count.value, info, little);
    var pad :- AlignedAt(data, oids.next, info);
    Ok(Parsed(oids.value, pad.next))
  }

  /** `VarBind`: a length, then that many raw bytes. */
  function VarBindAt(data: seq<Byte>, pos: nat, info: Info, little: bool): Result<Parsed<seq<Byte>>, ReadError> {
    var len :- SizeTAt(data, pos, info, little);
    BytesAt(data, len.next, len.value)
  }

  /** A binding read that succeeds moves forward, and not past the end. */
  lemma VarBindAdvances(data: seq<Byte>, pos: nat, info: Info, little: bool)
    requires VarBindAt(data, pos, info, little).Ok?
    ensures pos < VarBindAt(data, pos, info, little).value.next <= |data|
  {
  }

  /** `VarBinds`: variable bindings until the end of the stream. */
  function VarBindsAt(data: seq<Byte>, pos: nat, info: Info, little: bool): Result<seq<seq<Byte>>, ReadError>
    decreases |data| - pos
  {
    if pos >= |data| then Ok([])
    else
      var vb :- VarBindAt(data, pos, info, little);
      VarBindAdvances(data, pos, info, little);
      var rest :- VarBindsAt(data, vb.next, info, little);
      Ok([vb.value] + rest)
  }

  /** `Body`: the byte order from the header, then the three sections from `pos`. */
  function BodyAt(data: seq<Byte>, pos: nat, info: Info): Result<Body, ReadError> {
    if info.endianess != 0 && info.endianess != 1 then Err(UndecidedEndianness)
    else
      var little := info.endianess == 0;
      var meta :- MetadataAt(data, pos, info, little);
      var roots :- RootOidsAt(data, meta.next, info, little);
      var vbs :- VarBindsAt(data, roots.next, info, little);
      Ok(Body(little, meta.value, roots.value, vbs))
  }

  /** `IpForwardMib`: a 16-byte header, of which bytes 0 to 2 are read, then the body from byte 16. */
  function SnapshotOf(data: seq<Byte>): Result<Snapshot, ReadError> {
    var header :- BytesAt(data, 0, 16);
    var info := Info(header.value[0], header.value[1], header.value[2]);
    var body :- BodyAt(data, 16, info);
    Ok(Snapshot(info, body))
  }

  // ---------------------------------------------------------------- the readers, over a stream

  /** `KaitaiStream` over a byte string: the bytes and the current position. */
  class Stream {
    const data: seq<Byte>
    var pos: nat

    ghost predicate Valid()
      reads this
    {
      pos <= |data|
    }

    constructor(data: seq<Byte>)
      ensures Valid() && this.data == data && pos == 0
    {
      this.data := data;
      pos := 0;
    }

    /** `is_eof`. */
    predicate IsEof()
      reads this
    {
      pos >= |data|
    }

    /**
     * `read_bytes(n)`: the next `n` bytes, or `EndOfStream` when fewer are left, in
     * which case the stream is left at its end.
     */
    method ReadBytes(n: nat) returns (r: Result<seq<Byte>, ReadError>)
      requires Valid()
      modifies this
      ensures Valid() && Outcome(r, pos) == BytesAt(data, old(pos), n)
      ensures r.Err? ==> pos == |data|
    {
      if pos + n <= |data| {
        r := Ok(data[pos..pos + n]);
        pos := pos + n;
      } else {
        r := Err(EndOfStream);
        pos := |data|;
      }
    }

    /** `read_u1`. */
    method ReadU1() returns (r: Result<Byte, ReadError>)
      requires Valid()
      modifies this
      ensures Valid() && Outcome(r, pos) == UIntAt(data, old(pos), 1, true)
    {
      var b :- ReadBytes(1);
      return Ok(b[0]);
    }

    /** `read_u2le` … `read_u8be`. */
    method ReadUInt(width: nat, little: bool) returns (r: Result<nat, ReadError>)
      requires Valid()
      modifies this
      ensures Valid() && Outcome(r, pos) == UIntAt(data, old(pos), width, little)
    {
      var b :- ReadBytes(width);
      return Ok(Decode(b, little));
    }
  }

  /** A method's result and the stream position after it, in the shape of the functions above. */
  function Outcome<T>(r: Result<T, ReadError>, pos: nat): Result<Parsed<T>, ReadError> {
    match r
    case Ok(v) => Ok(Parsed(v, pos))
    case Err(e) => Err(e)
  }

  /** `acc` in front of the list a parse gives. */
  function Prefixed<T>(acc: seq<T>, r: Result<seq<T>, ReadError>): Result<seq<T>, ReadError> {
    match r
    case Ok(v) => Ok(acc + v)
    case Err(e) => Err(e)
  }

  /** `acc` in front of the list a positioned parse gives. */
  function PrefixedAt<T>(acc: seq<T>, r: Result<Parsed<seq<T>>, ReadError>): Result<Parsed<seq<T>>, ReadError> {
    match r
    case Ok(p) => Ok(Parsed(acc + p.value, p.next))
    case Err(e) => Err(e)
  }

  lemma PrefixedAtEmpty<T>(r: Result<Parsed<seq<T>>, ReadError>)
    ensures PrefixedAt([], r) == r
  {
    if r.Ok? {
      assert [] + r.value.value == r.value.value;
    }
  }

  lemma PrefixedEmpty<T>(r: Result<seq<T>, ReadError>)
    ensures Prefixed([], r) == r
  {
    if r.Ok? {
      assert [] + r.value == r.value;
    }
  }

  /** One turn of the `VarBinds` loop, on the functions. */
  lemma VarBindsStep(data: seq<Byte>, pos: nat, info: Info, little: bool, acc: seq<seq<Byte>>)
    requires pos < |data|
    ensures Prefixed(acc, VarBindsAt(data, pos, info, little)) ==
      match VarBindAt(data, pos, info, little)
      case Err(e) => Err(e)
      case Ok(vb) => Prefixed(acc + [vb.value], VarBindsAt(data, vb.next, info, little))
  {
    match VarBindAt(data, pos, info, little)
    case Err(e) =>
    case Ok(vb) =>
      match VarBindsAt(data, vb.next, info, little)
      case Err(e) =>
      case Ok(rest) =>
        assert acc + ([vb.value] + rest) == acc + [vb.value] + rest;
  }

  /** One turn of the `Suboids` loop, on the functions. */
  lemma SuboidsStep(raw: seq<Byte>, pos: nat, info: Info, little: bool, acc: seq<nat>)
    requires pos < |raw| && IsWidth(info.suboidSize)
    ensures Prefixed(acc, SuboidsAt(raw, pos, info, little)) ==
      match OidTAt(raw, pos, info, little)
      case Err(e) => Err(e)
      case Ok(a) => Prefixed(acc + [a.value], SuboidsAt(raw, a.next, info, little))
  {
    match OidTAt(raw, pos, info, little)
    case Err(e) =>
    case Ok(a) =>
      match SuboidsAt(raw, a.next, info, little)
      case Err(e) =>
      case Ok(rest) =>
        assert acc + ([a.value] + rest) == acc + [a.value] + rest;
  }

  /** One turn of the `RootOids` loop, on the functions. */
  lemma OidsStep(data: seq<Byte>, pos: nat, n: nat, info: Info, little: bool, acc: seq<seq<nat>>,
                 oid: seq<nat>, next: nat)
    requires n > 0 && OidAt(data, pos, info, little) == Ok(Parsed(oid, next))
    ensures PrefixedAt(acc, OidsAt(data, pos, n, info, little)) ==
            PrefixedAt(acc + [oid], OidsAt(data, next, n - 1, info, little))
  {
    match OidsAt(data, next, n - 1, info, little)
    case Err(e) =>
    case Ok(rest) =>
      assert acc + ([oid] + rest.value) == acc + [oid] + rest.value;
  }

  /** The turn of that loop that fails ends the whole list. */
  lemma OidsStop(data: seq<Byte>, pos: nat, n: nat, info: Info, little: bool, acc: seq<seq<nat>>)
    requires n > 0 && OidAt(data, pos, info, little).Err?
    ensures PrefixedAt(acc, OidsAt(data, pos, n, info, little)) == Err(OidAt(data, pos, info, little).error)
  {
  }

  method ReadSizeT(io: Stream, info: Info, little: bool) returns (r: Result<nat, ReadError>)
    requires io.Valid()
    modifies io
    ensures io.Valid() && Outcome(r, io.pos) == SizeTAt(io.data, old(io.pos), info, little)
  {
    if !IsWidth(info.sysSize) {
      return Err(WidthUnset);
    }
    r := io.ReadUInt(info.sysSize, little);
  }

  method ReadOidT(io: Stream, info: Info, little: bool) returns (r: Result<nat, ReadError>)
    requires io.Valid()
    modifies io
    ensures io.Valid() && Outcome(r, io.pos) == OidTAt(io.data, old(io.pos), info, little)
  {
    if !IsWidth(info.suboidSize) {
      return Err(WidthUnset);
    }
    r := io.ReadUInt(info.suboidSize, little);
  }

  method ReadAligned(io: Stream, info: Info) returns (r: Result<seq<Byte>, ReadError>)
    requires io.Valid()
    modifies io
    ensures io.Valid() && Outcome(r, io.pos) == AlignedAt(io.data, old(io.pos), info)
  {
    if info.sysSize == 0 {
      return Err(ZeroDivision);
    }
    r := io.ReadBytes(PadLength(io.pos, info.sysSize));
  }

  method ReadMetadata(io: Stream, info: Info, little: bool) returns (r: Result<string, ReadError>)
    requires io.Valid()
    modifies io
    ensures io.Valid() && Outcome(r, io.pos) == MetadataAt(io.data, old(io.pos), info, little)
  {
    var len :- ReadSizeT(io, info, little);
    var raw :- io.ReadBytes(len);
    var value := Utf8.Decode(raw);
    if value.None? {
      return Err(NotUtf8);
    }
    var pad :- ReadAligned(io, info);
    return Ok(value.value);
  }

  /** The loop of `Suboids`: arcs until the substream is exhausted. */
  method ReadSuboids(sub: Stream, info: Info, little: bool) returns (r: Result<seq<nat>, ReadError>)
    requires sub.Valid()
    modifies sub
    ensures sub.Valid() && r == SuboidsAt(sub.data, old(sub.pos), info, little)
  {
    ghost var start := sub.pos;
    var arcs := [];
    PrefixedEmpty(SuboidsAt(sub.data, start, info, little));
    while !sub.IsEof()
      invariant sub.Valid()
      invariant SuboidsAt(sub.data, start, info, little) == Prefixed(arcs, SuboidsAt(sub.data, sub.pos, info, little))
      decreases |sub.data| - sub.pos
    {
      if !IsWidth(info.suboidSize) {
        return Err(NoProgress);
      }
      SuboidsStep(sub.data, sub.pos, info, little, arcs);
      var arc :- ReadOidT(sub, info, little);
      arcs := arcs + [arc];
    }
    assert arcs + [] == arcs;
    return Ok(arcs);
  }

  method ReadOid(io: Stream, info: Info, little: bool) returns (r: Result<seq<nat>, ReadError>)
    requires io.Valid()
    modifies io
    ensures io.Valid() && Outcome(r, io.pos) == OidAt(io.data, old(io.pos), info, little)
  {
    var len :- ReadSizeT(io, info, little);
    r := ReadOidArcs(io, len, info, little);
  }

  /** `len // suboid_size` bytes as a substream of arcs, then padding on the outer stream. */
  method ReadOidArcs(io: Stream, len: nat, info: Info, little: bool) returns (r: Result<seq<nat>, ReadError>)
    requires io.Valid()
    modifies io
    ensures io.Valid() && Outcome(r, io.pos) == OidArcsAt(io.data, old(io.pos), len, info, little)
  {
    if info.suboidSize == 0 {
      return Err(ZeroDivision);
    }
    var raw :- io.ReadBytes(len / info.suboidSize);
    var sub := new Stream(raw);
    var arcs :- ReadSuboids(sub, info, little);
    var pad :- ReadAligned(io, info);
    return Ok(arcs);
  }

  /** `RootOids`: the count, the loop over it, then padding. */
  method ReadRootOids(io: Stream, info: Info, little: bool) returns (r: Result<seq<seq<nat>>, ReadError>)
    requires io.Valid()
    modifies io
    ensures io.Valid() && Outcome(r, io.pos) == RootOidsAt(io.data, old(io.pos), info, little)
  {
    var count :- ReadSizeT(io, info, little);
    var oids :- ReadOids(io, count, info, little);
    var pad :- ReadAligned(io, info);
    return Ok(oids);
  }

  /** The `for` loop of `RootOids`: `count` OIDs into the list. */
  method ReadOids(io: Stream, count: nat, info: Info, little: bool) returns (r: Result<seq<seq<nat>>, ReadError>)
    requires io.Valid()
    modifies io
    ensures io.Valid() && Outcome(r, io.pos) == OidsAt(io.data, old(io.pos), count, info, little)
  {
    ghost var whole := OidsAt(io.data, io.pos, count, info, little);
    var oids := [];
    var left := count;
    PrefixedAtEmpty(whole);
    while left > 0
      invariant io.Valid()
      invariant whole == PrefixedAt(oids, OidsAt(io.data, io.pos, left, info, little))
    {
      ghost var p := io.pos;
      var oid := ReadOid(io, info, little);
      if oid.Err? {
        OidsStop(io.data, p, left, info, little, oids);
        return Err(oid.error);
      }
      OidsStep(io.data, p, left, info, little, oids, oid.value, io.pos);
      oids := oids + [oid.value];
      left := left - 1;
    }
    assert oids + [] == oids;
    return Ok(oids);
  }

  method ReadVarBind(io: Stream, info: Info, little: bool) returns (r: Result<seq<Byte>, ReadError>)
    requires io.Valid()
    modifies io
    ensures io.Valid() && Outcome(r, io.pos) == VarBindAt(io.data, old(io.pos), info, little)
  {
    var len :- ReadSizeT(io, info, little);
    r := io.ReadBytes(len);
  }

  /** The loop of `VarBinds`: bindings until the end of the stream. */
  method ReadVarBinds(io: Stream, info: Info, little: bool) returns (r: Result<seq<seq<Byte>>, ReadError>)
    requires io.Valid()
    modifies io
    ensures io.Valid() && r == VarBindsAt(io.data, old(io.pos), info, little)
  {
    ghost var start := io.pos;
    var vbs := [];
    PrefixedEmpty(VarBindsAt(io.data, start, info, little));
    while !io.IsEof()
      invariant io.Valid()
      invariant VarBindsAt(io.data, start, info, little) == Prefixed(vbs, VarBindsAt(io.data, io.pos, info, little))
      decreases |io.data| - io.pos
    {
      ghost var p := io.pos;
      VarBindsStep(io.data, p, info, little, vbs);
      var vb :- ReadVarBind(io, info, little);
      VarBindAdvances(io.data, p, info, little);
      vbs := vbs + [vb];
    }
    assert vbs + [] == vbs;
    return Ok(vbs);
  }

  method ReadBody(io: Stream, info: Info) returns (r: Result<Body, ReadError>)
    requires io.Valid()
    modifies io
    ensures io.Valid() && r == BodyAt(io.data, old(io.pos), info)
  {
    if info.endianess != 0 && info.endianess != 1 {
      return Err(UndecidedEndianness);
    }
    var little := info.endianess == 0;
    var metadata :- ReadMetadata(io, info, little);
    var rootOids :- ReadRootOids(io, info, little);
    var varBinds :- ReadVarBinds(io, info, little);
    return Ok(Body(little, metadata, rootOids, varBinds));
  }

  /** `Info`: three `read_u1` from the header substream. */
  method ReadInfo(hs: Stream) returns (info: Info)
    requires hs.Valid() && |hs.data| == 16 && hs.pos == 0
    modifies hs
    ensures info == Info(hs.data[0], hs.data[1], hs.data[2])
  {
    var a := hs.ReadU1();
    var b := hs.ReadU1();
    var c := hs.ReadU1();
    info := Info(a.value, b.value, c.value);
  }

  /** `IpForwardMib`: the whole buffer. */
  method ReadSnapshot(data: seq<Byte>) returns (r: Result<Snapshot, ReadError>)
    ensures r == SnapshotOf(data)
  {
    var io := new Stream(data);
    var raw :- io.ReadBytes(16);
    var hs := new Stream(raw);
    var info := ReadInfo(hs);
    var body :- ReadBody(io, info);
    return Ok(Snapshot(info, body));
  }

  // ---------------------------------------------------------------- what the readers promise

  /**
   * `Aligned` leaves the stream on a multiple of `sys_size`, having skipped less than a
   * word. Every `Aligned` of a parse follows a `SizeT` of the same section, so the word
   * width is then one of 2, 4 and 8.
   */
  lemma AlignedLandsOnWord(data: seq<Byte>, pos: nat, info: Info)
    requires IsWidth(info.sysSize) && AlignedAt(data, pos, info).Ok?
    ensures AlignedAt(data, pos, info).value.next % info.sysSize == 0
    ensures pos <= AlignedAt(data, pos, info).value.next < pos + info.sysSize
  {
    PadAligns(pos, info.sysSize);
  }

  lemma PadAligns(pos: nat, w: nat)
    requires IsWidth(w)
    ensures (pos + PadLength(pos, w)) % w == 0
  {
    var k := PadLength(pos, w);
    var q := (w - pos) / w;
    assert w - pos == w * q + k;
    if w == 2 {
      assert pos + k == 2 * (1 - q);
    } else if w == 4 {
      assert pos + k == 4 * (1 - q);
    } else {
      assert pos + k == 8 * (1 - q);
    }
  }

  /** Dividing by a width undoes multiplying by it. */
  lemma MulDivWidth(x: nat, a: nat)
    requires IsWidth(a)
    ensures (x * a) / a == x
  {
    if a == 2 {
      assert x * a == 2 * x;
    } else if a == 4 {
      assert x * a == 4 * x;
    } else {
      assert x * a == 8 * x;
    }
  }

  /**
   * The writer's header is not what this reader expects: the writer puts the byte order
   * first and the word and arc sizes (8) after it, so the reader finds 8 where it looks
   * for the byte order and gives up, whatever follows the header.
   */
  lemma WriterHeaderUndecided(little: bool, rest: seq<Byte>)
    ensures SnapshotOf(Layout.Header(little) + rest) == Err(UndecidedEndianness)
  {
    var data := Layout.Header(little) + rest;
    assert data[..16] == Layout.Header(little);
  }

  // ---------------------------------------------------------------- an encoder for the format

  /**
   * `e` sits in `data` at `pos`, stated byte by byte so that a proof unfolds it no
   * further than it needs; `AtSlice` gives the same fact as a slice.
   */
  predicate At(data: seq<Byte>, pos: nat, e: seq<Byte>)
    decreases |e|
  {
    pos + |e| <= |data| && (e == [] || (data[pos] == e[0] && At(data, pos + 1, e[1..])))
  }

  /** `e` is what is left of `data` from `pos`. */
  predicate Rest(data: seq<Byte>, pos: nat, e: seq<Byte>) {
    pos + |e| == |data| && At(data, pos, e)
  }

  lemma {:induction false} AtSlice(data: seq<Byte>, pos: nat, e: seq<Byte>)
    ensures At(data, pos, e) <==> pos + |e| <= |data| && data[pos..pos + |e|] == e
    decreases |e|
  {
    if e != [] && pos + |e| <= |data| {
      AtSlice(data, pos + 1, e[1..]);
      assert data[pos..pos + |e|] == [data[pos]] + data[pos + 1..pos + |e|];
      assert e == [e[0]] + e[1..];
    }
  }

  /** What sits at `pos` as `a + b` is `a` at `pos` and `b` at `mid`, just after `a`. */
  lemma AtSplit(data: seq<Byte>, pos: nat, a: seq<Byte>, b: seq<Byte>, mid: nat)
    requires At(data, pos, a + b) && mid == pos + |a|
    ensures At(data, pos, a) && At(data, mid, b)
  {
    AtSlice(data, pos, a + b);
    AtSlice(data, pos, a);
    AtSlice(data, mid, b);
    assert data[pos..pos + |a|] == data[pos..pos + |a| + |b|][..|a|];
    assert data[pos + |a|..pos + |a| + |b|] == data[pos..pos + |a| + |b|][|a|..];
  }

  lemma RestSplit(data: seq<Byte>, pos: nat, a: seq<Byte>, b: seq<Byte>, mid: nat)
    requires Rest(data, pos, a + b) && mid == pos + |a|
    ensures At(data, pos, a) && Rest(data, mid, b)
  {
    AtSplit(data, pos, a, b, mid);
  }

  /** A byte string is all that is left of itself from the start. */
  lemma RestWhole(data: seq<Byte>)
    ensures Rest(data, 0, data)
  {
    AtSlice(data, 0, data);
    assert data[0..|data|] == data;
  }

  /** The padding the writer of this format puts after a section that ends at `pos`. */
  function Pad(pos: nat, info: Info): seq<Byte>
    requires info.sysSize > 0
  {
    Zeros(PadLength(pos, info.sysSize))
  }

  /** A word of `sys_size` bytes holding `n`, a payload, then padding to the next word. */
  function Framed(n: nat, payload: seq<Byte>, pos: nat, info: Info, little: bool): seq<Byte>
    requires IsWidth(info.sysSize)
  {
    Encode(n, info.sysSize, little) + payload + Pad(pos + info.sysSize + |payload|, info)
  }

  /** The byte count, the UTF-8 bytes, then padding: the shape of `Metadata`. */
  function EncodeMetadata(s: string, pos: nat, info: Info, little: bool): seq<Byte>
    requires IsWidth(info.sysSize)
  {
    var b := Utf8.Encode(s);
    Framed(|b|, b, pos, info, little)
  }

  /** The arcs of an OID, `suboid_size` bytes each. */
  function EncodeArcs(arcs: seq<nat>, info: Info, little: bool): seq<Byte> {
    if arcs == [] then [] else Encode(arcs[0], info.suboidSize, little) + EncodeArcs(arcs[1..], info, little)
  }

  /**
   * One OID as `Oid` reads it: since the reader takes `len // suboid_size` bytes of arcs,
   * the length word holds the arc bytes times the arc width.
   */
  function EncodeOid(arcs: seq<nat>, pos: nat, info: Info, little: bool): seq<Byte>
    requires IsWidth(info.sysSize)
  {
    var raw := EncodeArcs(arcs, info, little);
    Framed(|raw| * info.suboidSize, raw, pos, info, little)
  }

  /** OIDs one after the other from `pos`. */
  function EncodeOids(oids: seq<seq<nat>>, pos: nat, info: Info, little: bool): seq<Byte>
    requires IsWidth(info.sysSize)
    decreases |oids|
  {
    if oids == [] then []
    else
      var e := EncodeOid(oids[0], pos, info, little);
      e + EncodeOids(oids[1..], pos + |e|, info, little)
  }

  /** The count, the OIDs, then padding: the shape of `RootOids`. */
  function EncodeRootOids(oids: seq<seq<nat>>, pos: nat, info: Info, little: bool): seq<Byte>
    requires IsWidth(info.sysSize)
  {
    var e := EncodeOids(oids, pos + info.sysSize, info, little);
    Framed(|oids|, e, pos, info, little)
  }

  /** Length-prefixed bindings to the end: the shape of `VarBinds`. */
  function EncodeVarBinds(vbs: seq<seq<Byte>>, info: Info, little: bool): seq<Byte>
    requires IsWidth(info.sysSize)
  {
    if vbs == [] then []
    else Encode(|vbs[0]|, info.sysSize, little) + vbs[0] + EncodeVarBinds(vbs[1..], info, little)
  }

  function EncodeBody(b: Body, info: Info): seq<Byte>
    requires IsWidth(info.sysSize)
  {
    var m := EncodeMetadata(b.metadata, 16, info, b.little);
    var r := EncodeRootOids(b.rootOids, 16 + |m|, info, b.little);
    m + r + EncodeVarBinds(b.varBinds, info, b.little)
  }

  /** The whole buffer: the three header bytes, thirteen zeros, then the body. */
  function EncodeSnapshot(s: Snapshot): seq<Byte>
    requires IsWidth(s.header.sysSize)
  {
    [s.header.sysSize, s.header.suboidSize, s.header.endianess] + Zeros(13) + EncodeBody(s.body, s.header)
  }

  /** An OID whose arcs fit the arc width and whose length word fits the word width. */
  predicate OidEncodable(arcs: seq<nat>, info: Info) {
    && (forall k :: 0 <= k < |arcs| ==> arcs[k] < Pow256(info.suboidSize))
    && ArcBytes(|arcs|, info) * info.suboidSize < Pow256(info.sysSize)
  }

  /** Every OID of a list is encodable, stated one OID at a time. */
  predicate OidsEncodable(oids: seq<seq<nat>>, info: Info)
    decreases |oids|
  {
    oids == [] || (OidEncodable(oids[0], info) && OidsEncodable(oids[1..], info))
  }

  lemma {:induction false} OidsEncodableEach(oids: seq<seq<nat>>, info: Info)
    requires forall k :: 0 <= k < |oids| ==> OidEncodable(oids[k], info)
    ensures OidsEncodable(oids, info)
    decreases |oids|
  {
    if oids != [] {
      assert OidEncodable(oids[0], info);
      forall k | 0 <= k < |oids| - 1
        ensures OidEncodable(oids[1..][k], info)
      {
        assert oids[1..][k] == oids[k + 1];
      }
      OidsEncodableEach(oids[1..], info);
    }
  }

  /** The bytes `n` arcs take. */
  function ArcBytes(n: nat, info: Info): nat {
    if n == 0 then 0 else ArcBytes(n - 1, info) + info.suboidSize
  }

  lemma {:induction false} ArcsLength(arcs: seq<nat>, info: Info, little: bool)
    ensures |EncodeArcs(arcs, info, little)| == ArcBytes(|arcs|, info)
    decreases |arcs|
  {
    if arcs != [] {
      ArcsLength(arcs[1..], info, little);
    }
  }

  /** A snapshot the encoder can write: known widths and byte order, and every number fits. */
  predicate Encodable(s: Snapshot) {
    var info := s.header;
    && IsWidth(info.sysSize) && IsWidth(info.suboidSize)
    && (info.endianess == 0 || info.endianess == 1) && s.body.little == (info.endianess == 0)
    && |Utf8.Encode(s.body.metadata)| < Pow256(info.sysSize)
    && |s.body.rootOids| < Pow256(info.sysSize)
    && (forall k :: 0 <= k < |s.body.rootOids| ==> OidEncodable(s.body.rootOids[k], info))
    && (forall k :: 0 <= k < |s.body.varBinds| ==> |s.body.varBinds[k]| < Pow256(info.sysSize))
  }

  // ---------------------------------------------------------------- round trips

  lemma {:induction false} BytesRoundTrip(data: seq<Byte>, pos: nat, e: seq<Byte>, next: nat)
    requires At(data, pos, e) && next == pos + |e|
    ensures BytesAt(data, pos, |e|) == Ok(Parsed(e, next))
  {
    AtSlice(data, pos, e);
  }

  lemma {:induction false} UIntRoundTrip(data: seq<Byte>, pos: nat, n: nat, width: nat, little: bool, e: seq<Byte>, next: nat)
    requires n < Pow256(width) && e == Encode(n, width, little) && At(data, pos, e) && next == pos + |e|
    ensures UIntAt(data, pos, width, little) == Ok(Parsed(n, next))
  {
    BytesRoundTrip(data, pos, e, next);
    DecodeEncode(n, width, little);
  }

  lemma {:induction false} PadRoundTrip(data: seq<Byte>, pos: nat, info: Info, e: seq<Byte>, next: nat)
    requires info.sysSize > 0 && e == Pad(pos, info) && At(data, pos, e) && next == pos + |e|
    ensures AlignedAt(data, pos, info) == Ok(Parsed(e, next))
  {
    BytesRoundTrip(data, pos, e, next);
  }

  /**
   * A framed payload read back: the length word gives `n`, the payload follows it, and
   * the padding after it is skipped. The positions are named `p` (after the word), `q`
   * (after the payload) and `r` (after the padding).
   */
  lemma {:induction false} FramedRoundTrip(data: seq<Byte>, pos: nat, n: nat, payload: seq<Byte>, info: Info, little: bool,
                                           all: seq<Byte>, next: nat)
    returns (p: nat, q: nat, r: nat)
    requires IsWidth(info.sysSize) && n < Pow256(info.sysSize)
    requires all == Framed(n, payload, pos, info, little) && At(data, pos, all) && next == pos + |all|
    ensures p == pos + info.sysSize && q == p + |payload| && r == next
    ensures SizeTAt(data, pos, info, little) == Ok(Parsed(n, p))
    ensures At(data, p, payload)
    ensures AlignedAt(data, q, info) == Ok(Parsed(Pad(q, info), r))
  {
    var w := Encode(n, info.sysSize, little);
    p := pos + |w|;
    q := p + |payload|;
    var pad := Pad(q, info);
    r := q + |pad|;
    var wp := w + payload;
    assert all == wp + pad;
    AtSplit(data, pos, wp, pad, q);
    AtSplit(data, pos, w, payload, p);
    UIntRoundTrip(data, pos, n, info.sysSize, little, w, p);
    PadRoundTrip(data, q, info, pad, r);
  }

  /** `Metadata` from the results of its three reads. */
  lemma {:induction false} MetadataJoins(data: seq<Byte>, pos: nat, info: Info, little: bool, n: nat, p: nat, b: seq<Byte>, s: string, q: nat, pad: seq<Byte>, r: nat)
    requires SizeTAt(data, pos, info, little) == Ok(Parsed(n, p))
    requires BytesAt(data, p, n) == Ok(Parsed(b, q)) && Utf8.Decode(b) == Some(s)
    requires AlignedAt(data, q, info) == Ok(Parsed(pad, r))
    ensures MetadataAt(data, pos, info, little) == Ok(Parsed(s, r))
  {
  }

  lemma {:induction false} MetadataRoundTrip(data: seq<Byte>, pos: nat, s: string, info: Info, little: bool, e: seq<Byte>, next: nat)
    requires IsWidth(info.sysSize) && |Utf8.Encode(s)| < Pow256(info.sysSize)
    requires e == EncodeMetadata(s, pos, info, little) && At(data, pos, e) && next == pos + |e|
    ensures MetadataAt(data, pos, info, little) == Ok(Parsed(s, next))
  {
    var b := Utf8.Encode(s);
    Utf8.DecodeEncode(s);
    var p, q, r := FramedRoundTrip(data, pos, |b|, b, info, little, e, next);
    BytesRoundTrip(data, p, b, q);
    var pad := Pad(q, info);
    MetadataJoins(data, pos, info, little, |b|, p, b, s, q, pad, r);
  }

  /** `Suboids` from one arc and the arcs after it. */
  lemma {:induction false} SuboidsJoins(raw: seq<Byte>, pos: nat, info: Info, little: bool, arc: nat, p: nat, rest: seq<nat>)
    requires pos < |raw| && IsWidth(info.suboidSize)
    requires OidTAt(raw, pos, info, little) == Ok(Parsed(arc, p)) && SuboidsAt(raw, p, info, little) == Ok(rest)
    ensures SuboidsAt(raw, pos, info, little) == Ok([arc] + rest)
  {
  }

  lemma {:induction false} SuboidsRoundTrip(raw: seq<Byte>, pos: nat, arcs: seq<nat>, info: Info, little: bool)
    requires IsWidth(info.suboidSize) && forall k :: 0 <= k < |arcs| ==> arcs[k] < Pow256(info.suboidSize)
    requires Rest(raw, pos, EncodeArcs(arcs, info, little))
    ensures SuboidsAt(raw, pos, info, little) == Ok(arcs)
    decreases |arcs|
  {
    if arcs != [] {
      var e := Encode(arcs[0], info.suboidSize, little);
      var p := pos + |e|;
      var tail := EncodeArcs(arcs[1..], info, little);
      RestSplit(raw, pos, e, tail, p);
      UIntRoundTrip(raw, pos, arcs[0], info.suboidSize, little, e, p);
      SuboidsRoundTrip(raw, p, arcs[1..], info, little);
      SuboidsJoins(raw, pos, info, little, arcs[0], p, arcs[1..]);
      assert [arcs[0]] + arcs[1..] == arcs;
    }
  }

  /** `Oid` from the results of its four reads. */
  lemma {:induction false} OidJoins(data: seq<Byte>, pos: nat, info: Info, little: bool, len: nat, p: nat, raw: seq<Byte>, arcs: seq<nat>, q: nat, pad: seq<Byte>, r: nat)
    requires info.suboidSize != 0
    requires SizeTAt(data, pos, info, little) == Ok(Parsed(len, p))
    requires BytesAt(data, p, len / info.suboidSize) == Ok(Parsed(raw, q)) && SuboidsAt(raw, 0, info, little) == Ok(arcs)
    requires AlignedAt(data, q, info) == Ok(Parsed(pad, r))
    ensures OidAt(data, pos, info, little) == Ok(Parsed(arcs, r))
  {
  }

  /** The arc bytes of an encodable OID: their length word fits, and they read back as the arcs. */
  lemma {:induction false} ArcsRoundTrip(arcs: seq<nat>, info: Info, little: bool, raw: seq<Byte>, len: nat)
    requires IsWidth(info.sysSize) && IsWidth(info.suboidSize) && OidEncodable(arcs, info)
    requires raw == EncodeArcs(arcs, info, little) && len == |raw| * info.suboidSize
    ensures len < Pow256(info.sysSize) && len / info.suboidSize == |raw|
    ensures SuboidsAt(raw, 0, info, little) == Ok(arcs)
  {
    ArcsLength(arcs, info, little);
    MulDivWidth(|raw|, info.suboidSize);
    RestWhole(raw);
    SuboidsRoundTrip(raw, 0, arcs, info, little);
  }

  lemma {:induction false} OidRoundTrip(data: seq<Byte>, pos: nat, arcs: seq<nat>, info: Info, little: bool, e: seq<Byte>, next: nat)
    requires IsWidth(info.sysSize) && IsWidth(info.suboidSize) && OidEncodable(arcs, info)
    requires e == EncodeOid(arcs, pos, info, little) && At(data, pos, e) && next == pos + |e|
    ensures OidAt(data, pos, info, little) == Ok(Parsed(arcs, next))
  {
    var raw := EncodeArcs(arcs, info, little);
    var len := |raw| * info.suboidSize;
    ArcsRoundTrip(arcs, info, little, raw, len);
    var p, q, r := FramedRoundTrip(data, pos, len, raw, info, little, e, next);
    BytesRoundTrip(data, p, raw, q);
    var pad := Pad(q, info);
    OidJoins(data, pos, info, little, len, p, raw, arcs, q, pad, r);
  }

  /** A list of OIDs from its first OID and the OIDs after it. */
  lemma {:induction false} OidsJoins(data: seq<Byte>, pos: nat, oids: seq<seq<nat>>, info: Info, little: bool, p: nat, r: nat)
    requires oids != []
    requires OidAt(data, pos, info, little) == Ok(Parsed(oids[0], p))
    requires OidsAt(data, p, |oids[1..]|, info, little) == Ok(Parsed(oids[1..], r))
    ensures OidsAt(data, pos, |oids|, info, little) == Ok(Parsed(oids, r))
  {
    assert |oids| - 1 == |oids[1..]|;
    assert [oids[0]] + oids[1..] == oids;
  }

  lemma {:induction false} OidsRoundTrip(data: seq<Byte>, pos: nat, oids: seq<seq<nat>>, info: Info, little: bool, all: seq<Byte>, next: nat)
    requires IsWidth(info.sysSize) && IsWidth(info.suboidSize)
    requires OidsEncodable(oids, info)
    requires all == EncodeOids(oids, pos, info, little) && At(data, pos, all) && next == pos + |all|
    ensures OidsAt(data, pos, |oids|, info, little) == Ok(Parsed(oids, next))
    decreases |oids|
  {
    if oids == [] {
      assert all == [];
    } else {
      var e := EncodeOid(oids[0], pos, info, little);
      var p := pos + |e|;
      var tail := EncodeOids(oids[1..], p, info, little);
      assert all == e + tail;
      AtSplit(data, pos, e, tail, p);
      OidsRoundTrip(data, p, oids[1..], info, little, tail, next);
      OidRoundTrip(data, pos, oids[0], info, little, e, p);
      OidsJoins(data, pos, oids, info, little, p, next);
    }
  }

  /** `RootOids` from the results of its three reads. */
  lemma {:induction false} RootOidsJoins(data: seq<Byte>, pos: nat, info: Info, little: bool, n: nat, p: nat, oids: seq<seq<nat>>, q: nat, pad: seq<Byte>, r: nat)
    requires SizeTAt(data, pos, info, little) == Ok(Parsed(n, p))
    requires OidsAt(data, p, n, info, little) == Ok(Parsed(oids, q))
    requires AlignedAt(data, q, info) == Ok(Parsed(pad, r))
    ensures RootOidsAt(data, pos, info, little) == Ok(Parsed(oids, r))
  {
  }

  lemma {:induction false} RootOidsRoundTrip(data: seq<Byte>, pos: nat, oids: seq<seq<nat>>, info: Info, little: bool, all: seq<Byte>, next: nat)
    requires IsWidth(info.sysSize) && IsWidth(info.suboidSize) && |oids| < Pow256(info.sysSize)
    requires OidsEncodable(oids, info)
    requires all == EncodeRootOids(oids, pos, info, little) && At(data, pos, all) && next == pos + |all|
    ensures RootOidsAt(data, pos, info, little) == Ok(Parsed(oids, next))
  {
    var n := |oids|;
    var start := pos + info.sysSize;
    var e := EncodeOids(oids, start, info, little);
    var p, q, r := FramedRoundTrip(data, pos, n, e, info, little, all, next);
    OidsRoundTrip(data, start, oids, info, little, e, q);
    var pad := Pad(q, info);
    RootOidsJoins(data, pos, info, little, n, p, oids, q, pad, r);
  }

  /** `VarBinds` from one binding and the bindings after it. */
  lemma {:induction false} VarBindsJoins(data: seq<Byte>, pos: nat, info: Info, little: bool, n: nat, p: nat, vb: seq<Byte>, q: nat, rest: seq<seq<Byte>>)
    requires pos < |data|
    requires SizeTAt(data, pos, info, little) == Ok(Parsed(n, p)) && BytesAt(data, p, n) == Ok(Parsed(vb, q))
    requires VarBindsAt(data, q, info, little) == Ok(rest)
    ensures VarBindsAt(data, pos, info, little) == Ok([vb] + rest)
  {
  }

  lemma {:induction false} VarBindsRoundTrip(data: seq<Byte>, pos: nat, vbs: seq<seq<Byte>>, info: Info, little: bool)
    requires IsWidth(info.sysSize) && forall k :: 0 <= k < |vbs| ==> |vbs[k]| < Pow256(info.sysSize)
    requires Rest(data, pos, EncodeVarBinds(vbs, info, little))
    ensures VarBindsAt(data, pos, info, little) == Ok(vbs)
    decreases |vbs|
  {
    if vbs != [] {
      var vb, rest := vbs[0], vbs[1..];
      var n := |vb|;
      var len := Encode(n, info.sysSize, little);
      var p := pos + |len|;
      var q := p + n;
      var head := len + vb;
      var tail := EncodeVarBinds(rest, info, little);
      assert EncodeVarBinds(vbs, info, little) == head + tail;
      RestSplit(data, pos, head, tail, q);
      AtSplit(data, pos, len, vb, p);
      UIntRoundTrip(data, pos, n, info.sysSize, little, len, p);
      BytesRoundTrip(data, p, vb, q);
      assert forall k :: 0 <= k < |rest| ==> |rest[k]| < Pow256(info.sysSize) by {
        forall k | 0 <= k < |rest| ensures |rest[k]| < Pow256(info.sysSize) {
          assert rest[k] == vbs[k + 1];
        }
      }
      VarBindsRoundTrip(data, q, rest, info, little);
      VarBindsJoins(data, pos, info, little, n, p, vb, q, rest);
      assert [vb] + rest == vbs;
    }
  }

  /** `Body` from the results of its three sections. */
  lemma {:induction false} BodyJoins(data: seq<Byte>, pos: nat, info: Info, little: bool, meta: string, p: nat, roots: seq<seq<nat>>, q: nat, vbs: seq<seq<Byte>>)
    requires (info.endianess == 0 || info.endianess == 1) && little == (info.endianess == 0)
    requires MetadataAt(data, pos, info, little) == Ok(Parsed(meta, p))
    requires RootOidsAt(data, p, info, little) == Ok(Parsed(roots, q))
    requires VarBindsAt(data, q, info, little) == Ok(vbs)
    ensures BodyAt(data, pos, info) == Ok(Body(little, meta, roots, vbs))
  {
  }

  /**
   * A body the encoder wrote, from byte 16 to the end, is read back as it was: `m`, `r`
   * and `v` are its three sections, which begin at 16, `p` and `q`.
   */
  lemma {:induction false} BodyRoundTrip(data: seq<Byte>, b: Body, info: Info, m: seq<Byte>, p: nat, r: seq<Byte>, q: nat, v: seq<Byte>)
    requires IsWidth(info.sysSize) && IsWidth(info.suboidSize)
    requires (info.endianess == 0 || info.endianess == 1) && b.little == (info.endianess == 0)
    requires |Utf8.Encode(b.metadata)| < Pow256(info.sysSize) && |b.rootOids| < Pow256(info.sysSize)
    requires OidsEncodable(b.rootOids, info)
    requires forall k :: 0 <= k < |b.varBinds| ==> |b.varBinds[k]| < Pow256(info.sysSize)
    requires m == EncodeMetadata(b.metadata, 16, info, b.little) && At(data, 16, m) && p == 16 + |m|
    requires r == EncodeRootOids(b.rootOids, p, info, b.little) && At(data, p, r) && q == p + |r|
    requires v == EncodeVarBinds(b.varBinds, info, b.little) && Rest(data, q, v)
    ensures BodyAt(data, 16, info) == Ok(b)
  {
    var little := b.little;
    MetadataRoundTrip(data, 16, b.metadata, info, little, m, p);
    RootOidsRoundTrip(data, p, b.rootOids, info, little, r, q);
    VarBindsRoundTrip(data, q, b.varBinds, info, little);
    BodyJoins(data, 16, info, little, b.metadata, p, b.rootOids, q, b.varBinds);
  }

  /** The three sections of an encoded body, where they begin and what they hold. */
  lemma {:induction false} BodySections(data: seq<Byte>, b: Body, info: Info)
    returns (m: seq<Byte>, p: nat, r: seq<Byte>, q: nat, v: seq<Byte>)
    requires IsWidth(info.sysSize) && Rest(data, 16, EncodeBody(b, info))
    ensures m == EncodeMetadata(b.metadata, 16, info, b.little) && At(data, 16, m) && p == 16 + |m|
    ensures r == EncodeRootOids(b.rootOids, p, info, b.little) && At(data, p, r) && q == p + |r|
    ensures v == EncodeVarBinds(b.varBinds, info, b.little) && Rest(data, q, v)
  {
    m := EncodeMetadata(b.metadata, 16, info, b.little);
    p := 16 + |m|;
    r := EncodeRootOids(b.rootOids, p, info, b.little);
    q := p + |r|;
    v := EncodeVarBinds(b.varBinds, info, b.little);
    var mr := m + r;
    assert EncodeBody(b, info) == mr + v;
    RestSplit(data, 16, mr, v, q);
    AtSplit(data, 16, m, r, p);
  }

  /** `IpForwardMib` from the header bytes and the body read after them. */
  lemma {:induction false} SnapshotJoins(data: seq<Byte>, info: Info, body: Body)
    requires 16 <= |data| && info == Info(data[0], data[1], data[2])
    requires BodyAt(data, 16, info) == Ok(body)
    ensures SnapshotOf(data) == Ok(Snapshot(info, body))
  {
  }

  /** Every snapshot the encoder can write is read back as it was. */
  lemma {:induction false} SnapshotRoundTrip(s: Snapshot)
    requires Encodable(s)
    ensures SnapshotOf(EncodeSnapshot(s)) == Ok(s)
  {
    var info := s.header;
    var data := EncodeSnapshot(s);
    var head := [info.sysSize, info.suboidSize, info.endianess] + Zeros(13);
    var body := EncodeBody(s.body, info);
    assert data == head + body;
    assert |head| == 16;
    RestWhole(data);
    RestSplit(data, 0, head, body, 16);
    var m, p, r, q, v := BodySections(data, s.body, info);
    OidsEncodableEach(s.body.rootOids, info);
    BodyRoundTrip(data, s.body, info, m, p, r, q, v);
    assert data[0] == info.sysSize && data[1] == info.suboidSize && data[2] == info.endianess;
    SnapshotJoins(data, info, s.body);
  }
}
