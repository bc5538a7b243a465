/**
 * The results buffer the writer side produces: a byte vector shared by a session and its
 * collection heads, grown by `resize` (which fills with zeros) and filled by `memcpy`.
 * This module gives the buffer operations and the byte layout of each section: the
 * 16-byte header, the metadata, the root-OID list and one record per accepted binding.
 */
module Layout {
  import opened Wrappers
  import opened ObjectIdentities
  import opened Bytes

  /** `s` with the bytes `b` copied over it from offset `pos`: what `memcpy` does. */
  function Overwrite(s: seq<Byte>, pos: nat, b: seq<Byte>): (r: seq<Byte>)
    requires pos + |b| <= |s|
    ensures |r| == |s|
    ensures r[..pos] == s[..pos] && r[pos..pos + |b|] == b && r[pos + |b|..] == s[pos + |b|..]
  {
    s[..pos] + b + s[pos + |b|..]
  }

  /** `std::vector::resize`: cut to `n` bytes, or extended with zeros to `n` bytes. */
  function Resized(s: seq<Byte>, n: nat): (r: seq<Byte>)
    ensures |r| == n
    ensures n <= |s| ==> r == s[..n]
    ensures n > |s| ==> r[..|s|] == s && forall i :: |s| <= i < n ==> r[i] == 0
  {
    if n <= |s| then s[..n] else s + Zeros(n - |s|)
  }

  /** The shared `std::vector<uint8_t>` of results. */
  class ResultBuffer {
    var bytes: seq<Byte>

    constructor()
      ensures bytes == []
    {
      bytes := [];
    }

    method Resize(n: nat)
      modifies this
      ensures bytes == Resized(old(bytes), n)
    {
      bytes := Resized(bytes, n);
    }

    method Write(pos: nat, b: seq<Byte>)
      requires pos + |b| <= |bytes|
      modifies this
      ensures bytes == Overwrite(old(bytes), pos, b)
    {
      bytes := Overwrite(bytes, pos, b);
    }

    /**
     * A `memcpy` into room that `resize` has just zeroed, right after the `done` bytes:
     * the copied bytes follow them and the rest of the room stays zero.
     */
    method Fill(pos: nat, ghost done: seq<Byte>, b: seq<Byte>, ghost room: nat)
      requires bytes == done + Zeros(room) && pos == |done| && |b| <= room
      modifies this
      ensures bytes == done + b + Zeros(room - |b|)
    {
      Write(pos, b);
      WriteOverZeros(done, b, room);
    }

    /** The same for a field in a slot of `SYS_ALIGN` bytes, so the field is padded. */
    method FillPadded(pos: nat, ghost done: seq<Byte>, b: seq<Byte>, ghost room: nat)
      requires bytes == done + Zeros(room) && pos == |done| && SysAlign(|b|) <= room
      modifies this
      ensures bytes == done + Padded(b) + Zeros(room - SysAlign(|b|))
    {
      Fill(pos, done, b, room);
      PaddedSplitsZeros(done, b, room);
    }

    /** The results header: `resize(HEADER_BYTES)`, then the byte order, word size and arc size. */
    method WriteHeader(little: bool)
      requires bytes == []
      modifies this
      ensures bytes == Header(little)
    {
      Resize(16);
      Set(0, EndianByte(little));
      Set(1, WORD);
      Set(2, WORD);
      assert bytes == Header(little);
    }

    /** A size value in a word of its own at the back. */
    method AppendWord(n: nat, little: bool)
      modifies this
      ensures bytes == old(bytes) + Word(n, little)
    {
      var pos := |bytes|;
      ghost var a := bytes;
      Resize(pos + 8);
      Fill(pos, a, Word(n, little), 8);
      assert a + Word(n, little) + Zeros(0) == a + Word(n, little);
    }

    /** The metadata: the length of the request id (0 without one) and its padded bytes. */
    method AppendMetadata(reqId: Option<seq<Byte>>, little: bool)
      modifies this
      ensures bytes == old(bytes) + Metadata(reqId.GetOr([]), little)
    {
      var pos := |bytes|;
      ghost var a := bytes;
      var size := if reqId.Some? then |reqId.value| else 0;
      Resize(pos + 8 + SysAlign(size));
      Fill(pos, a, Word(size, little), 8 + SysAlign(size));
      if reqId.Some? {
        FillPadded(pos + 8, a + Word(size, little), reqId.value, SysAlign(size));
      } else {
        assert Padded([]) == [];
      }
      JoinFilled(a, Word(size, little), Padded(reqId.GetOr([])));
    }

    /** One root OID of the header: its arc count, then its arcs. */
    method AppendOidBlock(o: Oid, little: bool)
      modifies this
      ensures bytes == old(bytes) + OidBlock(o, little)
    {
      var pos := |bytes|;
      ghost var a := bytes;
      var w, arcs := Word(|o|, little), ArcBytes(o, little);
      WordMultiple(|o|);
      Resize(pos + 8 + SysAlign(|o| * 8));
      Fill(pos, a, w, 8 + |arcs|);
      Fill(pos + 8, a + w, arcs, |arcs|);
      JoinFilled(a, w, arcs);
    }

    /** The fixed 40 bytes of a record, copied field by field into zeroed room. */
    method FillRecordHead(pos: nat, ghost done: seq<Byte>, size: nat, timestamp: nat, rootOidIndex: nat,
                          valueType: Byte, indexLength: nat, little: bool, ghost room: nat)
      requires bytes == done + Zeros(room) && pos == |done| && 40 <= room
      modifies this
      ensures bytes == done + RecordHead(size, timestamp, rootOidIndex, valueType, indexLength, little) + Zeros(room - 40)
    {
      var w0, w1, w2, w4 := Word(size, little), Word(timestamp, little), Word(rootOidIndex, little), Word(indexLength, little);
      Fill(pos, done, w0, room);
      Fill(pos + 8, done + w0, w1, room - 8);
      Fill(pos + 16, done + w0 + w1, w2, room - 16);
      FillPadded(pos + 24, done + w0 + w1 + w2, [valueType], room - 24);
      Fill(pos + 32, done + w0 + w1 + w2 + Padded([valueType]), w4, room - 32);
      assert done + w0 + w1 + w2 + Padded([valueType]) + w4 == done + (w0 + w1 + w2 + Padded([valueType]) + w4);
    }

    /** The value length and the padded value that close a record. */
    method FillRecordTail(pos: nat, ghost done: seq<Byte>, value: seq<Byte>, little: bool, ghost room: nat)
      requires bytes == done + Zeros(room) && pos == |done| && 8 + SysAlign(|value|) <= room
      modifies this
      ensures bytes == done + RecordTail(value, little) + Zeros(room - 8 - SysAlign(|value|))
    {
      var w := Word(|value|, little);
      Fill(pos, done, w, room);
      FillPadded(pos + 8, done + w, value, room - 8);
      assert done + w + Padded(value) == done + (w + Padded(value));
    }

    /** `(*results)[i] = v`. */
    method Set(i: nat, v: Byte)
      requires i < |bytes|
      modifies this
      ensures bytes == old(bytes)[i := v]
    {
      bytes := bytes[i := v];
    }
  }

  /** Two fields that fill the room after `a` exactly are appended to `a` together. */
  lemma JoinFilled(a: seq<Byte>, b: seq<Byte>, c: seq<Byte>)
    ensures a + b + c + Zeros(0) == a + (b + c)
  {
    assert Zeros(0) == [];
  }

  /** Writing over freshly zeroed room: the bytes land right after what was there. */
  lemma WriteOverZeros(a: seq<Byte>, b: seq<Byte>, m: nat)
    requires |b| <= m
    ensures Overwrite(a + Zeros(m), |a|, b) == a + b + Zeros(m - |b|)
  {
    var s := a + Zeros(m);
    assert s[..|a|] == a;
    assert s[|a| + |b|..] == Zeros(m - |b|);
  }

  /** A field of `|b|` bytes in a slot of `SYS_ALIGN(|b|)` bytes is the padded field. */
  lemma PaddedSplitsZeros(a: seq<Byte>, b: seq<Byte>, m: nat)
    requires SysAlign(|b|) <= m
    ensures a + b + Zeros(m - |b|) == a + Padded(b) + Zeros(m - SysAlign(|b|))
  {
    var k := SysAlign(|b|) - |b|;
    assert Zeros(m - |b|) == Zeros(k) + Zeros(m - SysAlign(|b|));
  }

  // ---------------------------------------------------------------- sections

  /** The header byte for the native byte order: 0 for little endian, 1 for big endian. */
  function EndianByte(little: bool): Byte {
    if little then 0 else 1
  }

  /** The first `HEADER_BYTES` (16) bytes: byte order, word size and arc size, then zeros. */
  function Header(little: bool): (h: seq<Byte>)
    ensures |h| == 16 && |h| % WORD == 0
    ensures h[0] == EndianByte(little) && h[1] == WORD && h[2] == WORD
    ensures forall i :: 3 <= i < 16 ==> h[i] == 0
  {
    [EndianByte(little), WORD, WORD] + Zeros(13)
  }

  /** The request id section: its length as a word (0 when absent), then its bytes padded. */
  function Metadata(reqId: seq<Byte>, little: bool): (m: seq<Byte>)
    ensures |m| == 8 + SysAlign(|reqId|)
  {
    Word(|reqId|, little) + Padded(reqId)
  }

  /** The arcs of an OID, one word each: what `memcpy` of the `oid_t` array writes. */
  function ArcBytes(o: Oid, little: bool): (b: seq<Byte>)
    ensures |b| == 8 * |o|
  {
    if o == [] then [] else ArcBytes(o[..|o| - 1], little) + Word(o[|o| - 1], little)
  }

  lemma SliceOfFront(b: seq<Byte>, front: seq<Byte>, w: seq<Byte>, i: nat)
    requires b == front + w && 8 * i + 8 <= |front|
    ensures b[8 * i..8 * i + 8] == front[8 * i..8 * i + 8]
  {
  }

  lemma SliceOfBack(b: seq<Byte>, front: seq<Byte>, w: seq<Byte>, i: nat)
    requires b == front + w && |w| == 8 && |front| == 8 * i
    ensures b[8 * i..8 * i + 8] == w
  {
  }

  lemma ArcBytesLast(o: Oid, little: bool)
    requires |o| > 0
    ensures ArcBytes(o, little) == ArcBytes(o[..|o| - 1], little) + Word(o[|o| - 1], little)
  {
  }

  /** Each arc can be read back from its own word. */
  lemma {:induction false} ArcBytesDecode(o: Oid, little: bool, i: nat)
    requires i < |o|
    ensures Decode(ArcBytes(o, little)[8 * i..8 * i + 8], little) == o[i]
  {
    var n := |o| - 1;
    ArcBytesLast(o, little);
    if i < n {
      ArcBytesDecode(o[..n], little, i);
      SliceOfFront(ArcBytes(o, little), ArcBytes(o[..n], little), Word(o[n], little), i);
    } else {
      SliceOfBack(ArcBytes(o, little), ArcBytes(o[..n], little), Word(o[n], little), i);
      WordRoundTrip(o[n], little);
    }
  }

  /** One root OID in the header: its arc count as a word, then its arcs. */
  function OidBlock(o: Oid, little: bool): (b: seq<Byte>)
    ensures |b| == 8 + 8 * |o|
  {
    Word(|o|, little) + ArcBytes(o, little)
  }

  /** The root-OID blocks of `oids`, in order. */
  function RootBlocks(oids: seq<Oid>, little: bool): (b: seq<Byte>)
    ensures |b| % WORD == 0
  {
    if oids == [] then [] else RootBlocks(oids[..|oids| - 1], little) + OidBlock(oids[|oids| - 1], little)
  }

  /** One more root OID appends its block. */
  lemma RootBlocksSnoc(oids: seq<Oid>, i: nat, little: bool)
    requires i < |oids|
    ensures RootBlocks(oids[..i + 1], little) == RootBlocks(oids[..i], little) + OidBlock(oids[i], little)
  {
    assert oids[..i + 1][..i] == oids[..i];
  }

  /**
   * Everything the session constructor writes: header, metadata, the number of root OIDs
   * and one block per root OID.
   */
  function Preamble(reqId: seq<Byte>, oids: seq<Oid>, little: bool): seq<Byte> {
    Header(little) + Metadata(reqId, little) + Word(|oids|, little) + RootBlocks(oids, little)
  }

  lemma AlignedSum(a: nat, b: nat)
    requires a % WORD == 0 && b % WORD == 0
    ensures (a + b) % WORD == 0
  {
  }

  lemma AlignedConcat(a: seq<Byte>, b: seq<Byte>)
    requires |a| % 8 == 0 && |b| % 8 == 0
    ensures |a + b| % 8 == 0
  {
  }

  /** Every section is a whole number of words, so the preamble is too. */
  lemma PreambleAligned(reqId: seq<Byte>, oids: seq<Oid>, little: bool)
    ensures |Preamble(reqId, oids, little)| % WORD == 0
    ensures |Preamble(reqId, oids, little)| >= 16 + 2 * 8
  {
    var h, m, w, r := Header(little), Metadata(reqId, little), Word(|oids|, little), RootBlocks(oids, little);
    assert |m| % 8 == 0 by {
      AlignedConcat(Word(|reqId|, little), Padded(reqId));
    }
    AlignedConcat(h, m);
    AlignedConcat(h + m, w);
    AlignedConcat(h + m + w, r);
  }

  // ---------------------------------------------------------------- records

  /** `resp_var_bind_size`: the sum of the seven aligned fields after the size word. */
  function RecordSize(indexLength: nat, valueLength: nat): (n: nat)
    ensures n % WORD == 0
    ensures n == 5 * 8 + 8 * indexLength + SysAlign(valueLength)
  {
    SysAlign(8) + SysAlign(8) + SysAlign(1) + SysAlign(8) + SysAlign(indexLength * 8)
      + SysAlign(8) + SysAlign(valueLength)
  }

  /**
   * The first five words of a record: the record size, the timestamp, the root OID index,
   * the one-byte value type in a word slot and the index length.
   */
  function RecordHead(size: nat, timestamp: nat, rootOidIndex: nat, valueType: Byte, indexLength: nat,
                      little: bool): (h: seq<Byte>)
    ensures |h| == 40
  {
    Word(size, little) + Word(timestamp, little) + Word(rootOidIndex, little) + Padded([valueType])
      + Word(indexLength, little)
  }

  /** The end of a record: the value length, then the value padded, laid out as the request id is. */
  function RecordTail(value: seq<Byte>, little: bool): (t: seq<Byte>)
    ensures |t| == 8 + SysAlign(|value|)
  {
    Metadata(value, little)
  }

  /**
   * One record as `append_result` lays it out: the five head words, the index arcs, the
   * value length and the value padded to a word. Words are `size_t`, so a value of `2^64`
   * or more keeps only its low 64 bits.
   */
  function Record(timestamp: nat, rootOidIndex: nat, valueType: Byte, index: Oid,
                  value: seq<Byte>, little: bool): seq<Byte>
  {
    RecordHead(RecordSize(|index|, |value|), timestamp, rootOidIndex, valueType, |index|, little)
      + ArcBytes(index, little) + RecordTail(value, little)
  }

  /** A record is its size word plus `RecordSize` bytes, a whole number of words. */
  lemma RecordLength(timestamp: nat, rootOidIndex: nat, valueType: Byte, index: Oid,
                     value: seq<Byte>, little: bool)
    ensures |Record(timestamp, rootOidIndex, valueType, index, value, little)| ==
            8 + RecordSize(|index|, |value|)
    ensures |Record(timestamp, rootOidIndex, valueType, index, value, little)| % WORD == 0
  {
    var n := RecordSize(|index|, |value|);
    assert |Record(timestamp, rootOidIndex, valueType, index, value, little)| == 8 + n;
    AlignedSum(8, n);
  }

  /** The three parts of a concatenation can be cut back out of it. */
  lemma ThreeParts(h: seq<Byte>, a: seq<Byte>, t: seq<Byte>)
    ensures (h + a + t)[..|h|] == h
    ensures (h + a + t)[|h|..|h| + |a|] == a
    ensures (h + a + t)[|h| + |a|..] == t
  {
  }

  lemma TwoParts(a: seq<Byte>, b: seq<Byte>)
    ensures (a + b)[..|a|] == a && (a + b)[|a|..] == b
  {
  }

  /** A slice inside a part is the same slice of that part. */
  lemma InnerSlice(r: seq<Byte>, k: nat, part: seq<Byte>, i: nat, j: nat)
    requires k + |part| <= |r| && r[k..k + |part|] == part && i <= j <= |part|
    ensures r[k + i..k + j] == part[i..j]
  {
    var x, y := r[k + i..k + j], part[i..j];
    forall m | 0 <= m < j - i
      ensures x[m] == y[m]
    {
      assert x[m] == r[k..k + |part|][i + m];
    }
  }

  /** A word followed by a padded field, found at offset `n` of `r`. */
  lemma TailSlots(r: seq<Byte>, n: nat, t: seq<Byte>, w: seq<Byte>, p: seq<Byte>, value: seq<Byte>)
    requires n + |t| <= |r| && r[n..n + |t|] == t && t == w + p && |w| == 8
    requires |value| <= |p| && p[..|value|] == value
    ensures r[n..n + 8] == w && r[n + 8..n + 8 + |value|] == value
  {
    TwoParts(w, p);
    InnerSlice(r, n, t, 0, 8);
    InnerSlice(r, n, t, 8, |t|);
    assert t[8..|t|] == p;
    InnerSlice(r, n + 8, p, 0, |value|);
    assert p[0..|value|] == value;
  }

  /** The five words of a record head, cut back out of it. */
  lemma HeadSlots(w0: seq<Byte>, w1: seq<Byte>, w2: seq<Byte>, t: seq<Byte>, w4: seq<Byte>)
    requires |w0| == 8 && |w1| == 8 && |w2| == 8 && |t| == 8 && |w4| == 8
    ensures var h := w0 + w1 + w2 + t + w4;
      h[..8] == w0 && h[8..16] == w1 && h[16..24] == w2 && h[24] == t[0] && h[32..40] == w4
  {
  }

  /**
   * Reading the first five words of a record back: the record size, the timestamp, the
   * root OID index, the value type at the start of its slot and the index length.
   */
  lemma RecordPrefixFields(timestamp: nat, rootOidIndex: nat, valueType: Byte, index: Oid,
                           value: seq<Byte>, little: bool, r: seq<Byte>)
    requires RecordSize(|index|, |value|) < WORD_LIMIT && timestamp < WORD_LIMIT
    requires rootOidIndex < WORD_LIMIT && |index| < WORD_LIMIT
    requires r == Record(timestamp, rootOidIndex, valueType, index, value, little)
    ensures |r| >= 40
    ensures Decode(r[..8], little) == RecordSize(|index|, |value|)
    ensures Decode(r[8..16], little) == timestamp
    ensures Decode(r[16..24], little) == rootOidIndex
    ensures r[24] == valueType
    ensures Decode(r[32..40], little) == |index|
  {
    var size := RecordSize(|index|, |value|);
    var h := RecordHead(size, timestamp, rootOidIndex, valueType, |index|, little);
    ThreeParts(h, ArcBytes(index, little), RecordTail(value, little));
    HeadSlots(Word(size, little), Word(timestamp, little), Word(rootOidIndex, little),
      Padded([valueType]), Word(|index|, little));
    assert r[..40] == h;
    InnerSlice(r, 0, h, 0, 8);
    InnerSlice(r, 0, h, 8, 16);
    InnerSlice(r, 0, h, 16, 24);
    InnerSlice(r, 0, h, 32, 40);
    assert r[24] == h[24];
    WordRoundTrip(size, little);
    WordRoundTrip(timestamp, little);
    WordRoundTrip(rootOidIndex, little);
    WordRoundTrip(|index|, little);
  }

  /** The index arcs of a record read back one word each. */
  lemma RecordIndexFields(timestamp: nat, rootOidIndex: nat, valueType: Byte, index: Oid,
                          value: seq<Byte>, little: bool, r: seq<Byte>, i: nat)
    requires r == Record(timestamp, rootOidIndex, valueType, index, value, little) && i < |index|
    ensures 48 + 8 * i <= |r|
    ensures Decode(r[40 + 8 * i..48 + 8 * i], little) == index[i]
  {
    var h := RecordHead(RecordSize(|index|, |value|), timestamp, rootOidIndex, valueType, |index|, little);
    var arcs := ArcBytes(index, little);
    ThreeParts(h, arcs, RecordTail(value, little));
    InnerSlice(r, 40, arcs, 8 * i, 8 * i + 8);
    ArcBytesDecode(index, little, i);
  }

  /** After the arcs come the value length and the value itself. */
  lemma RecordValueFields(timestamp: nat, rootOidIndex: nat, valueType: Byte, index: Oid,
                          value: seq<Byte>, little: bool, r: seq<Byte>, n: nat)
    requires |value| < WORD_LIMIT
    requires r == Record(timestamp, rootOidIndex, valueType, index, value, little) && n == 40 + 8 * |index|
    ensures n + 8 + |value| <= |r|
    ensures Decode(r[n..n + 8], little) == |value|
    ensures r[n + 8..n + 8 + |value|] == value
  {
    var h := RecordHead(RecordSize(|index|, |value|), timestamp, rootOidIndex, valueType, |index|, little);
    var arcs := ArcBytes(index, little);
    var t := RecordTail(value, little);
    ThreeParts(h, arcs, t);
    TailSlots(r, n, t, Word(|value|, little), Padded(value), value);
    WordRoundTrip(|value|, little);
  }
}
