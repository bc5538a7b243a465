/**
 * A collection head follows one (root OID, range) pair of a request: its range under the
 * root, the OID it was last sent (`req_oid`, only while it is part of the PDU in flight)
 * and the last response OID it accepted. It appends the records of its bindings to the
 * results buffer it shares with its session.
 */
module Heads {
  import opened Wrappers
  import opened ObjectIdentities
  import opened Ranges
  import opened Bytes
  import opened Layout
  import opened Requests

  /** One response variable binding: its name, value type, position and value bytes. */
  datatype VarBind = VarBind(oid: Oid, valueType: Byte, index: int, value: seq<Byte>)

  // ---------------------------------------------------------------- head ranges

  /**
   * The collection head's range as its constructor builds it: the root followed by the
   * request range's start and stop, through the checked range constructor.
   */
  function HeadRangeAsWritten(root: Oid, range: Option<Range>): Result<Range, RangeError> {
    if range.Some? then MakeRange(Some(Concat(root, range.value.start)), Some(Concat(root, range.value.stop)))
    else MakeRange(Some(root), Some(root))
  }

  /**
   * For a valid request range the check throws exactly when the range has a start but no
   * stop and the root is not empty: the root followed by the start then sorts after the
   * root alone, which is what an empty stop turns into.
   */
  lemma HeadRangeAsWrittenThrows(root: Oid, range: Range)
    requires Valid(range)
    ensures HeadRangeAsWritten(root, Some(range)).Err? <==>
            range.stop == [] && range.start != [] && root != []
  {
    var s, t := Concat(root, range.start), Concat(root, range.stop);
    ConcatPreservesCompare(root, range.start, range.stop);
    if range.stop == [] && range.start != [] {
      assert t == root;
      ConcatPreservesCompare(root, range.start, []);
      EmptyIsLeast(range.start);
      CompareAntisymmetric(range.start, []);
    }
  }

  /** A walk request that the request constructor accepts and the head constructor rejects. */
  lemma HeadRangeAsWrittenCounterexample()
    ensures ValidRequest(SnmpRequest(WalkRequest, "", Community("", V2C), [[1, 3]],
                                     Some([Range([1], [])]), None, None))
    ensures HeadRangeAsWritten([1, 3], Some(Range([1], []))) ==
            Err(NotLexicographicallyLess([1, 3, 1], [1, 3]))
  {
    HeadRangeAsWrittenThrows([1, 3], Range([1], []));
    assert Concat([1, 3], [1]) == [1, 3, 1];
    assert Concat([1, 3], []) == [1, 3];
  }

  /**
   * The head's range without the order check: the root followed by the start, and the
   * root followed by the stop, so an empty stop leaves the whole subtree of the root.
   */
  function HeadRange(root: Oid, range: Option<Range>): (r: Range)
    ensures IsRootOf(root, r.start) && IsRootOf(root, r.stop)
    ensures range.None? ==> r == Point(root)
    ensures range.Some? ==> r.start[|root|..] == range.value.start && r.stop[|root|..] == range.value.stop
  {
    if range.Some? then Range(Concat(root, range.value.start), Concat(root, range.value.stop))
    else Point(root)
  }

  /** Wherever the written check passes, it builds the same range. */
  lemma HeadRangeAgrees(root: Oid, range: Option<Range>)
    ensures HeadRangeAsWritten(root, range).Ok? ==> HeadRangeAsWritten(root, range).value == HeadRange(root, range)
    ensures range.None? ==> HeadRangeAsWritten(root, range).Ok?
  {
    RootOfSelfAndEmpty(root);
    RootIsLessEq(root, root);
  }

  // ---------------------------------------------------------------- collection heads

  /** The fields of a collection head, as a value. */
  datatype HeadState = HeadState(
    rootOidIndex: nat,
    rootOid: Oid,
    range: Range,
    reqOid: Option<Oid>,
    lastRespOid: Option<Oid>)

  /**
   * `get_next_req_oid` on the value: the request goes out for the last response when
   * there is one, otherwise for the root, and the last response is cleared.
   */
  function Activate(h: HeadState): (a: HeadState)
    ensures a.reqOid == Some(if h.lastRespOid.Some? then h.lastRespOid.value else h.rootOid)
    ensures a.lastRespOid.None?
    ensures SameTarget(h, a)
  {
    h.(reqOid := Some(h.lastRespOid.GetOr(h.rootOid)), lastRespOid := None)
  }

  /** Two head values for the same head: same index, root and range. */
  predicate SameTarget(a: HeadState, b: HeadState) {
    a.rootOidIndex == b.rootOidIndex && a.rootOid == b.rootOid && a.range == b.range
  }

  /** The head's range lies in the subtree of its root OID, as `HeadRange` builds it. */
  predicate UnderRoot(h: HeadState) {
    IsRootOf(h.rootOid, h.range.start) && IsRootOf(h.rootOid, h.range.stop)
  }

  class CollectionHead {
    const rootOidIndex: nat
    const rootOid: Oid
    const range: Range
    var reqOid: Option<Oid>
    var lastRespOid: Option<Oid>
    const results: ResultBuffer

    /** The constructor, with the corrected range. */
    constructor(rootOidIndex: nat, rootOid: Oid, range: Option<Range>, results: ResultBuffer)
      ensures View() == HeadState(rootOidIndex, rootOid, HeadRange(rootOid, range), None, None)
      ensures this.results == results
    {
      this.rootOidIndex := rootOidIndex;
      this.rootOid := rootOid;
      this.range := HeadRange(rootOid, range);
      this.reqOid := None;
      this.lastRespOid := None;
      this.results := results;
    }

    function View(): HeadState
      reads this
    {
      HeadState(rootOidIndex, rootOid, range, reqOid, lastRespOid)
    }

    /** `reset_req_oid`: deactivates the head and changes nothing else. */
    method ResetReqOid()
      modifies this
      ensures View() == old(View()).(reqOid := None)
    {
      reqOid := None;
    }

    /** `get_next_req_oid`: activates the head and returns the OID to request. */
    method GetNextReqOid() returns (oid: Oid)
      modifies this
      ensures View() == Activate(old(View()))
      ensures reqOid == Some(oid)
    {
      reqOid := Some(lastRespOid.GetOr(rootOid));
      lastRespOid := None;
      oid := reqOid.value;
    }

    method SetLastRespOid(oid: Oid)
      modifies this
      ensures View() == old(View()).(lastRespOid := Some(oid))
    {
      lastRespOid := Some(oid);
    }

    /**
     * `append_result`: grows the shared buffer by one record and copies the fields in.
     * The index is the response OID without the root; the caller only passes OIDs under
     * the root (otherwise `index_size` would wrap around).
     */
    method AppendResult(vb: VarBind, timestamp: nat, little: bool)
      requires IsRootOf(rootOid, vb.oid)
      modifies results
      ensures results.bytes ==
              old(results.bytes) + Record(timestamp, rootOidIndex, vb.valueType, vb.oid[|rootOid|..], vb.value, little)
    {
      var index := vb.oid[|rootOid|..];
      var size := RecordSize(|index|, |vb.value|);
      var pos := |results.bytes|;
      ghost var a := results.bytes;
      results.Resize(pos + 8 + size);
      results.FillRecordHead(pos, a, size, timestamp, rootOidIndex, vb.valueType, |index|, little, 8 + size);
      ghost var h := RecordHead(size, timestamp, rootOidIndex, vb.valueType, |index|, little);
      var arcs := ArcBytes(index, little);
      results.Fill(pos + 40, a + h, arcs, size - 32);
      results.FillRecordTail(pos + 40 + 8 * |index|, a + h + arcs, vb.value, little, size - 32 - 8 * |index|);
      RecordAssociates(a, h, arcs, RecordTail(vb.value, little));
    }
  }

  lemma RecordAssociates(a: seq<Byte>, h: seq<Byte>, arcs: seq<Byte>, t: seq<Byte>)
    ensures a + h + arcs + t + Zeros(0) == a + (h + arcs + t)
  {
  }

  /** The values of a list of heads. */
  function Views(hs: seq<CollectionHead>): (r: seq<HeadState>)
    reads hs
    ensures |r| == |hs| && forall i :: 0 <= i < |hs| ==> r[i] == hs[i].View()
  {
    if hs == [] then [] else Views(hs[..|hs| - 1]) + [hs[|hs| - 1].View()]
  }
}
