/**
 * `Session`: one request on the wire. It keeps one collection head per (root OID, range)
 * pair, fills each request PDU from the front of the head list, matches the bindings
 * of each response PDU to the heads, appends one record per accepted binding to the
 * results buffer it shares with its heads, and closes once no head is left.
 *
 * The library's side (opening the session, allocating and dispatching PDUs, reading the
 * socket) is given as inputs: whether each step succeeded, and what the callback got.
 * Each method is proved to do what the function of the same step in `Steps` says.
 */
module Sessions {
  import opened Wrappers
  import opened ObjectIdentities
  import opened Ranges
  import opened Bytes
  import opened Layout
  import opened Text
  import opened Requests
  import opened Heads
  import opened Steps
  import Configs

  /** The position of the binding `process_pdu` reports an error status for. */
  method FindErrorOid(vbs: seq<VarBind>, errIndex: int) returns (o: Option<Oid>)
    ensures o == ErrorOid(vbs, errIndex)
  {
    var j := 0;
    while j < |vbs| && vbs[j].index != errIndex
      invariant 0 <= j <= |vbs|
      invariant forall k :: 0 <= k < j ==> vbs[k].index != errIndex
    {
      j := j + 1;
    }
    var p := ErrorPosition(vbs, errIndex);
    assert j == p;
    o := if j < |vbs| then Some(vbs[j].oid) else None;
  }

  class Session {
    /**
     * The constructor, with the outcome of `snmp_sess_open` as an input: on failure the
     * session is closed with the open error; otherwise it is idle, the results hold the
     * header, the metadata and the root OIDs, and there is one head per root and range.
     */
    constructor(q: SnmpRequest, little: bool, open: OpenOutcome)
      requires ValidRequest(q) && VarBindLimitSet(q)
      ensures Valid() && request == q && this.little == little
      ensures Value() == Opening(q, little, open)
    {
      request := q;
      pduType := PduTypeFor(q);
      this.little := little;
      results := new ResultBuffer();
      heads := [];
      status := Closed;
      errFlag := false;
      errors := [];
      new;
      OpeningCoherent(q, little, open);
      if open.OpenFailed? {
        FailOpen(open.error);
      } else {
        Populate();
      }
    }

    /** The open failed: the error is recorded with what `snmp_error` reported, and the session closes. */
    method FailOpen(e: LibraryError)
      requires Linked() && Value() == State(Closed, [], false, [], [])
      modifies this
      ensures Linked() && Value() == Opening(request, little, OpenFailed(e))
    {
      Raise(SessionError, Some(e.sysErrno), Some(Reported(e.snmpErrno)), None, None, None, Some(e.message));
    }

    /**
     * The session opened: it turns idle, the results get the header, the metadata, the
     * number of root OIDs and their blocks, and there is one head per root and range.
     */
    method Populate()
      requires Linked() && heads == [] && results.bytes == [] && !errFlag && errors == []
      modifies this, results
      ensures Linked() && Value() == Opening(request, little, Opened)
    {
      SetIdle();
      var list := NewResults(request, little, results);
      ViewsPointwise(list, InitialHeads(request.oids, request.ranges));
      SetHeads(list, InitialHeads(request.oids, request.ranges));
    }

    var status: Status
    const request: SnmpRequest
    const pduType: PduType
    const results: ResultBuffer
    /** The native byte order the words are written in. */
    const little: bool
    var heads: seq<CollectionHead>
    var errFlag: bool
    var errors: seq<SnmpError>

    /** The session's state as a value. */
    function Value(): State
      reads this, heads, results
    {
      State(status, Views(heads), errFlag, errors, results.bytes)
    }

    /** The heads are distinct objects that all write to this session's buffer. */
    ghost predicate Linked()
      reads this
    {
      && pduType == PduTypeFor(request)
      && VarBindLimitSet(request)
      && (forall i :: 0 <= i < |heads| ==> heads[i].results == results)
      && (forall i, j :: 0 <= i < j < |heads| ==> heads[i] != heads[j])
    }

    ghost predicate Valid()
      reads this, heads, results
    {
      Linked() && Coherent(Value())
    }

    /** `append_error`: one more error at the back, for this session's request. */
    method AppendError(kind: ErrorType, sysErrno: Option<int>, snmpErrno: Option<SnmpErrno>, errStat: Option<int>,
                       errIndex: Option<int>, errOid: Option<Oid>, message: Option<string>)
      returns (e: SnmpError)
      modifies this
      ensures e == SnmpError(kind, request, sysErrno, snmpErrno, errStat, errIndex, errOid, message)
      ensures errors == old(errors) + [e]
      ensures status == old(status) && heads == old(heads) && errFlag == old(errFlag)
      ensures Value() == old(Value()).(errors := old(errors) + [e])
    {
      e := SnmpError(kind, request, sysErrno, snmpErrno, errStat, errIndex, errOid, message);
      errors := errors + [e];
    }

    /** The error path every failure takes: record the error, close, raise the flag. */
    method Raise(kind: ErrorType, sysErrno: Option<int>, snmpErrno: Option<SnmpErrno>, errStat: Option<int>,
                 errIndex: Option<int>, errOid: Option<Oid>, message: Option<string>)
      requires Linked()
      modifies this
      ensures Linked() && heads == old(heads)
      ensures Value() == Fail(old(Value()), SnmpError(kind, request, sysErrno, snmpErrno, errStat, errIndex, errOid, message))
    {
      var _ := AppendError(kind, sysErrno, snmpErrno, errStat, errIndex, errOid, message);
      status := Closed;
      errFlag := true;
    }

    /** The `find_if` over the heads: the position of the first match, or `|heads|`. */
    method Find(oid: Oid) returns (i: nat)
      ensures i <= |heads|
      ensures FindHead(request.kind, Views(heads), oid) == if i < |heads| then Some(i) else None
    {
      ghost var s := Views(heads);
      i := 0;
      while i < |heads| && !Matches(request.kind, heads[i].View(), oid)
        invariant 0 <= i <= |heads|
        invariant forall j :: 0 <= j < i ==> !Matches(request.kind, s[j], oid)
      {
        i := i + 1;
      }
    }

    /** One warning for a binding of a GET, as `process_var_bind` records it. */
    method Warning(vb: VarBind, message: string)
      requires Linked()
      modifies this
      ensures Linked() && heads == old(heads)
      ensures Value() == Warn(request, old(Value()), vb, message)
    {
      var _ := AppendError(ValueWarning, None, None, None, Some(vb.index), Some(vb.oid), Some(message));
      errFlag := true;
    }

    /** The GET branch of `process_var_bind`. */
    method GetVarBind(vb: VarBind, timestamp: nat)
      requires Linked() && request.kind == GetRequest && HeadsUnderRoot(Views(heads))
      modifies this, results
      ensures Linked() && heads == old(heads)
      ensures Value() == GetStep(request, old(Value()), vb, timestamp, little)
    {
      var i := Find(vb.oid);
      if i == |heads| {
        Warning(vb, "root OID not found");
      } else {
        GetFound(i, vb, timestamp);
      }
    }

    /** The GET branch once head `i` matches: the OID and the value type are checked. */
    method GetFound(i: nat, vb: VarBind, timestamp: nat)
      requires Linked() && request.kind == GetRequest && HeadsUnderRoot(Views(heads))
      requires i < |heads| && FindHead(GetRequest, Views(heads), vb.oid) == Some(i)
      modifies this, results
      ensures Linked() && heads == old(heads)
      ensures Value() == GetStep(request, old(Value()), vb, timestamp, little)
    {
      ghost var s := Value();
      var h := heads[i];
      if vb.oid != h.reqOid.value {
        var text := OidToString(h.reqOid.value);
        Warning(vb, "request OID does not match response OID: " + text);
        return;
      }
      var name := WarningName(vb.valueType);
      if name.Some? {
        Warning(vb, name.value);
        return;
      }
      MatchIsUnderRoot(request.kind, s.heads[i], vb.oid);
      Store(i, vb, timestamp);
    }

    /** An accepted GET binding: head `i` records it. */
    method Store(i: nat, vb: VarBind, timestamp: nat)
      requires Linked() && i < |heads| && IsRootOf(heads[i].rootOid, vb.oid)
      modifies results
      ensures Value() == Accept(old(Value()), i, vb, timestamp, little)
    {
      heads[i].AppendResult(vb, timestamp, little);
    }

    /** The WALK branch of `process_var_bind`. */
    method WalkVarBind(vb: VarBind, timestamp: nat)
      requires Linked() && request.kind == WalkRequest && HeadsUnderRoot(Views(heads))
      modifies heads, results
      ensures Value() == WalkStep(old(Value()), vb, timestamp, little)
    {
      ghost var s := Value();
      var i := Find(vb.oid);
      if i == |heads| {
        return;
      }
      var h := heads[i];
      if h.lastRespOid.Some? {
        if LessEq(vb.oid, h.lastRespOid.value) {
          return;
        }
      } else {
        if LessEq(vb.oid, h.reqOid.value) {
          return;
        }
      }
      assert !LessEq(vb.oid, Cursor(s.heads[i]));
      MatchIsUnderRoot(request.kind, s.heads[i], vb.oid);
      Advance(i, vb, timestamp);
    }

    /** An accepted WALK binding: head `i` takes it as its last response and records it. */
    method Advance(i: nat, vb: VarBind, timestamp: nat)
      requires Linked() && i < |heads| && IsRootOf(heads[i].rootOid, vb.oid)
      modifies heads[i], results
      ensures Value() == Accept(old(Value()).(heads := old(Views(heads))[i := old(heads[i].View()).(lastRespOid := Some(vb.oid))]),
                                i, vb, timestamp, little)
    {
      ghost var before := Views(heads);
      var h := heads[i];
      h.SetLastRespOid(vb.oid);
      SetOne(before, i, vb.oid);
      h.AppendResult(vb, timestamp, little);
    }

    /** `process_var_bind`. */
    method ProcessVarBind(vb: VarBind, timestamp: nat)
      requires Linked() && HeadsUnderRoot(Views(heads))
      modifies this, heads, results
      ensures Linked() && heads == old(heads)
      ensures Value() == VarBindStep(request, old(Value()), vb, timestamp, little)
    {
      if request.kind == GetRequest {
        GetVarBind(vb, timestamp);
      } else {
        WalkVarBind(vb, timestamp);
      }
    }

    /** After one head took a new last response, the head values differ in that one place. */
    lemma SetOne(before: seq<HeadState>, i: nat, oid: Oid)
      requires Linked() && |before| == |heads| && i < |heads|
      requires heads[i].View() == before[i].(lastRespOid := Some(oid))
      requires forall j :: 0 <= j < |heads| && j != i ==> heads[j].View() == before[j]
      ensures Views(heads) == before[i := before[i].(lastRespOid := Some(oid))]
    {
    }

    /** The `for` loop of `process_pdu` over the bindings of a response. */
    method ProcessVarBinds(vbs: seq<VarBind>, timestamp: nat)
      requires Linked() && HeadsUnderRoot(Views(heads))
      modifies this, heads, results
      ensures Linked() && heads == old(heads)
      ensures Value() == ApplyVarBinds(request, old(Value()), vbs, timestamp, little)
    {
      ghost var s0 := Value();
      var k := 0;
      while k < |vbs|
        invariant 0 <= k <= |vbs| && Linked() && heads == old(heads)
        invariant Value() == ApplyVarBinds(request, s0, vbs[..k], timestamp, little)
      {
        ProcessNext(s0, vbs, k, timestamp);
        k := k + 1;
      }
      assert vbs[..|vbs|] == vbs;
    }

    /** One turn of that loop: the binding at `k` after those before it. */
    method ProcessNext(ghost s0: State, vbs: seq<VarBind>, k: nat, timestamp: nat)
      requires Linked() && HeadsUnderRoot(s0.heads) && k < |vbs|
      requires Value() == ApplyVarBinds(request, s0, vbs[..k], timestamp, little)
      modifies this, heads, results
      ensures Linked() && heads == old(heads)
      ensures Value() == ApplyVarBinds(request, s0, vbs[..k + 1], timestamp, little)
    {
      ApplyVarBindsSnoc(request, s0, vbs, k, timestamp, little);
      ProcessVarBind(vbs[k], timestamp);
    }

    /**
     * The pruning loop of `process_pdu`, on the list: a head sent a request that accepted
     * nothing is erased, every other head sent a request has it reset.
     */
    method KeptHeads() returns (kept: seq<CollectionHead>, ghost hs: seq<CollectionHead>, ghost hs0: seq<HeadState>)
      requires Linked()
      modifies heads
      ensures hs == heads && hs0 == old(Views(heads))
      ensures kept == KeptObjects(hs, hs0)
      ensures forall j :: 0 <= j < |hs| ==> hs[j].View() == Pruned(hs0[j])
    {
      var objs := heads;
      hs, hs0 := objs, Views(objs);
      assert forall a, b :: 0 <= a < b < |objs| ==> objs[a] != objs[b];
      kept := [];
      var i := 0;
      while i < |objs|
        invariant 0 <= i <= |objs| && |hs0| == |objs|
        invariant kept == KeptObjects(objs[..i], hs0[..i])
        invariant forall j :: 0 <= j < |objs| ==> objs[j].View() == if j < i then Pruned(hs0[j]) else hs0[j]
      {
        kept := PruneAt(objs, hs0, i, kept);
        i := i + 1;
      }
      assert objs[..|objs|] == objs && hs0[..|objs|] == hs0;
    }

    method PruneHeads()
      requires Linked()
      modifies this, heads
      ensures Linked()
      ensures Value() == old(Value()).(heads := Prune(old(Views(heads))))
    {
      var kept, hs, hs0 := KeptHeads();
      heads := kept;
      KeptFacts(hs, hs0, results);
    }

    /**
     * The operation dispatch of `process_pdu` for a received message. Each branch starts
     * by setting the status to idle.
     */
    method Receive(pdu: Option<Pdu>, timestamp: nat)
      requires Linked() && HeadsUnderRoot(Views(heads))
      modifies this, heads, results
      ensures Linked() && heads == old(heads)
      ensures Value() == CallbackEffect(request, old(Value()), Received(pdu), timestamp, little)
    {
      if pdu.None? {
        ReceiveNothing(timestamp);
      } else {
        ReceivePdu(pdu.value, timestamp);
      }
    }

    /** `status = IDLE`, which a received message does first. */
    method SetIdle()
      requires Linked()
      modifies this
      ensures Linked() && heads == old(heads)
      ensures status == Idle && errFlag == old(errFlag) && errors == old(errors)
      ensures Value() == old(Value()).(status := Idle)
    {
      status := Idle;
    }

    /** The message held no PDU: the response could not be allocated. */
    method ReceiveNothing(timestamp: nat)
      requires Linked() && HeadsUnderRoot(Views(heads))
      modifies this
      ensures Linked() && heads == old(heads)
      ensures Value() == CallbackEffect(request, old(Value()), Received(None), timestamp, little)
    {
      SetIdle();
      Raise(CreateResponsePduError, None, None, None, None, None, Some("failed to allocate memory for the response PDU"));
    }

    /** A received PDU: a response is processed, anything else is a protocol error. */
    method ReceivePdu(p: Pdu, timestamp: nat)
      requires Linked() && HeadsUnderRoot(Views(heads))
      modifies this, heads, results
      ensures Linked() && heads == old(heads)
      ensures Value() == CallbackEffect(request, old(Value()), Received(Some(p)), timestamp, little)
    {
      if p.command.ResponsePdu? {
        ReceiveResponse(p, timestamp);
      } else {
        ReceiveOther(p, timestamp);
      }
    }

    /** A PDU that is not a response. */
    method ReceiveOther(p: Pdu, timestamp: nat)
      requires Linked() && HeadsUnderRoot(Views(heads)) && p.command.OtherPdu?
      modifies this
      ensures Linked() && heads == old(heads)
      ensures Value() == CallbackEffect(request, old(Value()), Received(Some(p)), timestamp, little)
    {
      SetIdle();
      Raise(BadResponsePduError, None, Some(ErrProtocol), None, None, None,
            Some("expected RESPONSE-PDU, got " + p.command.name + "-PDU"));
    }

    /** A response PDU: its bindings, or the error its status reports. */
    method ReceiveResponse(p: Pdu, timestamp: nat)
      requires Linked() && HeadsUnderRoot(Views(heads)) && p.command.ResponsePdu?
      modifies this, heads, results
      ensures Linked() && heads == old(heads)
      ensures Value() == CallbackEffect(request, old(Value()), Received(Some(p)), timestamp, little)
    {
      SetIdle();
      ReceivedFromIdle(request, old(Value()), Some(p), timestamp, little);
      if p.errStat == 0 {
        ProcessVarBinds(p.varBinds, timestamp);
      } else {
        var errOid := FindErrorOid(p.varBinds, p.errIndex);
        Raise(BadResponsePduError, None, None, Some(p.errStat), Some(p.errIndex), errOid, Some(p.errStatText));
      }
    }

    /** `process_pdu`: the operation dispatch, then the pruning; the callback always returns 1. */
    method ProcessPdu(cb: Callback, timestamp: nat) returns (r: int)
      requires Valid()
      modifies this, heads, results
      ensures Valid()
      ensures r == 1
      ensures Value() == PduStep(request, old(Value()), cb, timestamp, little)
    {
      ghost var s0 := Value();
      Dispatch(cb, timestamp);
      Conclude();
      StepsKeepCoherent(request, pduType, s0, cb, timestamp, little, false, None);
      r := 1;
    }

    /** The `switch` of `process_pdu` on the operation the library reports. */
    method Dispatch(cb: Callback, timestamp: nat)
      requires Linked() && HeadsUnderRoot(Views(heads))
      modifies this, heads, results
      ensures Linked() && heads == old(heads)
      ensures Value() == CallbackEffect(request, old(Value()), cb, timestamp, little)
    {
      match cb {
        case Received(pdu) =>
          Receive(pdu, timestamp);
        case TimedOut =>
          Raise(TimeoutError, None, Some(ErrTimeout), None, None, None, Some("timeout error"));
        case SendFailed =>
          Raise(AsyncProbeError, None, None, None, None, None, Some("async probe error"));
        case Disconnect =>
          Raise(TransportDisconnectError, None, Some(ErrAbort), None, None, None, Some("transport disconnect error"));
        case Resend =>
      }
    }

    /** After the dispatch: the pruning, then closing once no head is left. */
    method Conclude()
      requires Linked()
      modifies this, heads
      ensures Linked()
      ensures Value() == Finish(old(Value()))
    {
      PruneHeads();
      if |heads| == 0 {
        SetClosed();
      }
    }

    /** `status = CLOSED`. */
    method SetClosed()
      requires Linked()
      modifies this
      ensures Linked() && heads == old(heads)
      ensures Value() == old(Value()).(status := Closed)
    {
      status := Closed;
    }

    /** `status = WAIT`. */
    method SetWait()
      requires Linked()
      modifies this
      ensures Linked() && heads == old(heads)
      ensures Value() == old(Value()).(status := Wait)
    {
      status := Wait;
    }

    /**
     * `send`, with the library's answers as inputs: whether `snmp_pdu_create` gave a PDU,
     * and the error `snmp_sess_async_send` reports, if any.
     */
    method Send(created: bool, sendError: Option<LibraryError>) returns (outcome: SendOutcome)
      requires Valid()
      modifies this, heads
      ensures Valid()
      ensures SendResult(Value(), outcome) == SendStep(request, pduType, old(Value()), created, sendError)
    {
      ghost var s0 := Value();
      if status != Idle {
        return NotIdle;
      }
      if !created {
        Raise(CreateRequestPduError, None, None, None, None, None, Some("failed to allocate memory for the request PDU"));
        outcome := PduNotCreated;
      } else {
        outcome := SendCreated(sendError);
      }
      StepsKeepCoherent(request, pduType, s0, Resend, 0, little, created, sendError);
    }

    /** The rest of `send` once the PDU exists: the filling loop, then the dispatch. */
    method SendCreated(sendError: Option<LibraryError>) returns (outcome: SendOutcome)
      requires Linked() && status == Idle
      modifies this, heads
      ensures Linked()
      ensures SendResult(Value(), outcome) == SendBatch(request, pduType, old(Value()), sendError)
    {
      ghost var s0 := Value();
      var limit := request.config.value.maxResponseVarBindsPerPdu.value;
      var oids, count := FillPdu();
      if pduType == GetBulkPdu && count == 0 {
        return DivisionByZero;
      }
      SameOids(oids, s0.heads, count);
      var pdu := MakePdu(pduType, oids, limit);
      if sendError.Some? {
        var e := sendError.value;
        Raise(SendError, Some(e.sysErrno), Some(Reported(e.snmpErrno)), None, None, None, Some(e.message));
        outcome := Dispatched(pdu, false);
      } else {
        SetWait();
        outcome := Dispatched(pdu, true);
      }
    }

    /**
     * The filling loop of `send`: while the PDU has room and not every head is in it, the
     * front head gives its next request OID and is moved to the back.
     */
    method FillPdu() returns (oids: seq<Oid>, count: nat)
      requires Linked()
      modifies this, heads
      ensures Linked()
      ensures count == BatchSize(pduType, VarBindLimit(request), |old(heads)|) && count <= |old(heads)|
      ensures |oids| == count && forall j :: 0 <= j < count ==> oids[j] == NextReqOid(old(Views(heads))[j])
      ensures Value() == old(Value()).(heads := Rotate(old(Views(heads)), count))
    {
      var limit := request.config.value.maxResponseVarBindsPerPdu.value;
      var objs := heads;
      ghost var hs0 := Views(objs);
      ghost var s0 := Value();
      var list;
      oids, count, list := FillLoop(objs, hs0, pduType, limit, results);
      assert status == s0.status && errFlag == s0.errFlag && errors == s0.errors && results.bytes == s0.bytes;
      SetHeads(list, Rotate(hs0, count));
    }

    /** The list of heads takes its new order. */
    method SetHeads(list: seq<CollectionHead>, ghost views: seq<HeadState>)
      requires Views(list) == views
      requires pduType == PduTypeFor(request) && VarBindLimitSet(request)
      requires forall i :: 0 <= i < |list| ==> list[i].results == results
      requires forall a, b :: 0 <= a < b < |list| ==> list[a] != list[b]
      modifies this
      ensures Linked() && heads == list
      ensures Value() == old(Value()).(heads := views)
    {
      heads := list;
    }
  }

  /**
   * That loop on the list of heads `hs`: it ends after `BatchSize` turns, with the list
   * rotated by that many places and the heads it passed activated.
   */
  method FillLoop(hs: seq<CollectionHead>, ghost hs0: seq<HeadState>, t: PduType, limit: nat, ghost buffer: ResultBuffer)
    returns (oids: seq<Oid>, count: nat, list: seq<CollectionHead>)
    requires |hs| == |hs0| && forall a, b :: 0 <= a < b < |hs| ==> hs[a] != hs[b]
    requires forall j :: 0 <= j < |hs| ==> hs[j].View() == hs0[j] && hs[j].results == buffer
    modifies hs
    ensures count == BatchSize(t, limit, |hs|) && count <= |hs|
    ensures Views(list) == Rotate(hs0, count)
    ensures forall i :: 0 <= i < |list| ==> list[i].results == buffer
    ensures forall a, b :: 0 <= a < b < |list| ==> list[a] != list[b]
    ensures |oids| == count && forall j :: 0 <= j < count ==> oids[j] == NextReqOid(hs0[j])
  {
    oids, count, list := Turns(hs, hs0, t, limit);
    RotatedLinked(hs, count, list, buffer);
    RotatedViews(hs, hs0, count, list);
  }

  /** The turns of the loop themselves. */
  method Turns(hs: seq<CollectionHead>, ghost hs0: seq<HeadState>, t: PduType, limit: nat)
    returns (oids: seq<Oid>, count: nat, list: seq<CollectionHead>)
    requires |hs| == |hs0| && forall a, b :: 0 <= a < b < |hs| ==> hs[a] != hs[b]
    requires forall j :: 0 <= j < |hs| ==> hs[j].View() == hs0[j]
    modifies hs
    ensures count == BatchSize(t, limit, |hs|) && count <= |hs| && list == hs[count..] + hs[..count]
    ensures forall j :: 0 <= j < |hs| ==> hs[j].View() == if j < count then Activate(hs0[j]) else hs0[j]
    ensures |oids| == count && forall j :: 0 <= j < count ==> oids[j] == NextReqOid(hs0[j])
  {
    oids, count, list := [], 0, hs;
    while count < |list| && Room(t, limit, count)
      invariant count <= |hs| && |list| == |hs|
      invariant list == hs[count..] + hs[..count]
      invariant forall j :: 0 <= j < |hs| ==> hs[j].View() == if j < count then Activate(hs0[j]) else hs0[j]
      invariant |oids| == count && forall j :: 0 <= j < count ==> oids[j] == NextReqOid(hs0[j])
      invariant forall j :: 0 <= j < count ==> Room(t, limit, j)
    {
      oids, list := Turn(hs, hs0, count, oids, list);
      count := count + 1;
    }
    BatchSizeUnique(t, limit, |hs|, count);
  }

  /** One turn: the front head gives its next request OID and goes to the back. */
  method Turn(hs: seq<CollectionHead>, ghost hs0: seq<HeadState>, count: nat, oids: seq<Oid>, list: seq<CollectionHead>)
    returns (oids': seq<Oid>, list': seq<CollectionHead>)
    requires count < |hs| == |hs0| && forall a, b :: 0 <= a < b < |hs| ==> hs[a] != hs[b]
    requires list == hs[count..] + hs[..count]
    requires forall j :: 0 <= j < |hs| ==> hs[j].View() == if j < count then Activate(hs0[j]) else hs0[j]
    requires |oids| == count && forall j :: 0 <= j < count ==> oids[j] == NextReqOid(hs0[j])
    modifies hs[count]
    ensures list' == hs[count + 1..] + hs[..count + 1]
    ensures forall j :: 0 <= j < |hs| ==> hs[j].View() == if j <= count then Activate(hs0[j]) else hs0[j]
    ensures |oids'| == count + 1 && forall j :: 0 <= j <= count ==> oids'[j] == NextReqOid(hs0[j])
  {
    assert list[0] == hs[count];
    var oid := ActivateAt(hs, hs0, count);
    oids' := oids + [oid];
    RotateOnce(hs, count, list);
    list' := list[1..] + [list[0]];
  }

  /** The turn of the filling loop at position `i`: that head is activated and gives its OID. */
  method ActivateAt(hs: seq<CollectionHead>, ghost hs0: seq<HeadState>, i: nat) returns (oid: Oid)
    requires i < |hs| == |hs0| && forall a, b :: 0 <= a < b < |hs| ==> hs[a] != hs[b]
    requires forall j :: 0 <= j < |hs| ==> hs[j].View() == if j < i then Activate(hs0[j]) else hs0[j]
    modifies hs[i]
    ensures oid == NextReqOid(hs0[i])
    ensures forall j :: 0 <= j < |hs| ==> hs[j].View() == if j <= i then Activate(hs0[j]) else hs0[j]
  {
    assert forall j :: 0 <= j < |hs| && j != i ==> hs[j] != hs[i];
    oid := hs[i].GetNextReqOid();
  }

  /** The objects moved around keep their buffer and stay distinct. */
  lemma RotatedLinked(objs: seq<CollectionHead>, k: nat, hs: seq<CollectionHead>, buffer: ResultBuffer)
    requires k <= |objs| && hs == objs[k..] + objs[..k]
    requires forall i :: 0 <= i < |objs| ==> objs[i].results == buffer
    requires forall a, b :: 0 <= a < b < |objs| ==> objs[a] != objs[b]
    ensures forall i :: 0 <= i < |hs| ==> hs[i].results == buffer
    ensures forall a, b :: 0 <= a < b < |hs| ==> hs[a] != hs[b]
  {
    var n := |objs|;
    forall a, b | 0 <= a < b < |hs|
      ensures hs[a] != hs[b]
    {
      var pa := if a < n - k then k + a else a - (n - k);
      var pb := if b < n - k then k + b else b - (n - k);
      assert hs[a] == objs[pa] && hs[b] == objs[pb] && pa != pb;
    }
  }

  /** The values of the moved objects are the rotated values. */
  lemma RotatedViews(objs: seq<CollectionHead>, hs0: seq<HeadState>, k: nat, hs: seq<CollectionHead>)
    requires k <= |objs| == |hs0| && hs == objs[k..] + objs[..k]
    requires forall j :: 0 <= j < |objs| ==> objs[j].View() == if j < k then Activate(hs0[j]) else hs0[j]
    ensures Views(hs) == Rotate(hs0, k)
  {
    var n := |objs|;
    var r := Rotate(hs0, k);
    forall j | 0 <= j < n
      ensures hs[j].View() == r[j]
    {
      if j < n - k {
        assert hs[j] == objs[k + j];
      } else {
        assert hs[j] == objs[j - (n - k)];
      }
    }
    ViewsPointwise(hs, r);
  }

  /** One more turn moves the front object to the back. */
  lemma RotateOnce<T>(objs: seq<T>, k: nat, hs: seq<T>)
    requires k < |objs| && hs == objs[k..] + objs[..k]
    ensures hs[1..] + [hs[0]] == objs[k + 1..] + objs[..k + 1]
  {
    assert hs[0] == objs[k];
    assert hs[1..] == objs[k + 1..] + objs[..k];
    assert objs[..k + 1] == objs[..k] + [objs[k]];
  }

  /** What a turn of the pruning loop leaves of a head: a kept head loses its request. */
  function Pruned(v: HeadState): HeadState {
    if Kept(v) then v.(reqOid := None) else v
  }

  /** The head objects the pruning loop keeps, given their views before it, in order. */
  function KeptObjects(hs: seq<CollectionHead>, vs: seq<HeadState>): (r: seq<CollectionHead>)
    requires |hs| == |vs|
    ensures forall m :: 0 <= m < |r| ==> r[m] in hs
  {
    if hs == [] then []
    else
      var n := |hs| - 1;
      var front := KeptObjects(hs[..n], vs[..n]);
      assert forall m :: 0 <= m < |front| ==> front[m] in hs;
      if Kept(vs[n]) then front + [hs[n]] else front
  }

  /** The kept objects, viewed after the loop, are the pruned views. */
  lemma {:induction false} KeptViews(hs: seq<CollectionHead>, vs: seq<HeadState>)
    requires |hs| == |vs| && forall j :: 0 <= j < |hs| ==> hs[j].View() == Pruned(vs[j])
    ensures Views(KeptObjects(hs, vs)) == Prune(vs)
  {
    if hs != [] {
      var n := |hs| - 1;
      KeptViews(hs[..n], vs[..n]);
      ViewsSnoc(KeptObjects(hs[..n], vs[..n]), hs[n]);
    }
  }

  /** What the pruning loop leaves: the pruned views, by distinct heads that share the buffer. */
  lemma KeptFacts(hs: seq<CollectionHead>, vs: seq<HeadState>, buffer: ResultBuffer)
    requires |hs| == |vs| && forall j :: 0 <= j < |hs| ==> hs[j].View() == Pruned(vs[j])
    requires forall a, b :: 0 <= a < b < |hs| ==> hs[a] != hs[b]
    requires forall j :: 0 <= j < |hs| ==> hs[j].results == buffer
    ensures Views(KeptObjects(hs, vs)) == Prune(vs)
    ensures forall a, b :: 0 <= a < b < |KeptObjects(hs, vs)| ==> KeptObjects(hs, vs)[a] != KeptObjects(hs, vs)[b]
    ensures forall m :: 0 <= m < |KeptObjects(hs, vs)| ==> KeptObjects(hs, vs)[m].results == buffer
  {
    KeptViews(hs, vs);
    KeptObjectsDistinct(hs, vs);
  }

  /** Distinct objects stay distinct when some are dropped. */
  lemma {:induction false} KeptObjectsDistinct(hs: seq<CollectionHead>, vs: seq<HeadState>)
    requires |hs| == |vs| && forall a, b :: 0 <= a < b < |hs| ==> hs[a] != hs[b]
    ensures forall a, b :: 0 <= a < b < |KeptObjects(hs, vs)| ==> KeptObjects(hs, vs)[a] != KeptObjects(hs, vs)[b]
  {
    if hs != [] {
      var n := |hs| - 1;
      assert forall a, b :: 0 <= a < b < n ==> hs[..n][a] != hs[..n][b];
      KeptObjectsDistinct(hs[..n], vs[..n]);
      var front := KeptObjects(hs[..n], vs[..n]);
      assert forall a, b :: 0 <= a < b < |front| ==> front[a] != front[b];
      assert forall m :: 0 <= m < |front| ==> front[m] != hs[n] by {
        forall m | 0 <= m < |front|
          ensures front[m] != hs[n]
        {
          var j :| 0 <= j < n && hs[..n][j] == front[m];
        }
      }
      var r := KeptObjects(hs, vs);
      if Kept(vs[n]) {
        assert r == front + [hs[n]];
        forall a, b | 0 <= a < b < |r|
          ensures r[a] != r[b]
        {
          if b == |front| {
            assert r[a] == front[a] && r[b] == hs[n];
          } else {
            assert r[a] == front[a] && r[b] == front[b];
          }
        }
      } else {
        assert r == front;
      }
    }
  }

  /** One turn of the pruning loop, at position `i` of the heads `hs`. */
  method PruneAt(hs: seq<CollectionHead>, ghost hs0: seq<HeadState>, i: nat, kept: seq<CollectionHead>)
    returns (next: seq<CollectionHead>)
    requires i < |hs| == |hs0| && forall a, b :: 0 <= a < b < |hs| ==> hs[a] != hs[b]
    requires kept == KeptObjects(hs[..i], hs0[..i])
    requires forall j :: 0 <= j < |hs| ==> hs[j].View() == if j < i then Pruned(hs0[j]) else hs0[j]
    modifies hs[i]
    ensures next == KeptObjects(hs[..i + 1], hs0[..i + 1])
    ensures forall j :: 0 <= j < |hs| ==> hs[j].View() == if j <= i then Pruned(hs0[j]) else hs0[j]
  {
    var h := hs[i];
    assert hs[..i + 1][..i] == hs[..i] && hs0[..i + 1][..i] == hs0[..i];
    assert forall j :: 0 <= j < |hs| && j != i ==> hs[j] != h;
    var keep := PruneOne(h);
    next := if keep then kept + [h] else kept;
  }

  /**
   * One turn of the pruning loop: whether the head stays, and if it stays with a request
   * it has its request reset.
   */
  method PruneOne(h: CollectionHead) returns (keep: bool)
    modifies h
    ensures keep == Kept(old(h.View()))
    ensures h.View() == if keep then old(h.View()).(reqOid := None) else old(h.View())
  {
    keep := true;
    if h.reqOid.Some? {
      if h.lastRespOid.None? {
        keep := false;
        return;
      }
      h.ResetReqOid();
    }
  }

  lemma ViewsPointwise(objs: seq<CollectionHead>, vs: seq<HeadState>)
    requires |objs| == |vs| && forall m :: 0 <= m < |objs| ==> objs[m].View() == vs[m]
    ensures Views(objs) == vs
  {
  }

  /** The objects `objs` are distinct heads of `buffer` whose values are `vs`. */
  ghost predicate Shows(objs: seq<CollectionHead>, vs: seq<HeadState>, buffer: ResultBuffer)
    reads objs
  {
    && |objs| == |vs|
    && (forall k :: 0 <= k < |objs| ==> objs[k].View() == vs[k] && objs[k].results == buffer)
    && (forall a, b :: 0 <= a < b < |objs| ==> objs[a] != objs[b])
  }

  lemma ShowsConcat(xs: seq<CollectionHead>, ys: seq<CollectionHead>, us: seq<HeadState>, vs: seq<HeadState>,
                    buffer: ResultBuffer)
    requires Shows(xs, us, buffer) && Shows(ys, vs, buffer)
    requires forall a, b :: 0 <= a < |xs| && 0 <= b < |ys| ==> xs[a] != ys[b]
    ensures Shows(xs + ys, us + vs, buffer)
  {
    var zs := xs + ys;
    forall a, b | 0 <= a < b < |zs|
      ensures zs[a] != zs[b]
    {
      if b < |xs| {
        assert zs[a] == xs[a] && zs[b] == xs[b];
      } else if a < |xs| {
        assert zs[a] == xs[a] && zs[b] == ys[b - |xs|];
      } else {
        assert zs[a] == ys[a - |xs|] && zs[b] == ys[b - |xs|];
      }
    }
  }

  /** What an opened session writes to its empty results, and the heads it makes. */
  method NewResults(q: SnmpRequest, little: bool, buffer: ResultBuffer) returns (list: seq<CollectionHead>)
    requires buffer.bytes == []
    modifies buffer
    ensures buffer.bytes == Preamble(q.reqId.GetOr([]), q.oids, little)
    ensures Shows(list, InitialHeads(q.oids, q.ranges), buffer)
  {
    buffer.WriteHeader(little);
    buffer.AppendMetadata(q.reqId, little);
    buffer.AppendWord(|q.oids|, little);
    assert buffer.bytes == Header(little) + Metadata(q.reqId.GetOr([]), little) + Word(|q.oids|, little);
    list := NewHeads(q.oids, q.ranges, little, buffer);
  }

  /**
   * The outer loop of the constructor: the heads of each root OID in turn, and the
   * block of that OID at the back of the results.
   */
  method NewHeads(oids: seq<Oid>, ranges: Option<seq<Range>>, little: bool, buffer: ResultBuffer)
    returns (list: seq<CollectionHead>)
    modifies buffer
    ensures Shows(list, InitialHeads(oids, ranges), buffer)
    ensures buffer.bytes == old(buffer.bytes) + RootBlocks(oids, little)
  {
    list := [];
    var i := 0;
    while i < |oids|
      invariant i <= |oids|
      invariant Shows(list, InitialHeads(oids[..i], ranges), buffer)
      invariant buffer.bytes == old(buffer.bytes) + RootBlocks(oids[..i], little)
    {
      list := ExtendHeads(list, oids, ranges, i, buffer);
      buffer.AppendOidBlock(oids[i], little);
      RootBlocksSnoc(oids, i, little);
      JoinFilled(old(buffer.bytes), RootBlocks(oids[..i], little), OidBlock(oids[i], little));
      i := i + 1;
    }
    assert oids[..i] == oids;
  }

  /** One turn of that loop on the heads: those of root `oids[i]` join the list. */
  method ExtendHeads(list: seq<CollectionHead>, oids: seq<Oid>, ranges: Option<seq<Range>>, i: nat,
                     buffer: ResultBuffer)
    returns (next: seq<CollectionHead>)
    requires i < |oids|
    requires Shows(list, InitialHeads(oids[..i], ranges), buffer)
    ensures Shows(next, InitialHeads(oids[..i + 1], ranges), buffer)
  {
    var hs := NewRootHeads(oids[i], ranges, |list|, buffer);
    ShowsConcat(list, hs, InitialHeads(oids[..i], ranges), RootHeads(oids[i], ranges, |list|), buffer);
    InitialHeadsSnoc(oids, ranges, i);
    next := list + hs;
  }

  /**
   * The inner loop of the constructor: a new head for root `oid` and each range, or one
   * for the whole root, numbered on from `base` by the running `root_oid_index`.
   */
  method NewRootHeads(oid: Oid, ranges: Option<seq<Range>>, base: nat, buffer: ResultBuffer)
    returns (hs: seq<CollectionHead>)
    ensures Shows(hs, RootHeads(oid, ranges, base), buffer)
    ensures forall k :: 0 <= k < |hs| ==> fresh(hs[k])
  {
    if ranges.Some? && |ranges.value| > 0 {
      hs := [];
      var j := 0;
      while j < |ranges.value|
        invariant j <= |ranges.value| && |hs| == j
        invariant forall k :: 0 <= k < j ==> fresh(hs[k]) && hs[k].results == buffer
        invariant forall k :: 0 <= k < j ==> hs[k].View() == HeadState(base + k, oid, HeadRange(oid, RangeAt(ranges, k)), None, None)
        invariant forall a, b :: 0 <= a < b < j ==> hs[a] != hs[b]
      {
        var h := new CollectionHead(base + j, oid, Some(ranges.value[j]), buffer);
        hs := hs + [h];
        j := j + 1;
      }
    } else {
      var h := new CollectionHead(base, oid, None, buffer);
      hs := [h];
    }
  }

  lemma ViewsSnoc(hs: seq<CollectionHead>, h: CollectionHead)
    ensures Views(hs + [h]) == Views(hs) + [h.View()]
  {
  }
}
