/**
 * What one session does, on values: the state a `Session` holds, and one function per
 * thing that happens to it — a response binding is matched (`process_var_bind`), the
 * library calls back (`process_pdu`), the next request PDU is filled (`send`) and the
 * session is built (the constructor's collection heads). The `Session` class is proved
 * to follow these functions; the lemmas here say what the functions promise.
 */
module Steps {
  import opened Wrappers
  import opened ObjectIdentities
  import opened Ranges
  import opened Bytes
  import opened Layout
  import opened Text
  import opened Requests
  import opened Heads

  datatype Status = Idle | Wait | Closed

  /** The request PDU kind: GET for a GET request, GETNEXT (v1) or GETBULK (v2c) for a walk. */
  datatype PduType = GetPdu | GetNextPdu | GetBulkPdu

  function PduTypeFor(q: SnmpRequest): (t: PduType)
    ensures t == GetPdu <==> q.kind == GetRequest
    ensures t.GetBulkPdu? <==> q.kind.WalkRequest? && q.community.version.V2C?
  {
    if q.kind == GetRequest then GetPdu
    else if q.community.version == V1 then GetNextPdu
    else GetBulkPdu
  }

  datatype ErrorType =
    | SessionError
    | CreateRequestPduError
    | SendError
    | BadResponsePduError
    | TimeoutError
    | AsyncProbeError
    | TransportDisconnectError
    | CreateResponsePduError
    | ValueWarning

  /**
   * An SNMP library error number: the session names three of them itself; any other is
   * whatever the library reported.
   */
  datatype SnmpErrno = ErrTimeout | ErrAbort | ErrProtocol | Reported(code: int)

  /** `SnmpError`: a type, the session's request and the optional details. */
  datatype SnmpError = SnmpError(
    kind: ErrorType,
    request: SnmpRequest,
    sysErrno: Option<int>,
    snmpErrno: Option<SnmpErrno>,
    errStat: Option<int>,
    errIndex: Option<int>,
    errOid: Option<Oid>,
    message: Option<string>)

  /** What the library reports about a failed open or send. */
  datatype LibraryError = LibraryError(sysErrno: int, snmpErrno: int, message: string)

  /** The three exception value types and their names. */
  function WarningName(t: Byte): (r: Option<string>)
    ensures r.Some? <==> 128 <= t <= 130
  {
    if t == 128 then Some("NO_SUCH_OBJECT")
    else if t == 129 then Some("NO_SUCH_INSTANCE")
    else if t == 130 then Some("END_OF_MIB_VIEW")
    else None
  }

  /** The state of a session: its status, its heads in list order, its errors and results. */
  datatype State = State(
    status: Status,
    heads: seq<HeadState>,
    errFlag: bool,
    errors: seq<SnmpError>,
    bytes: seq<Byte>)

  predicate HeadsUnderRoot(hs: seq<HeadState>) {
    forall i :: 0 <= i < |hs| ==> UnderRoot(hs[i])
  }

  /** No head is part of a PDU in flight. */
  predicate Inactive(hs: seq<HeadState>) {
    forall i :: 0 <= i < |hs| ==> hs[i].reqOid.None?
  }

  /** Every head that was just sent a request has not accepted a response yet. */
  predicate ActiveFresh(hs: seq<HeadState>) {
    forall i :: 0 <= i < |hs| ==> hs[i].reqOid.Some? ==> hs[i].lastRespOid.None?
  }

  /** Two lists of head values for the same heads, each with the same `req_oid`. */
  predicate SameHeads(a: seq<HeadState>, b: seq<HeadState>) {
    |a| == |b| && forall i :: 0 <= i < |a| ==> SameTarget(a[i], b[i]) && a[i].reqOid == b[i].reqOid
  }

  lemma SameHeadsUnderRoot(a: seq<HeadState>, b: seq<HeadState>)
    requires SameHeads(a, b) && HeadsUnderRoot(a)
    ensures HeadsUnderRoot(b)
  {
    forall i | 0 <= i < |b|
      ensures UnderRoot(b[i])
    {
      assert SameTarget(a[i], b[i]);
    }
  }

  /** The session's error path: record `e`, close the session and raise the error flag. */
  function Fail(s: State, e: SnmpError): (r: State)
    ensures r.status == Closed && r.errFlag && r.errors == s.errors + [e]
    ensures |r.errors| > |s.errors| && r.errors[..|s.errors|] == s.errors
    ensures r.heads == s.heads && r.bytes == s.bytes
  {
    s.(status := Closed, errFlag := true, errors := s.errors + [e])
  }

  // ---------------------------------------------------------------- process_var_bind

  /**
   * The `find_if` predicate: the head was sent a request in this PDU, and for a GET the
   * OID is its range's point; for a WALK the OID lies between start and stop, or under
   * the stop.
   */
  predicate Matches(kind: RequestType, h: HeadState, oid: Oid) {
    h.reqOid.Some? &&
    if kind == GetRequest then h.range.start == oid
    else (GreaterEq(oid, h.range.start) && LessEq(oid, h.range.stop)) || IsRootOf(h.range.stop, oid)
  }

  /** A binding is only ever matched to a head whose root it lies under. */
  lemma MatchIsUnderRoot(kind: RequestType, h: HeadState, oid: Oid)
    requires UnderRoot(h) && Matches(kind, h, oid)
    ensures IsRootOf(h.rootOid, oid)
  {
    var r := h.rootOid;
    if kind == GetRequest {
    } else if IsRootOf(h.range.stop, oid) {
      RootOfTransitive(r, h.range.stop, oid);
    } else {
      var s, t := h.range.start[|r|..], h.range.stop[|r|..];
      assert Concat(r, s) == h.range.start && Concat(r, t) == h.range.stop;
      DerivedOperators(oid, h.range.start);
      BetweenExtensionsIsUnderRoot(r, s, t, oid);
    }
  }

  /**
   * A walk head built from request range `x` matches exactly the OIDs under its root whose
   * arcs below the root pass the walk test for `x`: the test the WALK merge has to keep.
   */
  lemma HeadMatchesMask(h: HeadState, x: Range, o: Oid)
    requires h.reqOid.Some? && h.range == HeadRange(h.rootOid, Some(x))
    ensures Matches(WalkRequest, h, o) <==> IsRootOf(h.rootOid, o) && Masks(x, o[|h.rootOid|..])
  {
    var r := h.rootOid;
    if Matches(WalkRequest, h, o) {
      MatchIsUnderRoot(WalkRequest, h, o);
    }
    if IsRootOf(r, o) {
      var u := o[|r|..];
      assert o == Concat(r, u);
      ConcatPreservesCompare(r, u, x.start);
      ConcatPreservesCompare(r, u, x.stop);
      DerivedOperators(u, x.start);
      DerivedOperators(o, h.range.start);
      ConcatPreservesRoot(r, x.stop, u);
    }
  }

  /**
   * A walk head whose request range has no stop matches the whole subtree of its root,
   * whatever the range's start: the stop becomes the root, and everything under the stop
   * matches.
   */
  lemma OpenStopMatchesSubtree(h: HeadState, x: Range, o: Oid)
    requires h.reqOid.Some? && h.range == HeadRange(h.rootOid, Some(x)) && x.stop == []
    ensures Matches(WalkRequest, h, o) <==> IsRootOf(h.rootOid, o)
  {
    assert h.range.stop == h.rootOid;
    if Matches(WalkRequest, h, o) {
      MatchIsUnderRoot(WalkRequest, h, o);
    }
  }

  /** The position of the first head that matches, as `std::find_if` finds it. */
  function FindHead(kind: RequestType, hs: seq<HeadState>, oid: Oid): (r: Option<nat>)
    ensures r.Some? ==> r.value < |hs| && Matches(kind, hs[r.value], oid)
    ensures r.Some? ==> forall j :: 0 <= j < r.value ==> !Matches(kind, hs[j], oid)
    ensures r.None? ==> forall j :: 0 <= j < |hs| ==> !Matches(kind, hs[j], oid)
  {
    if hs == [] then None
    else if Matches(kind, hs[0], oid) then Some(0)
    else
      match FindHead(kind, hs[1..], oid)
      case None => None
      case Some(i) => Some(i + 1)
  }

  /** The OID a walk head must go beyond: its last response, or else its request. */
  function Cursor(h: HeadState): Oid
    requires h.reqOid.Some?
  {
    if h.lastRespOid.Some? then h.lastRespOid.value else h.reqOid.value
  }

  /** A discarded binding of a GET: a value warning naming its index and OID. */
  function Warn(q: SnmpRequest, s: State, vb: VarBind, message: string): (r: State)
    ensures r.heads == s.heads && r.status == s.status && r.bytes == s.bytes
  {
    s.(errFlag := true,
       errors := s.errors + [SnmpError(ValueWarning, q, None, None, None, Some(vb.index), Some(vb.oid), Some(message))])
  }

  /** `append_result` of head `i`, on the value: one more record, still word-aligned. */
  function Accept(s: State, i: nat, vb: VarBind, timestamp: nat, little: bool): (r: State)
    requires i < |s.heads| && IsRootOf(s.heads[i].rootOid, vb.oid)
    ensures r.heads == s.heads && r.status == s.status && r.errors == s.errors && r.errFlag == s.errFlag
    ensures |r.bytes| > |s.bytes|
    ensures var h := s.heads[i];
      r.bytes == s.bytes + Record(timestamp, h.rootOidIndex, vb.valueType, vb.oid[|h.rootOid|..], vb.value, little)
    ensures |s.bytes| % WORD == 0 ==> |r.bytes| % WORD == 0
  {
    var h := s.heads[i];
    var record := Record(timestamp, h.rootOidIndex, vb.valueType, vb.oid[|h.rootOid|..], vb.value, little);
    RecordLength(timestamp, h.rootOidIndex, vb.valueType, vb.oid[|h.rootOid|..], vb.value, little);
    if |s.bytes| % WORD == 0 then
      AlignedConcat(s.bytes, record);
      s.(bytes := s.bytes + record)
    else s.(bytes := s.bytes + record)
  }

  /** The GET branch of `process_var_bind`. */
  function GetStep(q: SnmpRequest, s: State, vb: VarBind, timestamp: nat, little: bool): (r: State)
    requires HeadsUnderRoot(s.heads)
    ensures r.heads == s.heads && r.status == s.status
    ensures |s.bytes| % WORD == 0 ==> |r.bytes| % WORD == 0
  {
    var found := FindHead(GetRequest, s.heads, vb.oid);
    if found.None? then Warn(q, s, vb, "root OID not found")
    else
      var h := s.heads[found.value];
      MatchIsUnderRoot(GetRequest, h, vb.oid);
      if vb.oid != h.reqOid.value then
        Warn(q, s, vb, "request OID does not match response OID: " + OidText(h.reqOid.value))
      else if WarningName(vb.valueType).Some? then Warn(q, s, vb, WarningName(vb.valueType).value)
      else Accept(s, found.value, vb, timestamp, little)
  }

  /** The WALK branch of `process_var_bind`. */
  function WalkStep(s: State, vb: VarBind, timestamp: nat, little: bool): (r: State)
    requires HeadsUnderRoot(s.heads)
    ensures SameHeads(s.heads, r.heads) && r.status == s.status
    ensures |s.bytes| % WORD == 0 ==> |r.bytes| % WORD == 0
  {
    var found := FindHead(WalkRequest, s.heads, vb.oid);
    if found.None? then s
    else
      var i := found.value;
      var h := s.heads[i];
      MatchIsUnderRoot(WalkRequest, h, vb.oid);
      if LessEq(vb.oid, Cursor(h)) then s
      else Accept(s.(heads := s.heads[i := h.(lastRespOid := Some(vb.oid))]), i, vb, timestamp, little)
  }

  /** `process_var_bind`. */
  function VarBindStep(q: SnmpRequest, s: State, vb: VarBind, timestamp: nat, little: bool): (r: State)
    requires HeadsUnderRoot(s.heads)
    ensures SameHeads(s.heads, r.heads) && HeadsUnderRoot(r.heads)
    ensures r.status == s.status
    ensures |s.bytes| % WORD == 0 ==> |r.bytes| % WORD == 0
  {
    var r := if q.kind == GetRequest then GetStep(q, s, vb, timestamp, little) else WalkStep(s, vb, timestamp, little);
    SameHeadsUnderRoot(s.heads, r.heads);
    r
  }

  /** The bindings of one response PDU, in order. */
  function ApplyVarBinds(q: SnmpRequest, s: State, vbs: seq<VarBind>, timestamp: nat, little: bool): (r: State)
    requires HeadsUnderRoot(s.heads)
    ensures SameHeads(s.heads, r.heads) && HeadsUnderRoot(r.heads)
    ensures r.status == s.status
    ensures |s.bytes| % WORD == 0 ==> |r.bytes| % WORD == 0
    decreases |vbs|
  {
    if vbs == [] then s
    else
      var prior := ApplyVarBinds(q, s, vbs[..|vbs| - 1], timestamp, little);
      var r := VarBindStep(q, prior, vbs[|vbs| - 1], timestamp, little);
      assert SameHeads(s.heads, r.heads) by {
        forall i | 0 <= i < |s.heads|
          ensures SameTarget(s.heads[i], r.heads[i])
        {
          assert SameTarget(s.heads[i], prior.heads[i]) && SameTarget(prior.heads[i], r.heads[i]);
        }
      }
      r
  }

  /** One more binding is one more step. */
  lemma ApplyVarBindsSnoc(q: SnmpRequest, s: State, vbs: seq<VarBind>, k: nat, timestamp: nat, little: bool)
    requires HeadsUnderRoot(s.heads) && k < |vbs|
    ensures ApplyVarBinds(q, s, vbs[..k + 1], timestamp, little) ==
            VarBindStep(q, ApplyVarBinds(q, s, vbs[..k], timestamp, little), vbs[k], timestamp, little)
  {
    assert vbs[..k + 1][..k] == vbs[..k];
  }

  // ---------------------------------------------------------------- the rules of a binding

  /**
   * The GET rules: a binding is recorded exactly when an active head has it as its point
   * and its request, and its value is not one of the three exceptions; every other
   * binding adds one value warning with its index and OID and raises the error flag.
   * The heads are left alone either way.
   */
  lemma GetBindingRules(q: SnmpRequest, s: State, vb: VarBind, timestamp: nat, little: bool)
    requires q.kind == GetRequest && HeadsUnderRoot(s.heads)
    ensures var r := VarBindStep(q, s, vb, timestamp, little);
      var found := FindHead(q.kind, s.heads, vb.oid);
      var accepted := found.Some? && vb.oid == s.heads[found.value].reqOid.value && !(128 <= vb.valueType <= 130);
      && r.heads == s.heads
      && (accepted ==> var h := s.heads[found.value];
                       && r.errors == s.errors && r.errFlag == s.errFlag && |r.bytes| > |s.bytes|
                       && r.bytes == s.bytes + Record(timestamp, h.rootOidIndex, vb.valueType, vb.oid[|h.rootOid|..],
                                                      vb.value, little))
      && (!accepted ==> r.bytes == s.bytes && r.errFlag && |r.errors| == |s.errors| + 1
                        && r.errors[..|s.errors|] == s.errors
                        && r.errors[|s.errors|].kind == ValueWarning
                        && r.errors[|s.errors|].errOid == Some(vb.oid)
                        && r.errors[|s.errors|].errIndex == Some(vb.index))
  {
    var r := VarBindStep(q, s, vb, timestamp, little);
    var found := FindHead(q.kind, s.heads, vb.oid);
    if found.Some? && vb.oid == s.heads[found.value].reqOid.value && WarningName(vb.valueType).None? {
      var h := s.heads[found.value];
      RecordLength(timestamp, h.rootOidIndex, vb.valueType, vb.oid[|h.rootOid|..], vb.value, little);
    }
  }

  /**
   * The WALK rules: a binding is recorded exactly when an active head matches it and it
   * lies strictly beyond that head's cursor; the head's last response becomes the
   * binding's OID and the results grow by that one record. Any other binding is dropped
   * without a trace.
   */
  lemma WalkBindingRules(q: SnmpRequest, s: State, vb: VarBind, timestamp: nat, little: bool)
    requires q.kind == WalkRequest && HeadsUnderRoot(s.heads)
    ensures var r := VarBindStep(q, s, vb, timestamp, little);
      var found := FindHead(q.kind, s.heads, vb.oid);
      if found.Some? && Less(Cursor(s.heads[found.value]), vb.oid) then
        var h := s.heads[found.value];
        && IsRootOf(h.rootOid, vb.oid)
        && r.heads == s.heads[found.value := h.(lastRespOid := Some(vb.oid))]
        && r.bytes == s.bytes + Record(timestamp, h.rootOidIndex, vb.valueType, vb.oid[|h.rootOid|..], vb.value, little)
        && r.errors == s.errors && r.errFlag == s.errFlag
      else r == s
  {
    var found := FindHead(q.kind, s.heads, vb.oid);
    if found.Some? {
      var h := s.heads[found.value];
      MatchIsUnderRoot(q.kind, h, vb.oid);
      DerivedOperators(vb.oid, Cursor(h));
      DerivedOperators(Cursor(h), vb.oid);
    }
  }

  /**
   * Over the bindings of a walk PDU a head's cursor only moves forward, and a head that
   * accepted anything has a last response strictly beyond the cursor it started with.
   */
  lemma {:induction false} WalkCursorAdvances(q: SnmpRequest, s: State, vbs: seq<VarBind>, timestamp: nat,
                                              little: bool, i: nat)
    requires q.kind == WalkRequest && HeadsUnderRoot(s.heads)
    requires i < |s.heads| && s.heads[i].reqOid.Some?
    ensures var r := ApplyVarBinds(q, s, vbs, timestamp, little);
      && LessEq(Cursor(s.heads[i]), Cursor(r.heads[i]))
      && (r.heads[i] != s.heads[i] ==> r.heads[i].lastRespOid.Some? && Less(Cursor(s.heads[i]), Cursor(r.heads[i])))
    decreases |vbs|
  {
    var r := ApplyVarBinds(q, s, vbs, timestamp, little);
    if vbs != [] {
      var prior := ApplyVarBinds(q, s, vbs[..|vbs| - 1], timestamp, little);
      var vb := vbs[|vbs| - 1];
      WalkCursorAdvances(q, s, vbs[..|vbs| - 1], timestamp, little, i);
      WalkBindingRules(q, prior, vb, timestamp, little);
      var found := FindHead(q.kind, prior.heads, vb.oid);
      assert prior.heads[i].reqOid == s.heads[i].reqOid;
      if found.Some? && found.value == i && Less(Cursor(prior.heads[i]), vb.oid) {
        assert Cursor(r.heads[i]) == vb.oid;
        if Cursor(prior.heads[i]) != Cursor(s.heads[i]) {
          LessTransitive(Cursor(s.heads[i]), Cursor(prior.heads[i]), vb.oid);
        }
        DerivedOperators(Cursor(s.heads[i]), vb.oid);
      } else {
        assert r.heads[i] == prior.heads[i];
      }
    } else {
      DerivedOperators(Cursor(s.heads[i]), Cursor(s.heads[i]));
    }
  }

  /** A GET never sets a last response OID: only the results and the errors change. */
  lemma {:induction false} GetKeepsHeads(q: SnmpRequest, s: State, vbs: seq<VarBind>, timestamp: nat, little: bool)
    requires q.kind == GetRequest && HeadsUnderRoot(s.heads)
    ensures ApplyVarBinds(q, s, vbs, timestamp, little).heads == s.heads
    decreases |vbs|
  {
    if vbs != [] {
      var prior := ApplyVarBinds(q, s, vbs[..|vbs| - 1], timestamp, little);
      GetKeepsHeads(q, s, vbs[..|vbs| - 1], timestamp, little);
      GetBindingRules(q, prior, vbs[|vbs| - 1], timestamp, little);
    }
  }

  // ---------------------------------------------------------------- process_pdu

  /** What `snmp_pdu_type` names the command of a response PDU. */
  datatype PduCommand = ResponsePdu | OtherPdu(name: string)

  /**
   * A received PDU: its command, error status and index, the text `snmp_errstring` gives
   * for that status, and the bindings in order.
   */
  datatype Pdu = Pdu(
    command: PduCommand,
    errStat: int,
    errIndex: int,
    errStatText: string,
    varBinds: seq<VarBind>)

  /** The operation the library calls back with; a received message may carry no PDU. */
  datatype Callback = Received(pdu: Option<Pdu>) | TimedOut | SendFailed | Disconnect | Resend

  /** The position of the first binding whose index is `errIndex`, or `|vbs|` when none is. */
  function ErrorPosition(vbs: seq<VarBind>, errIndex: int): (r: nat)
    ensures r <= |vbs|
    ensures forall j :: 0 <= j < r ==> vbs[j].index != errIndex
    ensures r < |vbs| ==> vbs[r].index == errIndex
  {
    if vbs == [] then 0
    else if vbs[0].index == errIndex then 0
    else 1 + ErrorPosition(vbs[1..], errIndex)
  }

  /** The OID of the binding with the error, if one has the error index. */
  function ErrorOid(vbs: seq<VarBind>, errIndex: int): Option<Oid> {
    var j := ErrorPosition(vbs, errIndex);
    if j < |vbs| then Some(vbs[j].oid) else None
  }

  /** The operation dispatch of `process_pdu`, before the heads are pruned. */
  function CallbackEffect(q: SnmpRequest, s: State, cb: Callback, timestamp: nat, little: bool): (r: State)
    requires HeadsUnderRoot(s.heads)
    ensures SameHeads(s.heads, r.heads) && HeadsUnderRoot(r.heads)
    ensures |s.bytes| % WORD == 0 ==> |r.bytes| % WORD == 0
  {
    if IsFailure(cb) then Fail(if cb.Received? then s.(status := Idle) else s, FailureError(q, cb))
    else if cb.Resend? then s
    else ApplyVarBinds(q, s.(status := Idle), cb.pdu.value.varBinds, timestamp, little)
  }

  /** The operations that end the session with an error. */
  predicate IsFailure(cb: Callback) {
    match cb
    case Received(None) => true
    case Received(Some(p)) => p.command.OtherPdu? || p.errStat != 0
    case Resend => false
    case _ => true
  }

  /** The error each failing operation records, with the texts and codes `process_pdu` uses. */
  function FailureError(q: SnmpRequest, cb: Callback): SnmpError
    requires IsFailure(cb)
  {
    match cb
    case Received(None) =>
      SnmpError(CreateResponsePduError, q, None, None, None, None, None,
                Some("failed to allocate memory for the response PDU"))
    case Received(Some(p)) =>
      if p.command.OtherPdu? then
        SnmpError(BadResponsePduError, q, None, Some(ErrProtocol), None, None, None,
                  Some("expected RESPONSE-PDU, got " + p.command.name + "-PDU"))
      else
        SnmpError(BadResponsePduError, q, None, None, Some(p.errStat), Some(p.errIndex),
                  ErrorOid(p.varBinds, p.errIndex), Some(p.errStatText))
    case TimedOut =>
      SnmpError(TimeoutError, q, None, Some(ErrTimeout), None, None, None, Some("timeout error"))
    case SendFailed =>
      SnmpError(AsyncProbeError, q, None, None, None, None, None, Some("async probe error"))
    case Disconnect =>
      SnmpError(TransportDisconnectError, q, None, Some(ErrAbort), None, None, None, Some("transport disconnect error"))
  }

  /** A received message sets the status to idle first, so the status before does not matter. */
  lemma ReceivedFromIdle(q: SnmpRequest, s: State, pdu: Option<Pdu>, timestamp: nat, little: bool)
    requires HeadsUnderRoot(s.heads)
    ensures CallbackEffect(q, s.(status := Idle), Received(pdu), timestamp, little) ==
            CallbackEffect(q, s, Received(pdu), timestamp, little)
  {
    assert s.(status := Idle).(status := Idle) == s.(status := Idle);
  }

  /** A head survives the round unless it was sent a request and accepted nothing. */
  predicate Kept(h: HeadState) {
    h.reqOid.None? || h.lastRespOid.Some?
  }

  /** The pruning loop: the heads that are kept, in order, each with `req_oid` cleared. */
  function Prune(hs: seq<HeadState>): (r: seq<HeadState>)
    ensures |r| <= |hs|
    ensures Inactive(r)
    ensures HeadsUnderRoot(hs) ==> HeadsUnderRoot(r)
  {
    if hs == [] then []
    else
      var h := hs[|hs| - 1];
      var front := Prune(hs[..|hs| - 1]);
      assert HeadsUnderRoot(hs) ==> HeadsUnderRoot(hs[..|hs| - 1]) && UnderRoot(h);
      if Kept(h) then front + [h.(reqOid := None)] else front
  }

  /** After the dispatch: prune the heads, and close the session once none is left. */
  function Finish(s: State): (r: State)
    ensures r.heads == Prune(s.heads)
    ensures r.status == (if r.heads == [] then Closed else s.status)
    ensures r.errors == s.errors && r.errFlag == s.errFlag && r.bytes == s.bytes
  {
    var hs := Prune(s.heads);
    s.(heads := hs, status := if hs == [] then Closed else s.status)
  }

  /** `process_pdu`: the dispatch, then the pruning. */
  function PduStep(q: SnmpRequest, s: State, cb: Callback, timestamp: nat, little: bool): (r: State)
    requires HeadsUnderRoot(s.heads)
    ensures Inactive(r.heads) && HeadsUnderRoot(r.heads)
    ensures r.heads == [] ==> r.status == Closed
    ensures |s.bytes| % WORD == 0 ==> |r.bytes| % WORD == 0
  {
    Finish(CallbackEffect(q, s, cb, timestamp, little))
  }

  // ---------------------------------------------------------------- what a callback does


  /**
   * A timeout, a send failure, a disconnect, a missing PDU, a PDU that is not a response
   * and a response with an error status each record one error of their own type and
   * close the session; the heads are pruned and nothing is added to the results.
   */
  lemma FailuresClose(q: SnmpRequest, s: State, cb: Callback, timestamp: nat, little: bool)
    requires HeadsUnderRoot(s.heads) && IsFailure(cb)
    ensures var r := PduStep(q, s, cb, timestamp, little);
      && r.status == Closed && r.errFlag && r.bytes == s.bytes && r.heads == Prune(s.heads)
      && |r.errors| == |s.errors| + 1 && r.errors[..|s.errors|] == s.errors
      && var e := r.errors[|s.errors|];
      && e.request == q
      && (cb.TimedOut? ==> e.kind == TimeoutError && e.snmpErrno == Some(ErrTimeout))
      && (cb.SendFailed? ==> e.kind == AsyncProbeError && e.snmpErrno.None?)
      && (cb.Disconnect? ==> e.kind == TransportDisconnectError && e.snmpErrno == Some(ErrAbort))
      && (cb == Received(None) ==> e.kind == CreateResponsePduError)
      && (cb.Received? && cb.pdu.Some? && cb.pdu.value.command.OtherPdu? ==>
            e.kind == BadResponsePduError && e.snmpErrno == Some(ErrProtocol))
      && (cb.Received? && cb.pdu.Some? && cb.pdu.value.command == ResponsePdu ==>
            e.kind == BadResponsePduError && e.errStat == Some(cb.pdu.value.errStat)
            && e.errIndex == Some(cb.pdu.value.errIndex)
            && e.errOid == ErrorOid(cb.pdu.value.varBinds, cb.pdu.value.errIndex))
  {
    var e := FailureError(q, cb);
    var m := Fail(if cb.Received? then s.(status := Idle) else s, e);
    assert CallbackEffect(q, s, cb, timestamp, little) == m;
    assert PduStep(q, s, cb, timestamp, little) == Finish(m);
    FailureErrorFields(q, cb);
  }

  /** The type and codes of the error each failing operation records. */
  lemma FailureErrorFields(q: SnmpRequest, cb: Callback)
    requires IsFailure(cb)
    ensures var e := FailureError(q, cb);
      && e.request == q
      && (cb.TimedOut? ==> e.kind == TimeoutError && e.snmpErrno == Some(ErrTimeout))
      && (cb.SendFailed? ==> e.kind == AsyncProbeError && e.snmpErrno.None?)
      && (cb.Disconnect? ==> e.kind == TransportDisconnectError && e.snmpErrno == Some(ErrAbort))
      && (cb == Received(None) ==> e.kind == CreateResponsePduError)
      && (cb.Received? && cb.pdu.Some? && cb.pdu.value.command.OtherPdu? ==>
            e.kind == BadResponsePduError && e.snmpErrno == Some(ErrProtocol))
      && (cb.Received? && cb.pdu.Some? && cb.pdu.value.command == ResponsePdu ==>
            e.kind == BadResponsePduError && e.errStat == Some(cb.pdu.value.errStat)
            && e.errIndex == Some(cb.pdu.value.errIndex)
            && e.errOid == ErrorOid(cb.pdu.value.varBinds, cb.pdu.value.errIndex))
  {
  }

  /**
   * A response without an error status hands every binding to `process_var_bind` and
   * leaves the session idle, unless no head survives the pruning; a resend changes
   * nothing but the pruning.
   */
  lemma ResponseAndResend(q: SnmpRequest, s: State, cb: Callback, timestamp: nat, little: bool)
    requires HeadsUnderRoot(s.heads) && !IsFailure(cb)
    ensures var r := PduStep(q, s, cb, timestamp, little);
      && (cb.Resend? ==> r == Finish(s))
      && (cb.Received? ==>
            var m := ApplyVarBinds(q, s.(status := Idle), cb.pdu.value.varBinds, timestamp, little);
            r == Finish(m) && r.status == (if r.heads == [] then Closed else Idle))
  {
  }

  /**
   * The pruning keeps exactly the heads that were not sent a request or accepted a
   * response, each with `req_oid` cleared; with no head in flight it changes nothing.
   */
  lemma PruneKeepsExactly(hs: seq<HeadState>)
    ensures forall h :: h in Prune(hs) ==> exists i :: 0 <= i < |hs| && Kept(hs[i]) && h == hs[i].(reqOid := None)
    ensures forall i :: 0 <= i < |hs| && Kept(hs[i]) ==> hs[i].(reqOid := None) in Prune(hs)
    ensures Inactive(hs) ==> Prune(hs) == hs
  {
    PruneOnlyKept(hs);
    PruneKeepsAllKept(hs);
    if Inactive(hs) {
      PruneInactive(hs);
    }
  }

  lemma {:induction false} PruneOnlyKept(hs: seq<HeadState>)
    ensures forall h :: h in Prune(hs) ==> exists i :: 0 <= i < |hs| && Kept(hs[i]) && h == hs[i].(reqOid := None)
  {
    if hs != [] {
      var n := |hs| - 1;
      PruneOnlyKept(hs[..n]);
      var front := Prune(hs[..n]);
      forall h | h in Prune(hs)
        ensures exists i :: 0 <= i < |hs| && Kept(hs[i]) && h == hs[i].(reqOid := None)
      {
        if h in front {
          var i :| 0 <= i < n && Kept(hs[..n][i]) && h == hs[..n][i].(reqOid := None);
          assert hs[..n][i] == hs[i];
        } else {
          assert Kept(hs[n]) && h == hs[n].(reqOid := None);
        }
      }
    }
  }

  lemma {:induction false} PruneKeepsAllKept(hs: seq<HeadState>)
    ensures forall i :: 0 <= i < |hs| && Kept(hs[i]) ==> hs[i].(reqOid := None) in Prune(hs)
  {
    if hs != [] {
      var n := |hs| - 1;
      PruneKeepsAllKept(hs[..n]);
      var front := Prune(hs[..n]);
      assert Prune(hs) == if Kept(hs[n]) then front + [hs[n].(reqOid := None)] else front;
      forall i | 0 <= i < |hs| && Kept(hs[i])
        ensures hs[i].(reqOid := None) in Prune(hs)
      {
        if i < n {
          assert hs[..n][i] == hs[i];
          assert hs[i].(reqOid := None) in front;
        }
      }
    }
  }

  lemma {:induction false} PruneInactive(hs: seq<HeadState>)
    requires Inactive(hs)
    ensures Prune(hs) == hs
  {
    if hs != [] {
      var n := |hs| - 1;
      assert Inactive(hs[..n]);
      PruneInactive(hs[..n]);
      assert hs[n].(reqOid := None) == hs[n];
      assert hs == hs[..n] + [hs[n]];
    }
  }

  /** A binding only ever changes the head it is matched to, which is one in flight. */
  lemma {:induction false} IdleHeadsUntouched(q: SnmpRequest, s: State, vbs: seq<VarBind>, timestamp: nat,
                                              little: bool, i: nat)
    requires HeadsUnderRoot(s.heads) && i < |s.heads| && s.heads[i].reqOid.None?
    ensures ApplyVarBinds(q, s, vbs, timestamp, little).heads[i] == s.heads[i]
    decreases |vbs|
  {
    if vbs != [] {
      var prior := ApplyVarBinds(q, s, vbs[..|vbs| - 1], timestamp, little);
      IdleHeadsUntouched(q, s, vbs[..|vbs| - 1], timestamp, little, i);
      var vb := vbs[|vbs| - 1];
      if q.kind == GetRequest {
        GetBindingRules(q, prior, vb, timestamp, little);
      } else {
        WalkBindingRules(q, prior, vb, timestamp, little);
      }
    }
  }

  /**
   * What a round leaves of a walk head: a head that was not in flight as it was, and one
   * that was with a last response strictly beyond the OID it was sent.
   */
  predicate Advanced(before: HeadState, after: HeadState) {
    SameTarget(before, after) &&
    if before.reqOid.None? then after == before
    else after.lastRespOid.Some? && Less(before.reqOid.value, after.lastRespOid.value)
  }

  /** One head through the dispatch of a walk callback, then the pruning. */
  lemma WalkHeadAdvances(q: SnmpRequest, s: State, cb: Callback, timestamp: nat, little: bool, i: nat)
    requires q.kind == WalkRequest && HeadsUnderRoot(s.heads) && ActiveFresh(s.heads) && i < |s.heads|
    ensures var m := CallbackEffect(q, s, cb, timestamp, little).heads;
      Kept(m[i]) ==> Advanced(s.heads[i], m[i].(reqOid := None))
  {
    var m := CallbackEffect(q, s, cb, timestamp, little).heads;
    assert SameTarget(s.heads[i], m[i]) && s.heads[i].reqOid == m[i].reqOid;
    if cb.Received? && cb.pdu.Some? && cb.pdu.value.command == ResponsePdu && cb.pdu.value.errStat == 0 {
      var s1 := s.(status := Idle);
      if s.heads[i].reqOid.None? {
        IdleHeadsUntouched(q, s1, cb.pdu.value.varBinds, timestamp, little, i);
      } else {
        WalkCursorAdvances(q, s1, cb.pdu.value.varBinds, timestamp, little, i);
      }
    } else {
      assert m[i] == s.heads[i];
    }
  }

  /**
   * The termination argument of a walk: after a round in which the heads in flight had
   * accepted nothing yet, every head left is either one that was not in flight, as it
   * was, or one that was, whose last response now lies strictly beyond the OID it was
   * sent. No other head survives.
   */
  lemma WalkRoundAdvances(q: SnmpRequest, s: State, cb: Callback, timestamp: nat, little: bool)
    requires q.kind == WalkRequest && HeadsUnderRoot(s.heads) && ActiveFresh(s.heads)
    ensures forall h :: h in PduStep(q, s, cb, timestamp, little).heads ==>
      exists i :: 0 <= i < |s.heads| && Advanced(s.heads[i], h)
  {
    var m := CallbackEffect(q, s, cb, timestamp, little);
    PruneKeepsExactly(m.heads);
    forall h | h in Prune(m.heads)
      ensures exists i :: 0 <= i < |s.heads| && Advanced(s.heads[i], h)
    {
      var i :| 0 <= i < |m.heads| && Kept(m.heads[i]) && h == m.heads[i].(reqOid := None);
      WalkHeadAdvances(q, s, cb, timestamp, little, i);
    }
  }

  /** Heads that accepted no response yet: always the case for a GET. */
  predicate NoResponses(hs: seq<HeadState>) {
    forall i :: 0 <= i < |hs| ==> hs[i].lastRespOid.None?
  }

  /**
   * A GET finishes every head it sends in the round it sends it: the heads left after
   * the callback are exactly those that were not in flight, unchanged.
   */
  lemma GetRoundRemovesSent(q: SnmpRequest, s: State, cb: Callback, timestamp: nat, little: bool)
    requires q.kind == GetRequest && HeadsUnderRoot(s.heads) && NoResponses(s.heads)
    ensures var r := PduStep(q, s, cb, timestamp, little);
      && (forall h :: h in r.heads ==> h in s.heads && h.reqOid.None?)
      && (forall i :: 0 <= i < |s.heads| && s.heads[i].reqOid.None? ==> s.heads[i] in r.heads)
      && NoResponses(r.heads)
  {
    GetEffectKeepsHeads(q, s, cb, timestamp, little);
    assert PduStep(q, s, cb, timestamp, little).heads == Prune(s.heads);
    PruneWithoutResponses(s.heads);
  }

  /** For a GET, no callback changes the heads before the pruning. */
  lemma GetEffectKeepsHeads(q: SnmpRequest, s: State, cb: Callback, timestamp: nat, little: bool)
    requires q.kind == GetRequest && HeadsUnderRoot(s.heads)
    ensures CallbackEffect(q, s, cb, timestamp, little).heads == s.heads
  {
    if cb.Received? && cb.pdu.Some? && cb.pdu.value.command == ResponsePdu && cb.pdu.value.errStat == 0 {
      GetKeepsHeads(q, s.(status := Idle), cb.pdu.value.varBinds, timestamp, little);
    }
  }

  /** Without responses, the pruning drops exactly the heads that were sent a request. */
  lemma PruneWithoutResponses(hs: seq<HeadState>)
    requires NoResponses(hs)
    ensures forall h :: h in Prune(hs) ==> h in hs && h.reqOid.None?
    ensures forall i :: 0 <= i < |hs| && hs[i].reqOid.None? ==> hs[i] in Prune(hs)
    ensures NoResponses(Prune(hs))
  {
    PruneKeepsExactly(hs);
    var r := Prune(hs);
    forall i | 0 <= i < |r|
      ensures r[i].lastRespOid.None?
    {
      assert r[i] in r;
    }
  }

  // ---------------------------------------------------------------- send

  /** The configuration value `send` dereferences. */
  predicate VarBindLimitSet(q: SnmpRequest) {
    q.config.Some? && q.config.value.maxResponseVarBindsPerPdu.Some?
  }

  function VarBindLimit(q: SnmpRequest): nat
    requires VarBindLimitSet(q)
  {
    q.config.value.maxResponseVarBindsPerPdu.value
  }

  /**
   * Whether a PDU that holds `k` bindings takes one more: for GETBULK while `k` is below
   * the square root of the limit (for an integer `k`, while `k * k` is below it), else
   * while `k` is below the limit.
   */
  predicate Room(t: PduType, limit: nat, k: nat) {
    if t == GetBulkPdu then k * k < limit else k < limit
  }

  /** The count the filling loop ends at when it starts from `k` with `n` heads. */
  function BatchFrom(t: PduType, limit: nat, n: nat, k: nat): (r: nat)
    requires k <= n
    ensures k <= r <= n
    ensures forall j :: k <= j < r ==> Room(t, limit, j)
    ensures r < n ==> !Room(t, limit, r)
    decreases n - k
  {
    if k < n && Room(t, limit, k) then BatchFrom(t, limit, n, k + 1) else k
  }

  /**
   * The number of bindings `send` puts in a PDU: every head while there is room, so at
   * most the number of heads, and for GET and GETNEXT the smaller of that and the limit.
   */
  function BatchSize(t: PduType, limit: nat, n: nat): (k: nat)
    ensures k <= n
    ensures forall j :: 0 <= j < k ==> Room(t, limit, j)
    ensures k < n ==> !Room(t, limit, k)
    ensures t != GetBulkPdu ==> k == if n <= limit then n else limit
    ensures t == GetBulkPdu && k > 0 ==> (k - 1) * (k - 1) < limit
  {
    var k := BatchFrom(t, limit, n, 0);
    if k > 0 then
      assert Room(t, limit, k - 1);
      k
    else k
  }

  /** The batch size is the only count that has room at every smaller count and stops at a full PDU or at `n`. */
  lemma BatchSizeUnique(t: PduType, limit: nat, n: nat, k: nat)
    requires k <= n && (forall j :: 0 <= j < k ==> Room(t, limit, j)) && (k < n ==> !Room(t, limit, k))
    ensures k == BatchSize(t, limit, n)
  {
  }

  /** The OID `get_next_req_oid` requests for a head. */
  function NextReqOid(h: HeadState): (o: Oid)
    ensures Activate(h).reqOid == Some(o)
  {
    h.lastRespOid.GetOr(h.rootOid)
  }

  function ActivateAll(hs: seq<HeadState>): (r: seq<HeadState>)
    ensures |r| == |hs| && forall i :: 0 <= i < |hs| ==> r[i] == Activate(hs[i])
  {
    seq(|hs|, i requires 0 <= i < |hs| => Activate(hs[i]))
  }

  /**
   * The heads after `k` turns of the filling loop: each turn activates the front head
   * and moves it to the back.
   */
  function Rotate(hs: seq<HeadState>, k: nat): (r: seq<HeadState>)
    requires k <= |hs|
    ensures |r| == |hs|
    ensures forall j :: 0 <= j < |hs| - k ==> r[j] == hs[k + j]
    ensures forall j :: |hs| - k <= j < |hs| ==> r[j] == Activate(hs[j - (|hs| - k)])
  {
    hs[k..] + ActivateAll(hs[..k])
  }

  /** The request PDU `send` hands to the library. */
  datatype RequestPdu = RequestPdu(pduType: PduType, oids: seq<Oid>, maxRepetitions: Option<nat>)

  /** The OIDs the first `k` heads ask for next. */
  function NextOids(hs: seq<HeadState>, k: nat): (r: seq<Oid>)
    requires k <= |hs|
    ensures |r| == k && forall j :: 0 <= j < k ==> r[j] == NextReqOid(hs[j])
  {
    seq(k, j requires 0 <= j < k => NextReqOid(hs[j]))
  }

  /**
   * A PDU with the given bindings. A GETBULK asks for as many repetitions of its `n`
   * bindings as fit in the limit: the most `m` with `n * m <= limit`.
   */
  function MakePdu(t: PduType, oids: seq<Oid>, limit: nat): (p: RequestPdu)
    requires t == GetBulkPdu ==> |oids| > 0
    ensures p.pduType == t && p.oids == oids
    ensures p.maxRepetitions.Some? <==> t == GetBulkPdu
    ensures t == GetBulkPdu ==>
      |oids| * p.maxRepetitions.value <= limit < |oids| * (p.maxRepetitions.value + 1)
  {
    RequestPdu(t, oids, if t == GetBulkPdu then Some(limit / |oids|) else None)
  }

  /** A sequence that agrees with `NextOids` at every position is `NextOids`. */
  lemma SameOids(oids: seq<Oid>, hs: seq<HeadState>, k: nat)
    requires k <= |hs| && |oids| == k && forall j :: 0 <= j < k ==> oids[j] == NextReqOid(hs[j])
    ensures oids == NextOids(hs, k)
  {
  }

  /**
   * How `send` ends: not idle, no PDU allocated, the GETBULK division by a zero count,
   * or the PDU dispatched and whether the library accepted it.
   */
  datatype SendOutcome = NotIdle | PduNotCreated | DivisionByZero | Dispatched(pdu: RequestPdu, accepted: bool)

  datatype SendResult = SendResult(state: State, outcome: SendOutcome)

  /**
   * `send`, with the library's answers as inputs: whether the PDU was allocated, and the
   * error `snmp_sess_async_send` reports, if any.
   */
  function SendStep(q: SnmpRequest, t: PduType, s: State, created: bool, sendError: Option<LibraryError>): (r: SendResult)
    requires VarBindLimitSet(q)
    ensures r.state.bytes == s.bytes
    ensures |r.state.errors| >= |s.errors| && r.state.errors[..|s.errors|] == s.errors
    ensures s.status != Idle ==> r.state == s && r.outcome == NotIdle
  {
    if s.status != Idle then SendResult(s, NotIdle)
    else if !created then
      SendResult(Fail(s, SnmpError(CreateRequestPduError, q, None, None, None, None, None,
                                   Some("failed to allocate memory for the request PDU"))), PduNotCreated)
    else SendBatch(q, t, s, sendError)
  }

  /** `send` once the PDU is allocated: the filling loop, then the dispatch. */
  function SendBatch(q: SnmpRequest, t: PduType, s: State, sendError: Option<LibraryError>): (r: SendResult)
    requires VarBindLimitSet(q)
    ensures r.state.bytes == s.bytes
    ensures |r.state.errors| >= |s.errors| && r.state.errors[..|s.errors|] == s.errors
    ensures r.state.heads == Rotate(s.heads, BatchSize(t, VarBindLimit(q), |s.heads|))
    ensures r.state.status in {Wait, Closed, s.status}
  {
    var limit := VarBindLimit(q);
    var k := BatchSize(t, limit, |s.heads|);
    var s1 := s.(heads := Rotate(s.heads, k));
    if t == GetBulkPdu && k == 0 then SendResult(s1, DivisionByZero)
    else
      var pdu := MakePdu(t, NextOids(s.heads, k), limit);
      if sendError.Some? then
        var e := sendError.value;
        SendResult(Fail(s1, SnmpError(SendError, q, Some(e.sysErrno), Some(Reported(e.snmpErrno)), None, None, None,
                                      Some(e.message))), Dispatched(pdu, false))
      else SendResult(s1.(status := Wait), Dispatched(pdu, true))
  }

  /**
   * An idle session sends: the first `k` heads are activated and moved to the back in
   * order, exactly those `k` are in flight, the PDU asks for their next OIDs, and the
   * session waits for the answer, or is closed with a send error when the library
   * refuses the PDU.
   */
  lemma SendFillsFront(q: SnmpRequest, t: PduType, s: State, created: bool, sendError: Option<LibraryError>)
    requires VarBindLimitSet(q) && s.status == Idle && created && Inactive(s.heads)
    ensures var r := SendStep(q, t, s, created, sendError);
      var n, k := |s.heads|, BatchSize(t, VarBindLimit(q), |s.heads|);
      && r.state.heads == Rotate(s.heads, k)
      && (forall j :: 0 <= j < n ==> (r.state.heads[j].reqOid.Some? <==> n - k <= j))
      && ActiveFresh(r.state.heads)
      && (r.outcome == DivisionByZero <==> t == GetBulkPdu && k == 0)
      && (r.outcome.Dispatched? ==>
            && |r.outcome.pdu.oids| == k
            && (forall j :: 0 <= j < k ==> r.outcome.pdu.oids[j] == NextReqOid(s.heads[j]))
            && (r.outcome.accepted <==> sendError.None?)
            && (r.outcome.accepted ==> r.state.status == Wait && r.state.errors == s.errors)
            && (!r.outcome.accepted ==>
                  r.state.status == Closed && r.state.errFlag && r.state.errors[|s.errors|].kind == SendError))
  {
    var r := SendStep(q, t, s, created, sendError);
    var n, k := |s.heads|, BatchSize(t, VarBindLimit(q), |s.heads|);
    var hs := Rotate(s.heads, k);
    forall j | 0 <= j < n
      ensures hs[j].reqOid.Some? <==> n - k <= j
      ensures hs[j].reqOid.Some? ==> hs[j].lastRespOid.None?
    {
      if j < n - k {
        assert hs[j] == s.heads[k + j];
      }
    }
  }

  /**
   * The consequence of the unchecked zero limit: an idle GETBULK session whose limit is 0
   * fills no binding and then divides the limit by that count of 0.
   */
  lemma ZeroLimitDividesByZero(q: SnmpRequest, s: State, sendError: Option<LibraryError>)
    requires VarBindLimitSet(q) && VarBindLimit(q) == 0 && s.status == Idle
    ensures SendStep(q, GetBulkPdu, s, true, sendError).outcome == DivisionByZero
  {
    assert !Room(GetBulkPdu, 0, 0);
  }

  /**
   * The other kinds with a limit of 0 send an empty PDU and leave every head as it was,
   * and a round with no head in flight prunes nothing: such a session never lets go of
   * a head.
   */
  lemma ZeroLimitStalls(q: SnmpRequest, t: PduType, s: State, cb: Callback, timestamp: nat, little: bool)
    requires VarBindLimitSet(q) && VarBindLimit(q) == 0 && t != GetBulkPdu
    requires s.status == Idle && Inactive(s.heads) && HeadsUnderRoot(s.heads)
    ensures var r := SendStep(q, t, s, true, None);
      && r.outcome == Dispatched(RequestPdu(t, [], None), true)
      && r.state.heads == s.heads
      && PduStep(q, r.state, cb, timestamp, little).heads == s.heads
  {
    var r := SendStep(q, t, s, true, None);
    assert r.state.heads == s.heads[0..] + ActivateAll([]);
    IdleRoundKeepsHeads(q, r.state, cb, timestamp, little);
  }

  /** A round in which no head was in flight leaves the heads as they were. */
  lemma IdleRoundKeepsHeads(q: SnmpRequest, s: State, cb: Callback, timestamp: nat, little: bool)
    requires HeadsUnderRoot(s.heads) && Inactive(s.heads)
    ensures PduStep(q, s, cb, timestamp, little).heads == s.heads
  {
    var m := CallbackEffect(q, s, cb, timestamp, little);
    forall i | 0 <= i < |s.heads|
      ensures m.heads[i] == s.heads[i]
    {
      if cb.Received? && cb.pdu.Some? && cb.pdu.value.command == ResponsePdu && cb.pdu.value.errStat == 0 {
        IdleHeadsUntouched(q, s.(status := Idle), cb.pdu.value.varBinds, timestamp, little, i);
      }
    }
    assert m.heads == s.heads;
    PruneKeepsExactly(s.heads);
  }

  /** With a positive limit and a head left, an idle session always sends at least one binding. */
  lemma PositiveLimitSends(q: SnmpRequest, t: PduType, s: State, sendError: Option<LibraryError>)
    requires VarBindLimitSet(q) && VarBindLimit(q) >= 1 && s.status == Idle && |s.heads| >= 1
    ensures var r := SendStep(q, t, s, true, sendError);
      r.outcome.Dispatched? && |r.outcome.pdu.oids| >= 1
  {
    assert Room(t, VarBindLimit(q), 0);
  }

  // ---------------------------------------------------------------- the invariant

  /**
   * What holds of a session between calls: its heads lie under their roots, its results
   * are whole words, and an idle session has a head left and none in flight.
   */
  predicate Coherent(s: State) {
    && HeadsUnderRoot(s.heads)
    && |s.bytes| % WORD == 0
    && (s.status == Idle ==> |s.heads| > 0 && Inactive(s.heads))
  }

  lemma {:induction false} ActivateAllUnderRoot(hs: seq<HeadState>, k: nat)
    requires HeadsUnderRoot(hs) && k <= |hs|
    ensures HeadsUnderRoot(Rotate(hs, k))
  {
    var r := Rotate(hs, k);
    forall j | 0 <= j < |r|
      ensures UnderRoot(r[j])
    {
      if j < |hs| - k {
        assert r[j] == hs[k + j];
      } else {
        assert r[j] == Activate(hs[j - (|hs| - k)]);
      }
    }
  }

  /** Both steps keep the invariant. */
  lemma StepsKeepCoherent(q: SnmpRequest, t: PduType, s: State, cb: Callback, timestamp: nat, little: bool,
                          created: bool, sendError: Option<LibraryError>)
    requires Coherent(s)
    ensures Coherent(PduStep(q, s, cb, timestamp, little))
    ensures VarBindLimitSet(q) ==> Coherent(SendStep(q, t, s, created, sendError).state)
  {
    PduStepCoherent(q, s, cb, timestamp, little);
    if VarBindLimitSet(q) && s.status == Idle && created {
      SendBatchCoherent(q, t, s, sendError);
      assert SendStep(q, t, s, created, sendError) == SendBatch(q, t, s, sendError);
    }
  }

  lemma PduStepCoherent(q: SnmpRequest, s: State, cb: Callback, timestamp: nat, little: bool)
    requires Coherent(s)
    ensures Coherent(PduStep(q, s, cb, timestamp, little))
  {
  }

  lemma SendBatchCoherent(q: SnmpRequest, t: PduType, s: State, sendError: Option<LibraryError>)
    requires Coherent(s) && VarBindLimitSet(q)
    ensures Coherent(SendBatch(q, t, s, sendError).state)
  {
    var k := BatchSize(t, VarBindLimit(q), |s.heads|);
    ActivateAllUnderRoot(s.heads, k);
  }

  // ---------------------------------------------------------------- the constructor

  /** What `snmp_sess_open` gives: an open session, or the library's error. */
  datatype OpenOutcome = Opened | OpenFailed(error: LibraryError)

  /**
   * The error the constructor records when the library cannot open the session, with the
   * system and library error numbers `snmp_error` reports.
   */
  function OpenError(q: SnmpRequest, e: LibraryError): (r: SnmpError)
    ensures r.kind == SessionError && r.request == q && r.message == Some(e.message)
    ensures r.sysErrno == Some(e.sysErrno) && r.snmpErrno == Some(Reported(e.snmpErrno))
  {
    SnmpError(SessionError, q, Some(e.sysErrno), Some(Reported(e.snmpErrno)), None, None, None, Some(e.message))
  }

  /**
   * The same error as the constructor writes it: `snmp_error` stores the system error
   * number into the global `errno`, and the local `sys_errno` that is recorded is never
   * assigned, so the record carries whatever value `stale` that variable happened to hold.
   */
  function OpenErrorAsWritten(q: SnmpRequest, e: LibraryError, stale: int): (r: SnmpError)
    ensures r.sysErrno == Some(stale)
  {
    SnmpError(SessionError, q, Some(stale), Some(Reported(e.snmpErrno)), None, None, None, Some(e.message))
  }

  /** As written, the recorded system error number need not be the one the library reported. */
  lemma OpenErrorAsWrittenLosesErrno(q: SnmpRequest)
    ensures OpenErrorAsWritten(q, LibraryError(111, -24, "Connection refused"), 0).sysErrno != Some(111)
    ensures OpenError(q, LibraryError(111, -24, "Connection refused")).sysErrno == Some(111)
  {
  }

  /**
   * The session the constructor leaves: closed with the open error and nothing else, or
   * idle with the heads `InitialHeads` lists and the results holding the preamble.
   */
  function Opening(q: SnmpRequest, little: bool, open: OpenOutcome): State {
    if open.OpenFailed? then State(Closed, [], true, [OpenError(q, open.error)], [])
    else State(Idle, InitialHeads(q.oids, q.ranges), false, [], Preamble(q.reqId.GetOr([]), q.oids, little))
  }

  /** A new session of a valid request meets the invariant: an open one has a head for every root. */
  lemma OpeningCoherent(q: SnmpRequest, little: bool, open: OpenOutcome)
    requires ValidRequest(q)
    ensures Coherent(Opening(q, little, open))
    ensures open.Opened? ==> |Opening(q, little, open).heads| >= |q.oids| > 0
  {
    if open.Opened? {
      PreambleAligned(q.reqId.GetOr([]), q.oids, little);
      MulMonotone(1, RangeCount(q.ranges), |q.oids|);
    }
  }

  // ---------------------------------------------------------------- the constructor's heads

  /** How many heads each root OID gets: one per range, or one when there are none. */
  function RangeCount(ranges: Option<seq<Range>>): (p: nat)
    ensures p >= 1
  {
    if ranges.Some? && |ranges.value| > 0 then |ranges.value| else 1
  }

  function RangeAt(ranges: Option<seq<Range>>, j: nat): Option<Range>
    requires j < RangeCount(ranges)
  {
    if ranges.Some? && |ranges.value| > 0 then Some(ranges.value[j]) else None
  }

  /** The heads of one root OID, numbered on from `base`. */
  function RootHeads(oid: Oid, ranges: Option<seq<Range>>, base: nat): (r: seq<HeadState>)
    ensures |r| == RangeCount(ranges)
    ensures forall j :: 0 <= j < |r| ==> r[j] == HeadState(base + j, oid, HeadRange(oid, RangeAt(ranges, j)), None, None)
  {
    seq(RangeCount(ranges), j requires 0 <= j < RangeCount(ranges) =>
      HeadState(base + j, oid, HeadRange(oid, RangeAt(ranges, j)), None, None))
  }

  /**
   * The heads the constructor creates: for each root OID in order, one per range (or one
   * for the whole root), numbered by `root_oid_index` from 0 across all of them, none in
   * flight and none with a response, each under its root.
   */
  function InitialHeads(oids: seq<Oid>, ranges: Option<seq<Range>>): (r: seq<HeadState>)
    ensures |r| == |oids| * RangeCount(ranges)
    ensures forall k :: 0 <= k < |r| ==> r[k].rootOidIndex == k && r[k].lastRespOid.None?
    ensures Inactive(r) && HeadsUnderRoot(r)
  {
    if oids == [] then []
    else
      var front := InitialHeads(oids[..|oids| - 1], ranges);
      var r := front + RootHeads(oids[|oids| - 1], ranges, |front|);
      assert |r| == |oids| * RangeCount(ranges) by {
        assert |oids| * RangeCount(ranges) == (|oids| - 1) * RangeCount(ranges) + RangeCount(ranges);
      }
      r
  }

  /** One more root OID adds its heads at the back, numbered on from the heads before it. */
  lemma InitialHeadsSnoc(oids: seq<Oid>, ranges: Option<seq<Range>>, i: nat)
    requires i < |oids|
    ensures InitialHeads(oids[..i + 1], ranges) ==
            InitialHeads(oids[..i], ranges) + RootHeads(oids[i], ranges, |InitialHeads(oids[..i], ranges)|)
  {
    assert oids[..i + 1][..i] == oids[..i];
  }

  lemma MulMonotone(a: nat, b: nat, p: nat)
    requires a <= b
    ensures a * p <= b * p
  {
  }

  /** Head `i * P + j` belongs to root OID `i` and its `j`-th range, with `P` heads per root. */
  lemma {:induction false} InitialHeadsLayout(oids: seq<Oid>, ranges: Option<seq<Range>>, i: nat, j: nat)
    requires i < |oids| && j < RangeCount(ranges)
    ensures var p := RangeCount(ranges);
      i * p + j < |InitialHeads(oids, ranges)| &&
      InitialHeads(oids, ranges)[i * p + j] == HeadState(i * p + j, oids[i], HeadRange(oids[i], RangeAt(ranges, j)), None, None)
  {
    var p, n := RangeCount(ranges), |oids| - 1;
    var front := InitialHeads(oids[..n], ranges);
    MulMonotone(i, n, p);
    if i < n {
      InitialHeadsLayout(oids[..n], ranges, i, j);
      MulMonotone(i + 1, n, p);
      assert i * p + j < |front|;
      assert oids[..n][i] == oids[i];
    } else {
      assert |front| == i * p;
    }
  }
}
