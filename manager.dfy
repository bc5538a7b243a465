/**
 * `SessionManager`: a default configuration, a FIFO of pending requests and the list of
 * sessions being processed. `run` first admits pending requests while one more active
 * session stays within the smallest `max_async_sessions` of the front request and of
 * every active session; the socket loop and the collection of finished sessions that
 * follow are not part of this model.
 */
module Manager {
  import opened Wrappers
  import opened Configs
  import opened Requests
  import opened Steps
  import opened Sessions

  /** `std::numeric_limits<size_t>::max()`, what `get_max_async_sessions` starts from. */
  const SizeMax: nat := 0xFFFF_FFFF_FFFF_FFFF

  function Min(a: nat, b: nat): (m: nat)
    ensures m <= a && m <= b && (m == a || m == b)
  {
    if a <= b then a else b
  }

  /** `get_default_config`: three retries, three seconds, ten bindings per PDU, ten sessions. */
  function DefaultConfig(): (c: Config)
    ensures Complete(c) && Configs.Valid(c)
  {
    Config(Some(3), Some(3), Some(10), Some(10))
  }

  /** A request as the manager keeps it: constructed, with every tunable present. */
  predicate Admissible(q: SnmpRequest) {
    ValidRequest(q) && q.config.Some? && Complete(q.config.value)
  }

  /**
   * `*request.get_config()->get_max_async_sessions()`: present for every request the
   * manager holds (`Admissible`); 0 stands in for the absent value no such request has.
   */
  function LimitOf(q: SnmpRequest): nat {
    if q.config.Some? && q.config.value.maxAsyncSessions.Some? then q.config.value.maxAsyncSessions.value else 0
  }

  // ---------------------------------------------------------------- the admission arithmetic

  /** What admission looks at in a session: whether it is still active, and its own limit. */
  datatype Slot = Slot(active: bool, limit: nat)

  /** `get_active_async_sessions_count`: the sessions whose status is not CLOSED. */
  function ActiveCount(slots: seq<Slot>): nat {
    if slots == [] then 0
    else ActiveCount(slots[..|slots| - 1]) + (if slots[|slots| - 1].active then 1 else 0)
  }

  /** `get_max_async_sessions`: the least limit of an active session, `SizeMax` when none is. */
  function MaxAsync(slots: seq<Slot>): nat {
    if slots == [] then SizeMax
    else
      var m := MaxAsync(slots[..|slots| - 1]);
      if slots[|slots| - 1].active then Min(m, slots[|slots| - 1].limit) else m
  }

  /** No active session has more active sessions beside it than its own limit allows. */
  predicate Capped(slots: seq<Slot>) {
    forall k :: 0 <= k < |slots| && slots[k].active ==> ActiveCount(slots) <= slots[k].limit
  }

  /** The count is at most the number of sessions, and zero exactly when none is active. */
  lemma {:induction false} ActiveCountBounds(slots: seq<Slot>)
    ensures ActiveCount(slots) <= |slots|
    ensures ActiveCount(slots) == 0 <==> forall k :: 0 <= k < |slots| ==> !slots[k].active
  {
    if slots != [] {
      var front := slots[..|slots| - 1];
      ActiveCountBounds(front);
      assert forall k :: 0 <= k < |front| ==> front[k] == slots[k];
    }
  }

  /**
   * The documented meaning of `get_max_async_sessions`: a lower bound on the limit of
   * every active session, attained by one of them unless it is `SizeMax`.
   */
  lemma {:induction false} MaxAsyncIsMinimum(slots: seq<Slot>)
    ensures MaxAsync(slots) <= SizeMax
    ensures forall k :: 0 <= k < |slots| && slots[k].active ==> MaxAsync(slots) <= slots[k].limit
    ensures MaxAsync(slots) == SizeMax ||
            exists k :: 0 <= k < |slots| && slots[k].active && slots[k].limit == MaxAsync(slots)
    ensures (forall k :: 0 <= k < |slots| ==> !slots[k].active) ==> MaxAsync(slots) == SizeMax
  {
    if slots != [] {
      var n := |slots| - 1;
      var front := slots[..n];
      MaxAsyncIsMinimum(front);
      assert forall k :: 0 <= k < n ==> front[k] == slots[k];
      if MaxAsync(slots) != SizeMax && !(slots[n].active && slots[n].limit == MaxAsync(slots)) {
        var k :| 0 <= k < n && front[k].active && front[k].limit == MaxAsync(front);
        assert slots[k].active && slots[k].limit == MaxAsync(slots);
      }
    }
  }

  /** One more session at the back adds one to the count when it is active. */
  lemma AdmitCount(slots: seq<Slot>, s: Slot)
    ensures ActiveCount(slots + [s]) == ActiveCount(slots) + (if s.active then 1 else 0)
    ensures MaxAsync(slots + [s]) == if s.active then Min(MaxAsync(slots), s.limit) else MaxAsync(slots)
  {
    assert (slots + [s])[..|slots|] == slots;
  }

  /**
   * The admission test keeps the cap: a session admitted while the active count plus one
   * is within its own limit and within every active session's limit leaves every active
   * session within its limit, whether it opened or not.
   */
  lemma AdmitKeepsCap(slots: seq<Slot>, s: Slot)
    requires Capped(slots)
    requires ActiveCount(slots) + 1 <= Min(MaxAsync(slots), s.limit)
    ensures Capped(slots + [s])
  {
    AdmitCount(slots, s);
    MaxAsyncIsMinimum(slots);
    var t := slots + [s];
    forall k | 0 <= k < |t| && t[k].active
      ensures ActiveCount(t) <= t[k].limit
    {
      if k < |slots| {
        assert t[k] == slots[k];
      }
    }
  }

  /** A session that closes leaves the others within their limits: the cap survives the I/O loop. */
  lemma {:induction false} CloseKeepsCap(slots: seq<Slot>, i: nat)
    requires Capped(slots) && i < |slots|
    ensures Capped(slots[i := slots[i].(active := false)])
  {
    CloseCount(slots, i);
    var t := slots[i := slots[i].(active := false)];
    forall k | 0 <= k < |t| && t[k].active
      ensures ActiveCount(t) <= t[k].limit
    {
      assert t[k] == slots[k];
    }
  }

  lemma {:induction false} CloseCount(slots: seq<Slot>, i: nat)
    requires i < |slots|
    ensures ActiveCount(slots[i := slots[i].(active := false)]) <= ActiveCount(slots)
  {
    var n := |slots| - 1;
    var t := slots[i := slots[i].(active := false)];
    if i < n {
      assert t[..n] == slots[..n][i := slots[i].(active := false)];
      CloseCount(slots[..n], i);
    } else {
      assert t[..n] == slots[..n];
    }
  }

  // ---------------------------------------------------------------- the manager

  /** What the admission test reads of each session. */
  function Slots(ss: seq<Session>): (r: seq<Slot>)
    reads ss
    ensures |r| == |ss|
    ensures forall k :: 0 <= k < |ss| ==> r[k] == Slot(ss[k].status != Closed, LimitOf(ss[k].request))
  {
    if ss == [] then []
    else Slots(ss[..|ss| - 1]) + [Slot(ss[|ss| - 1].status != Closed, LimitOf(ss[|ss| - 1].request))]
  }

  /** One more active session is within `limit` and within every active session's limit. */
  predicate Fits(slots: seq<Slot>, limit: nat) {
    ActiveCount(slots) + 1 <= Min(MaxAsync(slots), limit)
  }

  /** The slots the first `k` pending requests take, each opened with its outcome in `opens`. */
  function AdmittedSlots(ps: seq<SnmpRequest>, opens: seq<OpenOutcome>, k: nat): (r: seq<Slot>)
    requires k <= |ps| && k <= |opens|
    ensures |r| == k && forall j :: 0 <= j < k ==> r[j] == Slot(opens[j].Opened?, LimitOf(ps[j]))
  {
    seq(k, j requires 0 <= j < k => Slot(opens[j].Opened?, LimitOf(ps[j])))
  }

  /** One more admission adds its slot at the end. */
  lemma AdmittedSlotsSnoc(ps: seq<SnmpRequest>, opens: seq<OpenOutcome>, k: nat)
    requires k < |ps| && k < |opens|
    ensures AdmittedSlots(ps, opens, k + 1) == AdmittedSlots(ps, opens, k) + [Slot(opens[k].Opened?, LimitOf(ps[k]))]
  {
  }

  /**
   * The admission test passed for the `k`-th pending request: with the first `k` already
   * admitted, one more active session is within its limit and within every active one's.
   */
  predicate AdmitsAt(slots: seq<Slot>, ps: seq<SnmpRequest>, opens: seq<OpenOutcome>, k: nat)
    requires k < |ps| && k <= |opens|
  {
    Fits(slots + AdmittedSlots(ps, opens, k), LimitOf(ps[k]))
  }

  /** The admission test passed for each of the first `n` pending requests in turn. */
  predicate AdmittedEach(slots: seq<Slot>, ps: seq<SnmpRequest>, opens: seq<OpenOutcome>, n: nat)
    requires n <= |ps| && n <= |opens|
  {
    n == 0 || (AdmittedEach(slots, ps, opens, n - 1) && AdmitsAt(slots, ps, opens, n - 1))
  }

  /** Admitting turn by turn means the test passed at every turn. */
  lemma {:induction false} AdmittedEachAt(slots: seq<Slot>, ps: seq<SnmpRequest>, opens: seq<OpenOutcome>, n: nat)
    requires n <= |ps| && n <= |opens| && AdmittedEach(slots, ps, opens, n)
    ensures forall k :: 0 <= k < n ==> AdmitsAt(slots, ps, opens, k)
  {
    if n > 0 {
      AdmittedEachAt(slots, ps, opens, n - 1);
    }
  }

  class SessionManager {
    /** The default configuration, with every tunable present. */
    const config: Config
    var pending: seq<SnmpRequest>
    var sessions: seq<Session>

    /**
     * The manager's invariant: a complete default configuration, constructed pending
     * requests, and every active session within its own limit.
     */
    ghost predicate Valid()
      reads this, sessions
    {
      && Complete(config)
      && (forall q :: q in pending ==> Admissible(q))
      && WithinLimits()
    }

    /** `Config(3, 3, 10, 10) << given`: each tunable of `given` when present, else the default. */
    constructor(given: Option<Config>)
      ensures Valid() && pending == [] && sessions == []
      ensures config == MergeOptionalRight(DefaultConfig(), given)
    {
      config := MergeOptionalRight(DefaultConfig(), given);
      pending := [];
      sessions := [];
      new;
      MergeKeepsComplete(DefaultConfig(), given);
    }

    /**
     * `add_request`: the request is rebuilt with the manager's configuration merged under
     * its own and queued at the back. Rebuilding re-runs the request constructor, which a
     * constructed request passes again.
     */
    method AddRequest(request: SnmpRequest)
      requires Valid() && ValidRequest(request)
      modifies this
      ensures Valid() && sessions == old(sessions)
      ensures |pending| == |old(pending)| + 1 && pending[..|old(pending)|] == old(pending)
      ensures var q := pending[|pending| - 1];
        && q.kind == request.kind && q.host == request.host && q.community == request.community
        && q.oids == request.oids && q.ranges == request.ranges && q.reqId == request.reqId
        && q.config == Some(MergeOptionalRight(config, request.config))
    {
      MergeKeepsComplete(config, request.config);
      if request.ranges.Some? {
        OptimizedFixes(request.kind, request.ranges.value);
      }
      var r := MakeRequest(request.kind, request.host, request.community, request.oids, request.ranges,
                           request.reqId, Some(MergeOptionalRight(config, request.config)));
      pending := pending + [r.value];
    }

    /** The session values the admission test reads. */
    function Occupancy(): seq<Slot>
      reads this, sessions
    {
      Slots(sessions)
    }

    /** The loop of `get_max_async_sessions` over the sessions. */
    method GetMaxAsyncSessions() returns (m: nat)
      ensures m == MaxAsync(Occupancy())
    {
      ghost var slots := Slots(sessions);
      m := SizeMax;
      var i := 0;
      while i < |sessions|
        invariant i <= |sessions|
        invariant m == MaxAsync(slots[..i])
      {
        assert slots[..i + 1][..i] == slots[..i];
        if sessions[i].status != Closed {
          m := Min(m, LimitOf(sessions[i].request));
        }
        i := i + 1;
      }
      assert slots[..i] == slots;
    }

    /**
     * The condition of the admission loop: a request is pending, and one more active
     * session is within the front request's limit and within `get_max_async_sessions`.
     */
    predicate CanAdmit()
      reads this, sessions
    {
      pending != [] && Fits(Occupancy(), LimitOf(pending[0]))
    }

    /** Every active session is within its own limit. */
    predicate WithinLimits()
      reads this, sessions
    {
      Capped(Occupancy())
    }

    /** That condition, evaluated as `run` does, with `get_max_async_sessions` called anew. */
    method TestAdmit() returns (more: bool)
      requires Valid()
      ensures Valid() && more == CanAdmit()
    {
      if pending == [] {
        return false;
      }
      var max := GetMaxAsyncSessions();
      more := ActiveCount(Occupancy()) + 1 <= Min(max, LimitOf(pending[0]));
    }

    /**
     * The admission loop of `run`: while `CanAdmit` holds, the front request becomes a
     * session at the back of the list. `opens` gives the outcome of opening each pending
     * request in turn. Admission keeps every active session within its limit.
     */
    method Admit(little: bool, opens: seq<OpenOutcome>) returns (n: nat)
      requires Valid() && |pending| <= |opens|
      modifies this
      ensures Valid() && !CanAdmit()
      ensures n <= |old(pending)| && pending == old(pending)[n..]
      ensures |sessions| == |old(sessions)| + n && sessions[..|old(sessions)|] == old(sessions)
      ensures RequestsOf(sessions[|old(sessions)|..]) == old(pending)[..n]
      ensures Occupancy() == old(Occupancy()) + AdmittedSlots(old(pending), opens, n)
      ensures forall k :: 0 <= k < n ==> AdmitsAt(old(Occupancy()), old(pending), opens, k)
    {
      ghost var p0 := pending;
      ghost var s0 := sessions;
      ghost var occ0 := Occupancy();
      ghost var added: seq<Session> := [];
      n := 0;
      var more := TestAdmit();
      while more
        invariant Valid() && n <= |p0| && pending == p0[n..]
        invariant sessions == s0 + added && |added| == n
        invariant RequestsOf(added) == p0[..n]
        invariant Occupancy() == occ0 + AdmittedSlots(p0, opens, n)
        invariant AdmittedEach(occ0, p0, opens, n)
        invariant more == CanAdmit()
        decreases |pending|
      {
        added, more := AdmitTurn(little, opens, p0, s0, occ0, added, n);
        assert AdmittedEach(occ0, p0, opens, n + 1);
        n := n + 1;
      }
      AppendSplits(s0, added);
      AdmittedEachAt(occ0, p0, opens, n);
    }

    /** One turn of that loop, with the loop's invariant before and after. */
    method AdmitTurn(little: bool, opens: seq<OpenOutcome>, ghost p0: seq<SnmpRequest>, ghost s0: seq<Session>,
                     ghost occ0: seq<Slot>, ghost added: seq<Session>, n: nat)
      returns (ghost added2: seq<Session>, more: bool)
      requires Valid() && CanAdmit() && n < |p0| <= |opens| && pending == p0[n..]
      requires sessions == s0 + added && |added| == n && RequestsOf(added) == p0[..n]
      requires Occupancy() == occ0 + AdmittedSlots(p0, opens, n)
      modifies this
      ensures Valid() && pending == p0[n + 1..]
      ensures sessions == s0 + added2 && |added2| == n + 1 && added2[..n] == added
      ensures RequestsOf(added2) == p0[..n + 1]
      ensures AdmitsAt(occ0, p0, opens, n)
      ensures Occupancy() == occ0 + AdmittedSlots(p0, opens, n + 1)
      ensures more == CanAdmit()
    {
      assert pending[0] == p0[n];
      assert AdmitsAt(occ0, p0, opens, n);
      ghost var admitted := AdmittedSlots(p0, opens, n);
      ghost var slot := Slot(opens[n].Opened?, LimitOf(p0[n]));
      var s := AdmitFront(little, opens[n], p0, n);
      SnocAssociates(s0, added, s);
      added2 := added + [s];
      RequestsOfSnoc(added, s, p0, n);
      AdmittedSlotsSnoc(p0, opens, n);
      SnocAssociates(occ0, admitted, slot);
      more := TestAdmit();
    }

    /** One turn of that loop: the front request is opened into a session at the back. */
    method AdmitFront(little: bool, open: OpenOutcome, ghost p0: seq<SnmpRequest>, ghost n: nat)
      returns (s: Session)
      requires Valid() && CanAdmit() && n < |p0| && pending == p0[n..]
      modifies this
      ensures Valid() && pending == p0[n + 1..]
      ensures sessions == old(sessions) + [s] && fresh(s) && s.request == p0[n]
      ensures s.Value() == Opening(p0[n], little, open)
      ensures Occupancy() == old(Occupancy()) + [Slot(open.Opened?, LimitOf(p0[n]))]
    {
      s := OpenSession(pending[0], little, open);
      Push(s);
    }

    /** The new session goes to the back, and the front request leaves the queue. */
    method Push(s: Session)
      requires Valid() && CanAdmit() && s !in sessions
      requires s.request == pending[0]
      modifies this
      ensures Valid() && pending == old(pending)[1..] && sessions == old(sessions) + [s]
      ensures s.Value() == old(s.Value())
      ensures Occupancy() == old(Occupancy()) + [Slot(s.status != Closed, LimitOf(s.request))]
    {
      ghost var before := Occupancy();
      assert forall k :: 0 <= k < |before| ==> before[k] == Slot(sessions[k].status != Closed, LimitOf(sessions[k].request));
      var q := pending[0];
      sessions := sessions + [s];
      pending := pending[1..];
      SlotsSnoc(sessions, before, s);
      AdmitKeepsCap(before, Slot(s.status != Closed, LimitOf(q)));
    }
  }

  /** `async_sessions.emplace_back(request)`: a new session, closed when it did not open. */
  method OpenSession(q: SnmpRequest, little: bool, open: OpenOutcome) returns (s: Session)
    requires Admissible(q)
    ensures fresh(s) && s.request == q && (s.status == Closed <==> open.OpenFailed?)
    ensures s.Value() == Opening(q, little, open)
  {
    s := new Session(q, little, open);
    assert s.status == Opening(q, little, open).status;
  }

  /** The requests the sessions were opened from, in order. */
  function RequestsOf(ss: seq<Session>): (r: seq<SnmpRequest>)
    ensures |r| == |ss| && forall k :: 0 <= k < |ss| ==> r[k] == ss[k].request
  {
    if ss == [] then [] else RequestsOf(ss[..|ss| - 1]) + [ss[|ss| - 1].request]
  }

  lemma RequestsOfSnoc(ss: seq<Session>, s: Session, ps: seq<SnmpRequest>, n: nat)
    requires n < |ps| && RequestsOf(ss) == ps[..n] && s.request == ps[n]
    ensures RequestsOf(ss + [s]) == ps[..n + 1]
  {
    assert (ss + [s])[..|ss|] == ss;
  }

  lemma AppendSplits<T>(a: seq<T>, b: seq<T>)
    ensures (a + b)[..|a|] == a && (a + b)[|a|..] == b
  {
  }

  lemma SnocAssociates<T>(a: seq<T>, b: seq<T>, x: T)
    ensures a + b + [x] == a + (b + [x])
  {
  }

  lemma SlotsSnoc(ss: seq<Session>, before: seq<Slot>, s: Session)
    requires |ss| == |before| + 1 && ss[|ss| - 1] == s
    requires forall k :: 0 <= k < |before| ==> before[k] == Slot(ss[k].status != Closed, LimitOf(ss[k].request))
    ensures Slots(ss) == before + [Slot(s.status != Closed, LimitOf(s.request))]
  {
  }
}
