/**
 * `SnmpRequest` and the checks its constructor makes: the range optimisation
 * (`optimize_ranges`) run on the given ranges, the rejection of an empty OID list and the
 * search for two root OIDs of which one is a root of the other
 * (`test_ambiguous_root_oids`).
 */
module Requests {
  import opened Wrappers
  import opened ObjectIdentities
  import opened Ranges
  import Configs
  import opened Bytes

  datatype Version = V1 | V2C

  /** `Community`: the community string and the protocol version. */
  datatype Community = Community(secret: string, version: Version)

  datatype RequestType = GetRequest | WalkRequest

  /** A constructed `SnmpRequest`; `ranges` holds the optimised ranges. */
  datatype SnmpRequest = SnmpRequest(
    kind: RequestType,
    host: string,
    community: Community,
    oids: seq<Oid>,
    ranges: Option<seq<Range>>,
    reqId: Option<seq<Byte>>,
    config: Option<Configs.Config>)

  /** The `std::invalid_argument` exceptions of the constructor. */
  datatype RequestError =
    | NotPointRange(range: Range)
    | MissingObjectIdentity
    | AmbiguousRootOids(first: Oid, second: Oid)

  // ---------------------------------------------------------------- ambiguous roots

  /** The relation `snmp_oidtree_compare(a, b) == 0` stands for. */
  predicate Related(a: Oid, b: Oid) {
    IsRootOf(a, b) || IsRootOf(b, a)
  }

  /** No two positions of `oids` hold related OIDs. */
  predicate Unambiguous(oids: seq<Oid>) {
    forall i, j :: 0 <= i < j < |oids| ==> !Related(oids[i], oids[j])
  }

  /** `(i, j)` is the first related pair in the order the nested loops visit pairs. */
  predicate FirstRelatedPair(oids: seq<Oid>, i: int, j: int) {
    && 0 <= i < j < |oids| && Related(oids[i], oids[j])
    && (forall i', j' :: 0 <= i' < i && i' < j' < |oids| ==> !Related(oids[i'], oids[j']))
    && (forall j' :: i < j' < j ==> !Related(oids[i], oids[j']))
  }

  /**
   * `test_ambiguous_root_oids`: the first pair, in loop order, of which one OID is a root
   * of the other, or `None` when there is none. The loop bound `end - 1` needs a
   * non-empty list; the constructor checks that first.
   */
  method TestAmbiguousRootOids(oids: seq<Oid>) returns (r: Option<(Oid, Oid)>)
    requires |oids| > 0
    ensures r.None? <==> Unambiguous(oids)
    ensures r.Some? ==> exists i, j :: FirstRelatedPair(oids, i, j) && r.value == (oids[i], oids[j])
  {
    var i := 0;
    while i < |oids| - 1
      invariant 0 <= i <= |oids| - 1
      invariant forall i', j' :: 0 <= i' < i && i' < j' < |oids| ==> !Related(oids[i'], oids[j'])
    {
      var j := i + 1;
      while j < |oids|
        invariant i + 1 <= j <= |oids|
        invariant forall j' :: i < j' < j ==> !Related(oids[i], oids[j'])
      {
        TreeCompareZeroIffRelated(oids[i], oids[j]);
        if TreeCompare(oids[i], oids[j]) == 0 {
          assert FirstRelatedPair(oids, i, j);
          return Some((oids[i], oids[j]));
        }
        j := j + 1;
      }
      i := i + 1;
    }
    return None;
  }

  /** Two equal OIDs are related, so a repeated root OID is always reported. */
  lemma RepeatedOidIsAmbiguous(oids: seq<Oid>, i: int, j: int)
    requires 0 <= i < j < |oids| && oids[i] == oids[j]
    ensures !Unambiguous(oids)
  {
    RootOfSelfAndEmpty(oids[i]);
  }

  /** Whether a list is ambiguous does not depend on the order of its OIDs. */
  lemma UnambiguousIgnoresOrder(oids: seq<Oid>, i: int, j: int)
    requires 0 <= i < j < |oids|
    ensures Unambiguous(oids) ==> !Related(oids[j], oids[i])
  {
  }

  // ---------------------------------------------------------------- sorting

  /** Sorted by `<=` on ranges. */
  predicate Sorted(s: seq<Range>) {
    forall i, j :: 0 <= i < j < |s| ==> LtEq(s[i], s[j])
  }

  /** Sorted by `<`: sorted and free of duplicates. */
  predicate StrictlySorted(s: seq<Range>) {
    forall i, j :: 0 <= i < j < |s| ==> Lt(s[i], s[j])
  }

  /** Two sequences with the same multiset have the same members. */
  lemma SameMembers(a: seq<Range>, b: seq<Range>)
    requires multiset(a) == multiset(b)
    ensures forall x :: x in a <==> x in b
  {
    forall x
      ensures x in a <==> x in b
    {
      assert x in a <==> x in multiset(a);
      assert x in b <==> x in multiset(b);
    }
  }

  /** The starts of a sorted sequence are in order. */
  lemma SortedStarts(s: seq<Range>)
    requires Sorted(s)
    ensures forall i, j :: 0 <= i < j < |s| ==> LessEq(s[i].start, s[j].start)
  {
    forall i, j | 0 <= i < j < |s|
      ensures LessEq(s[i].start, s[j].start)
    {
      if s[i] != s[j] {
        LtIsKeyOrder(s[i], s[j]);
        DerivedOperators(s[i].start, s[j].start);
      }
    }
  }

  /** Where `x` goes among sorted elements: after every one not greater than it. */
  function InsertPosition(s: seq<Range>, x: Range): (p: nat)
    ensures p <= |s|
    ensures forall k :: 0 <= k < p ==> !Lt(x, s[k])
    ensures p < |s| ==> Lt(x, s[p])
  {
    if s == [] || Lt(x, s[0]) then 0 else 1 + InsertPosition(s[1..], x)
  }

  /** Putting `x` after the elements not greater than it and before a greater one keeps the order. */
  lemma InsertAtSorted(s: seq<Range>, p: nat, x: Range)
    requires Sorted(s) && p <= |s|
    requires forall k :: 0 <= k < p ==> !Lt(x, s[k])
    requires p < |s| ==> Lt(x, s[p])
    ensures Sorted(s[..p] + [x] + s[p..])
  {
    var r := s[..p] + [x] + s[p..];
    forall i, j | 0 <= i < j < |r|
      ensures LtEq(r[i], r[j])
    {
      if j < p {
        assert r[i] == s[i] && r[j] == s[j];
      } else if j == p {
        assert r[i] == s[i] && r[j] == x;
        DerivedRangeOperators(s[i], x);
      } else if i == p {
        assert r[i] == x && r[j] == s[j - 1];
        LtEqTransitive(x, s[p], s[j - 1]);
      } else if i < p {
        assert r[i] == s[i] && r[j] == s[j - 1];
      } else {
        assert r[i] == s[i - 1] && r[j] == s[j - 1];
      }
    }
  }

  /** Inserts `x` after every element not greater than it. */
  function Insert(s: seq<Range>, x: Range): seq<Range> {
    var p := InsertPosition(s, x);
    s[..p] + [x] + s[p..]
  }

  /** Inserting into a sorted sequence keeps it sorted. */
  lemma InsertSorted(s: seq<Range>, x: Range)
    requires Sorted(s)
    ensures Sorted(Insert(s, x))
  {
    InsertAtSorted(s, InsertPosition(s, x), x);
  }

  /** Inserting adds exactly `x`. */
  lemma InsertPermutes(s: seq<Range>, x: Range)
    ensures multiset(Insert(s, x)) == multiset(s) + multiset{x}
  {
    var p := InsertPosition(s, x);
    assert s == s[..p] + s[p..];
    assert multiset(s) == multiset(s[..p]) + multiset(s[p..]);
    assert multiset(s[..p] + [x] + s[p..]) == multiset(s[..p]) + multiset{x} + multiset(s[p..]);
  }

  /** An element greater than every other is inserted at the end. */
  lemma InsertGreatest(s: seq<Range>, x: Range)
    requires forall k :: 0 <= k < |s| ==> Lt(s[k], x)
    ensures Insert(s, x) == s + [x]
  {
    var p := InsertPosition(s, x);
    if p < |s| {
      LtAsymmetric(s[p], x);
    }
  }

  /**
   * `std::sort` with `operator<`, built here by inserting the last element into the sorted
   * rest.
   */
  function Sort(s: seq<Range>): seq<Range>
    decreases |s|
  {
    if s == [] then [] else Insert(Sort(s[..|s| - 1]), s[|s| - 1])
  }

  /** `Sort` gives a sorted sequence. */
  lemma {:induction false} SortSorted(s: seq<Range>)
    ensures Sorted(Sort(s))
    decreases |s|
  {
    if s != [] {
      SortSorted(s[..|s| - 1]);
      InsertSorted(Sort(s[..|s| - 1]), s[|s| - 1]);
    }
  }

  /** `Sort` permutes its input. */
  lemma {:induction false} SortPermutes(s: seq<Range>)
    ensures multiset(Sort(s)) == multiset(s)
    decreases |s|
  {
    if s != [] {
      var init, x := s[..|s| - 1], s[|s| - 1];
      assert s == init + [x];
      var sorted := Sort(init);
      assert Sort(s) == Insert(sorted, x);
      SortPermutes(init);
      InsertPermutes(sorted, x);
    }
  }

  /** Dropping the last element keeps a sequence strictly sorted, below the dropped one. */
  lemma StrictlySortedInit(s: seq<Range>, init: seq<Range>, x: Range)
    requires StrictlySorted(s) && s == init + [x]
    ensures StrictlySorted(init)
    ensures forall k :: 0 <= k < |init| ==> Lt(init[k], x)
  {
    assert forall k :: 0 <= k < |init| ==> init[k] == s[k];
    assert x == s[|init|];
  }

  /** A strictly sorted sequence is its own sort. */
  lemma {:induction false} SortFixesStrictlySorted(s: seq<Range>)
    requires StrictlySorted(s)
    ensures Sort(s) == s
    decreases |s|
  {
    if s != [] {
      var init, x := s[..|s| - 1], s[|s| - 1];
      assert init + [x] == s;
      StrictlySortedInit(s, init, x);
      SortFixesStrictlySorted(init);
      InsertGreatest(init, x);
    }
  }

  /** After a sorted run's first element comes nothing smaller, so a new value is greater. */
  lemma {:induction false} FrontBelowRest(s: seq<Range>)
    requires |s| > 1 && s[0] != s[1]
    ensures Sorted(s) ==> forall y :: y in s[1..] ==> Lt(s[0], y)
  {
    if Sorted(s) {
      assert LtEq(s[0], s[1]);
      forall y | y in s[1..]
        ensures Lt(s[0], y)
      {
        var k :| 1 <= k < |s| && s[k] == y;
        if k > 1 {
          assert LtEq(s[1], s[k]);
          if s[1] != s[k] {
            LtTransitive(s[0], s[1], s[k]);
          }
        }
      }
    }
  }

  /**
   * `std::unique` followed by the `resize`: each run of equal neighbours is kept once. On
   * a sorted input the result is strictly sorted.
   */
  function Unique(s: seq<Range>): (r: seq<Range>)
    ensures |r| <= |s|
    ensures |s| > 0 ==> |r| > 0 && r[0] == s[0]
    ensures forall x :: x in r <==> x in s
    ensures forall k :: 0 <= k < |r| - 1 ==> r[k] != r[k + 1]
    ensures Sorted(s) ==> StrictlySorted(r)
  {
    if |s| <= 1 then s
    else if s[0] == s[1] then
      assert s == [s[0]] + s[1..];
      Unique(s[1..])
    else
      FrontBelowRest(s);
      assert s == [s[0]] + s[1..];
      [s[0]] + Unique(s[1..])
  }

  /** A strictly sorted sequence has no neighbours to fold. */
  lemma {:induction false} UniqueFixesStrictlySorted(s: seq<Range>)
    requires StrictlySorted(s)
    ensures Unique(s) == s
  {
    if |s| > 1 {
      LtIrreflexive(s[0]);
      UniqueFixesStrictlySorted(s[1..]);
      assert s == [s[0]] + s[1..];
    }
  }

  // ---------------------------------------------------------------- what a range admits

  /** A point range: `start == stop` with a non-empty start, the only kind GET admits. */
  predicate IsPoint(r: Range) {
    r.start == r.stop && r.start != []
  }

  /** The first range that is not a point range, the one the GET loop throws on. */
  function FirstNonPoint(s: seq<Range>): (r: Option<Range>)
    ensures r.None? <==> forall x :: x in s ==> IsPoint(x)
    ensures r.Some? ==> r.value in s && !IsPoint(r.value)
  {
    if s == [] then None
    else if !IsPoint(s[0]) then Some(s[0])
    else
      assert s == [s[0]] + s[1..];
      FirstNonPoint(s[1..])
  }

  /** In a sorted sequence the first range that is not a point range is the least such. */
  lemma {:induction false} FirstNonPointLeast(s: seq<Range>, y: Range)
    requires StrictlySorted(s) && y in s && !IsPoint(y)
    ensures FirstNonPoint(s).Some? && LtEq(FirstNonPoint(s).value, y)
  {
    if IsPoint(s[0]) {
      assert s == [s[0]] + s[1..];
      FirstNonPointLeast(s[1..], y);
    } else if y != s[0] {
      var j :| 0 <= j < |s| && s[j] == y;
      assert Lt(s[0], s[j]);
    }
  }

  /** `o` lies in `x` read as an interval: at or above the start, at or below a non-empty stop. */
  predicate InInterval(x: Range, o: Oid) {
    LessEq(x.start, o) && (x.stop == [] || LessEq(o, x.stop))
  }

  predicate Covers(rs: seq<Range>, o: Oid) {
    exists x :: x in rs && InInterval(x, o)
  }

  /**
   * `o` passes the test `process_var_bind` applies to a walk head, read relative to the
   * head's root: between start and stop, or anywhere under the stop. An empty stop is a
   * root of every OID, so a range without a stop admits everything.
   */
  predicate Masks(x: Range, o: Oid) {
    (LessEq(x.start, o) && LessEq(o, x.stop)) || IsRootOf(x.stop, o)
  }

  predicate MasksAny(rs: seq<Range>, o: Oid) {
    exists x :: x in rs && Masks(x, o)
  }

  /**
   * Stop `a` reaches as far as stop `b` under the walk test: `b` lies under `a`, or `b`
   * sorts at or before `a` without being a root of it.
   */
  predicate StopCovers(a: Oid, b: Oid) {
    IsRootOf(a, b) || (LessEq(b, a) && !IsRootOf(b, a))
  }

  /** Everything at or below stop `b`, or under it, is at or below stop `a`, or under it. */
  lemma StopCoversDown(a: Oid, b: Oid, o: Oid)
    requires StopCovers(a, b) && (LessEq(o, b) || IsRootOf(b, o))
    ensures LessEq(o, a) || IsRootOf(a, o)
  {
    if IsRootOf(a, b) {
      if IsRootOf(b, o) {
        RootOfTransitive(a, b, o);
      } else if !LessEq(o, a) {
        DerivedOperators(o, a);
        DerivedOperators(a, o);
        assert Concat(a, []) == a && Concat(a, b[|a|..]) == b;
        BetweenExtensionsIsUnderRoot(a, [], b[|a|..], o);
      }
    } else if LessEq(o, b) {
      LessEqTransitive(o, b, a);
    } else {
      UnderEarlierUnrelated(b, a, o);
      DerivedOperators(o, a);
    }
  }

  /** Of two stops, one always reaches as far as the other. */
  lemma StopCoversTotal(a: Oid, b: Oid)
    ensures StopCovers(a, b) || StopCovers(b, a)
  {
    DerivedOperators(a, b);
    DerivedOperators(b, a);
  }

  // ---------------------------------------------------------------- the WALK merge

  /**
   * What the WALK optimisation produces: valid ranges, each but the last with a stop that
   * lies strictly below the next range's start, so that only the last may be unbounded
   * above and no two overlap.
   */
  predicate WalkOptimized(out: seq<Range>) {
    && |out| > 0
    && (forall k :: 0 <= k < |out| ==> Valid(out[k]))
    && (forall k :: 0 <= k < |out| - 1 ==> out[k].stop != [] && Less(out[k].stop, out[k + 1].start))
  }

  /** Starts of an optimised WALK list increase strictly. */
  lemma {:induction false} WalkOptimizedStartsIncrease(out: seq<Range>, i: int, j: int)
    requires WalkOptimized(out) && 0 <= i < j < |out|
    ensures Less(out[i].start, out[j].start)
    decreases j - i
  {
    var s, t, u := out[i].start, out[i].stop, out[i + 1].start;
    assert Less(t, u);
    if s != [] {
      DerivedOperators(s, t);
      LessEqTransitive(s, t, u);
      if s == u { LessAntisymmetric(t, u); }
      DerivedOperators(s, u);
    } else {
      EmptyIsLeast(u);
      if u == [] { EmptyIsLeast(t); }
    }
    if j > i + 1 {
      WalkOptimizedStartsIncrease(out, i + 1, j);
      LessTransitive(s, u, out[j].start);
    }
  }

  /** An optimised WALK list is strictly sorted, so sorting and `std::unique` leave it alone. */
  lemma WalkOptimizedStrictlySorted(out: seq<Range>)
    requires WalkOptimized(out)
    ensures StrictlySorted(out)
  {
    forall i, j | 0 <= i < j < |out|
      ensures Lt(out[i], out[j])
    {
      WalkOptimizedStartsIncrease(out, i, j);
      LtIsKeyOrder(out[i], out[j]);
    }
  }

  lemma LessAntisymmetric(a: Oid, b: Oid)
    requires Less(a, b)
    ensures !LessEq(b, a)
  {
    DerivedOperators(a, b);
    DerivedOperators(b, a);
  }

  /** After sorting, the unbounded range, when present, is the first. */
  lemma UnboundedComesFirst(s: seq<Range>, k: int)
    requires StrictlySorted(s) && 0 <= k < |s| && s[k] == Unbounded()
    ensures s[0] == Unbounded()
  {
    if k > 0 {
      UnboundedIsLeast(s[0]);
    }
  }

  /** The ranges kept so far, with the first range pushed when none is kept yet. */
  function Opened(out: seq<Range>, range: Range): (kept: seq<Range>)
    ensures |kept| > 0 && (out != [] ==> kept == out)
  {
    if out == [] then [range] else out
  }

  /** The stop the written merge keeps: none when the new range has none, else the greater one. */
  function JoinedStopAsWritten(last: Oid, next: Oid): Oid {
    if next == [] then [] else if GreaterEq(last, next) then last else next
  }

  /** The stop a merge keeps so that the walk test admits all that either range admitted. */
  function JoinedStop(last: Oid, next: Oid): Oid {
    if next == [] then [] else if StopCovers(last, next) then last else next
  }

  /**
   * One pass of the WALK loop as written, once the last kept range has a stop: a range with
   * the last kept start is skipped, one starting at or below the last kept stop is merged
   * into it, any other is kept.
   */
  function StepAsWritten(kept: seq<Range>, range: Range): seq<Range>
    requires kept != []
  {
    var last := kept[|kept| - 1];
    if last.start == range.start then kept
    else if GreaterEq(last.stop, range.start) then
      kept[..|kept| - 1] + [Range(last.start, JoinedStopAsWritten(last.stop, range.stop))]
    else kept + [range]
  }

  /** The WALK loop as written, over the ranges it has still to look at. */
  function MergeAsWritten(out: seq<Range>, rest: seq<Range>): (r: seq<Range>)
    ensures out != [] || rest != [] ==> r != []
    decreases |rest|
  {
    if rest == [] then out
    else
      var kept := Opened(out, rest[0]);
      if kept[|kept| - 1].stop == [] then kept
      else MergeAsWritten(StepAsWritten(kept, rest[0]), rest[1..])
  }

  /**
   * One corrected pass: every range starting at or below the last kept stop, a range with
   * the same start included, is merged into it with `JoinedStop`; any other is kept.
   */
  function Step(kept: seq<Range>, range: Range): seq<Range>
    requires kept != []
  {
    var last := kept[|kept| - 1];
    if GreaterEq(last.stop, range.start) then
      kept[..|kept| - 1] + [Range(last.start, JoinedStop(last.stop, range.stop))]
    else kept + [range]
  }

  /** The corrected WALK loop, over the ranges it has still to look at. */
  function Merge(out: seq<Range>, rest: seq<Range>): (r: seq<Range>)
    ensures out != [] || rest != [] ==> r != []
    decreases |rest|
  {
    if rest == [] then out
    else
      var kept := Opened(out, rest[0]);
      if kept[|kept| - 1].stop == [] then kept
      else Merge(Step(kept, rest[0]), rest[1..])
  }

  /**
   * The written merge loses OIDs the walk test admits: `[(.1, .5.1), (.2, .5)]` becomes
   * `[(.1, .5.1)]`, which does not admit `.5.2`, because `.5.1 >= .5` keeps the stop `.5.1`.
   */
  lemma MergeAsWrittenLosesMasked()
    ensures var u := [Range([1], [5, 1]), Range([2], [5])];
      && StrictlySorted(u) && Masks(u[1], [5, 2])
      && MergeAsWritten([], u) == [Range([1], [5, 1])] && !MasksAny(MergeAsWritten([], u), [5, 2])
  {
    var a, b := Range([1], [5, 1]), Range([2], [5]);
    assert Less([1], [2]);
    assert Lt(a, b) by { LtIsKeyOrder(a, b); }
    assert GreaterEq([5, 1], [2]) && GreaterEq([5, 1], [5]);
    assert [a, b][1..] == [b];
    assert StepAsWritten([a], b) == [a];
    assert MergeAsWritten([], [a, b]) == MergeAsWritten([a], [b]) == MergeAsWritten([a], []);
    assert !Masks(a, [5, 2]) by {
      assert Greater([5, 2], [5, 1]);
      DerivedOperators([5, 2], [5, 1]);
    }
  }

  /** The corrected merge keeps `.5` as the stop of `[(.1, .5.1), (.2, .5)]`, and so `.5.2`. */
  lemma MergeKeepsMasked()
    ensures var u := [Range([1], [5, 1]), Range([2], [5])];
      Merge([], u) == [Range([1], [5])] && MasksAny(Merge([], u), [5, 2])
  {
    var a, b := Range([1], [5, 1]), Range([2], [5]);
    assert GreaterEq([5, 1], [1]) && GreaterEq([5, 1], [2]);
    assert IsRootOf([5], [5, 1]) && !IsRootOf([5, 1], [5]);
    assert [a, b][1..] == [b];
    assert Step([a], a) == [a] by { RootOfSelfAndEmpty([5, 1]); }
    assert Step([a], b) == [Range([1], [5])];
    assert Merge([], [a, b]) == Merge([a], [b]) == Merge([Range([1], [5])], []);
    assert Masks(Range([1], [5]), [5, 2]);
  }

  /**
   * The written merge skips a range with the same start as the last kept one:
   * `[(.1, .5.1), (.1, .5)]` becomes `[(.1, .5.1)]`, which does not admit `.5.2`.
   */
  lemma MergeAsWrittenSkipsSameStart()
    ensures var u := [Range([1], [5, 1]), Range([1], [5])];
      && StrictlySorted(u) && Masks(u[1], [5, 2])
      && MergeAsWritten([], u) == [Range([1], [5, 1])] && !MasksAny(MergeAsWritten([], u), [5, 2])
  {
    var a, b := Range([1], [5, 1]), Range([1], [5]);
    assert Greater([5, 1], [5]);
    assert Lt(a, b) by { LtIsKeyOrder(a, b); }
    assert [a, b][1..] == [b];
    assert StepAsWritten([a], b) == [a];
    assert MergeAsWritten([], [a, b]) == MergeAsWritten([a], [b]) == MergeAsWritten([a], []);
    assert !Masks(a, [5, 2]) by {
      assert Greater([5, 2], [5, 1]);
      DerivedOperators([5, 2], [5, 1]);
    }
  }

  /** The corrected merge joins `(.1, .5)` into `(.1, .5.1)` with the stop `.5`, and so keeps `.5.2`. */
  lemma MergeJoinsSameStart()
    ensures var u := [Range([1], [5, 1]), Range([1], [5])];
      Merge([], u) == [Range([1], [5])] && MasksAny(Merge([], u), [5, 2])
  {
    var a, b := Range([1], [5, 1]), Range([1], [5]);
    assert GreaterEq([5, 1], [1]);
    assert IsRootOf([5], [5, 1]) && !IsRootOf([5, 1], [5]);
    assert [a, b][1..] == [b];
    assert Step([a], a) == [a] by { RootOfSelfAndEmpty([5, 1]); }
    assert Step([a], b) == [Range([1], [5])];
    assert Merge([], [a, b]) == Merge([a], [b]) == Merge([Range([1], [5])], []);
    assert Masks(Range([1], [5]), [5, 2]);
  }

  /** Where a sorted input ranks `x` before `y`, `x` starts no later. */
  lemma LtStarts(x: Range, y: Range)
    requires Lt(x, y)
    ensures LessEq(x.start, y.start)
    ensures x.start == y.start && x.stop != [] ==> y.stop != [] && Less(y.stop, x.stop)
  {
    LtIsKeyOrder(x, y);
    DerivedOperators(x.start, y.start);
    DerivedOperators(x.stop, y.stop);
  }

  /** The range the written loop merges holds, as an interval, what the two ranges held. */
  lemma IntervalJoinAsWritten(last: Range, range: Range, o: Oid)
    requires last.stop != [] && LessEq(last.start, range.start) && LessEq(range.start, last.stop)
    ensures InInterval(Range(last.start, JoinedStopAsWritten(last.stop, range.stop)), o) <==>
            InInterval(last, o) || InInterval(range, o)
  {
    var ls, lt, rs, rt := last.start, last.stop, range.start, range.stop;
    DerivedOperators(lt, rt);
    DerivedOperators(o, lt);
    DerivedOperators(lt, o);
    if InInterval(range, o) {
      LessEqTransitive(ls, rs, o);
      if rt != [] && GreaterEq(lt, rt) {
        LessEqTransitive(o, rt, lt);
      }
    }
    if InInterval(last, o) && rt != [] && !GreaterEq(lt, rt) {
      LessEqTransitive(o, lt, rt);
    }
    if InInterval(Range(ls, JoinedStopAsWritten(lt, rt)), o) && !InInterval(last, o) {
      LessEqTransitive(rs, lt, o);
    }
  }

  /**
   * What the written loop relies on for intervals: a strictly sorted rest, and a witness
   * `w`, the first range merged into the last kept one, that ranks below every range still
   * to come and whose stop the kept stop has not fallen below.
   */
  predicate AsWrittenReady(out: seq<Range>, rest: seq<Range>, w: Range) {
    && StrictlySorted(rest)
    && (out != [] ==>
          && w.start == out[|out| - 1].start
          && (forall k :: 0 <= k < |rest| ==> Lt(w, rest[k]))
          && (out[|out| - 1].stop != [] ==> w.stop != [] && LessEq(w.stop, out[|out| - 1].stop)))
  }

  /** Ranges that do not start below an unbounded last one hold nothing it does not. */
  lemma OpenLastHoldsRest(last: Range, rest: seq<Range>, o: Oid)
    requires last.stop == [] && forall k :: 0 <= k < |rest| ==> LessEq(last.start, rest[k].start)
    ensures Covers(rest, o) ==> InInterval(last, o)
  {
    if Covers(rest, o) {
      var x :| x in rest && InInterval(x, o);
      var k :| 0 <= k < |rest| && rest[k] == x;
      LessEqTransitive(last.start, x.start, o);
    }
  }

  /** The witness after one pass: a range pushed on its own becomes the new one. */
  function NextWitness(out: seq<Range>, range: Range, w: Range): Range
    requires out != []
  {
    var last := out[|out| - 1];
    if last.start != range.start && !GreaterEq(last.stop, range.start) then range else w
  }

  /** One pass of the written loop keeps what the ranges hold as intervals. */
  lemma StepAsWrittenCovers(out: seq<Range>, range: Range, w: Range, o: Oid)
    requires out != [] && out[|out| - 1].stop != []
    requires w.start == out[|out| - 1].start && Lt(w, range)
    requires w.stop != [] && LessEq(w.stop, out[|out| - 1].stop)
    ensures Covers(StepAsWritten(out, range), o) <==> Covers(out, o) || InInterval(range, o)
  {
    var n, last := |out|, out[|out| - 1];
    LtStarts(w, range);
    if last.start == range.start {
      LessEqTransitive(range.stop, w.stop, last.stop);
      DerivedOperators(range.stop, w.stop);
      if InInterval(range, o) {
        LessEqTransitive(o, range.stop, last.stop);
        assert last in out;
      }
    } else if GreaterEq(last.stop, range.start) {
      DerivedOperators(last.stop, range.start);
      IntervalJoinAsWritten(last, range, o);
      var m := Range(last.start, JoinedStopAsWritten(last.stop, range.stop));
      var front := out[..n - 1];
      assert out == front + [last];
      assert Covers(front + [m], o) <==> Covers(front, o) || InInterval(m, o);
      assert Covers(out, o) <==> Covers(front, o) || InInterval(last, o);
    } else {
      assert Covers(out + [range], o) <==> Covers(out, o) || InInterval(range, o);
    }
  }

  /** One pass of the written loop keeps what it relies on. */
  lemma StepAsWrittenReady(out: seq<Range>, rest: seq<Range>, w: Range)
    requires AsWrittenReady(out, rest, w) && out != [] && rest != [] && out[|out| - 1].stop != []
    ensures AsWrittenReady(StepAsWritten(out, rest[0]), rest[1..], NextWitness(out, rest[0], w))
  {
    var last, range := out[|out| - 1], rest[0];
    forall k | 0 <= k < |rest[1..]|
      ensures Lt(range, rest[1..][k]) && Lt(w, rest[1..][k])
    {
      assert rest[1..][k] == rest[k + 1];
    }
    if last.start != range.start && GreaterEq(last.stop, range.start) && range.stop != [] {
      var stop := JoinedStopAsWritten(last.stop, range.stop);
      if stop != last.stop {
        DerivedOperators(last.stop, range.stop);
        LessEqTransitive(w.stop, last.stop, range.stop);
      }
    }
  }

  /** The first range pushed starts a run the written loop can follow. */
  lemma OpenAsWrittenReady(rest: seq<Range>)
    requires StrictlySorted(rest) && rest != []
    ensures AsWrittenReady([rest[0]], rest[1..], rest[0])
    ensures forall k :: 0 <= k < |rest| ==> LessEq(rest[0].start, rest[k].start)
  {
    forall k | 0 <= k < |rest|
      ensures LessEq(rest[0].start, rest[k].start)
    {
      if k > 0 { LtStarts(rest[0], rest[k]); }
    }
    forall k | 0 <= k < |rest[1..]|
      ensures Lt(rest[0], rest[1..][k])
    {
      assert rest[1..][k] == rest[k + 1];
    }
  }

  /** The written loop keeps what the ranges hold as intervals. */
  lemma {:induction false} MergeAsWrittenCovers(out: seq<Range>, rest: seq<Range>, w: Range, o: Oid)
    requires AsWrittenReady(out, rest, w)
    ensures Covers(MergeAsWritten(out, rest), o) <==> Covers(out, o) || Covers(rest, o)
    decreases |rest|
  {
    if rest != [] {
      var range := rest[0];
      assert rest == [range] + rest[1..];
      assert Covers(rest, o) <==> InInterval(range, o) || Covers(rest[1..], o);
      if out == [] {
        OpenAsWrittenReady(rest);
        if range.stop == [] {
          OpenLastHoldsRest(range, rest, o);
        } else {
          assert StepAsWritten([range], range) == [range];
          MergeAsWrittenCovers([range], rest[1..], range, o);
        }
      } else if out[|out| - 1].stop == [] {
        forall k | 0 <= k < |rest|
          ensures LessEq(out[|out| - 1].start, rest[k].start)
        {
          LtStarts(w, rest[k]);
        }
        OpenLastHoldsRest(out[|out| - 1], rest, o);
        assert out[|out| - 1] in out;
      } else {
        StepAsWrittenCovers(out, range, w, o);
        StepAsWrittenReady(out, rest, w);
        MergeAsWrittenCovers(StepAsWritten(out, range), rest[1..], NextWitness(out, range, w), o);
      }
    }
  }

  /**
   * Read as intervals, the written loop is exact: on sorted, duplicate-free ranges it holds
   * what they held. The loss it shows against the walk test comes from the stop's subtree.
   */
  lemma MergeAsWrittenKeepsIntervals(u: seq<Range>)
    requires StrictlySorted(u)
    ensures forall o :: Covers(MergeAsWritten([], u), o) <==> Covers(u, o)
  {
    forall o
      ensures Covers(MergeAsWritten([], u), o) <==> Covers(u, o)
    {
      MergeAsWrittenCovers([], u, Unbounded(), o);
    }
  }

  /** A valid range with a stop starts at or below it. */
  lemma StartBelowStop(x: Range)
    requires Valid(x) && x.stop != []
    ensures LessEq(x.start, x.stop)
  {
    EmptyIsLeast(x.stop);
  }

  /** Merging a range that starts between the last kept start and stop gives a valid range. */
  lemma JoinValid(last: Range, range: Range)
    requires Valid(last) && Valid(range) && last.stop != []
    requires LessEq(last.start, range.start)
    ensures Valid(Range(last.start, JoinedStop(last.stop, range.stop)))
  {
    if range.stop != [] && !StopCovers(last.stop, range.stop) {
      StartBelowStop(range);
      LessEqTransitive(last.start, range.start, range.stop);
    }
  }

  /** The merged range admits under the walk test exactly what the two ranges admitted. */
  lemma MaskJoin(last: Range, range: Range, o: Oid)
    requires Valid(last) && Valid(range) && last.stop != []
    requires LessEq(last.start, range.start) && LessEq(range.start, last.stop)
    ensures Masks(Range(last.start, JoinedStop(last.stop, range.stop)), o) <==> Masks(last, o) || Masks(range, o)
  {
    var ls, lt, rs, rt := last.start, last.stop, range.start, range.stop;
    StartBelowStop(last);
    RootOfSelfAndEmpty(o);
    if rt != [] {
      StartBelowStop(range);
      if StopCovers(lt, rt) {
        if Masks(range, o) {
          StopCoversDown(lt, rt, o);
          if !IsRootOf(lt, o) {
            if LessEq(rs, o) {
              LessEqTransitive(ls, rs, o);
            } else {
              RootIsLessEq(rt, o);
              LessEqTransitive(rs, rt, o);
            }
          }
        }
      } else {
        StopCoversTotal(lt, rt);
        if Masks(Range(ls, rt), o) && !Masks(range, o) {
          DerivedOperators(rs, o);
          DerivedOperators(o, rs);
          LessEqTransitive(o, rs, lt);
        }
        if Masks(last, o) {
          StopCoversDown(rt, lt, o);
          if !IsRootOf(rt, o) && !LessEq(ls, o) {
            RootIsLessEq(lt, o);
            LessEqTransitive(ls, lt, o);
          }
        }
        if Masks(range, o) && !IsRootOf(rt, o) {
          LessEqTransitive(ls, rs, o);
        }
      }
    }
  }

  /**
   * What the corrected loop relies on: valid ranges with starts in order, none starting
   * below the last kept start, and a kept list of the optimised form.
   */
  predicate MergeReady(out: seq<Range>, rest: seq<Range>) {
    && (forall k :: 0 <= k < |rest| ==> Valid(rest[k]))
    && (forall i, j :: 0 <= i < j < |rest| ==> LessEq(rest[i].start, rest[j].start))
    && (out != [] ==> WalkOptimized(out) && forall k :: 0 <= k < |rest| ==> LessEq(out[|out| - 1].start, rest[k].start))
  }

  lemma OpenedReady(out: seq<Range>, rest: seq<Range>)
    requires MergeReady(out, rest) && rest != []
    ensures MergeReady(Opened(out, rest[0]), rest)
  {
    if out == [] {
      assert LessEq(rest[0].start, rest[0].start);
    }
  }

  lemma StepReady(kept: seq<Range>, rest: seq<Range>)
    requires MergeReady(kept, rest) && kept != [] && rest != [] && kept[|kept| - 1].stop != []
    ensures MergeReady(Step(kept, rest[0]), rest[1..])
  {
    var n, last, range := |kept|, kept[|kept| - 1], rest[0];
    forall k | 0 <= k < |rest[1..]|
      ensures Valid(rest[1..][k]) && LessEq(last.start, rest[1..][k].start) && LessEq(range.start, rest[1..][k].start)
    {
      assert rest[1..][k] == rest[k + 1];
    }
    if GreaterEq(last.stop, range.start) {
      JoinValid(last, range);
      var next := kept[..n - 1] + [Range(last.start, JoinedStop(last.stop, range.stop))];
      assert forall k :: 0 <= k < n - 1 ==> next[k] == kept[k];
      assert next[n - 1].start == last.start;
    } else {
      DerivedOperators(last.stop, range.start);
      var next := kept + [range];
      assert forall k :: 0 <= k < n ==> next[k] == kept[k];
    }
  }

  /** One corrected pass keeps what the walk test admits. */
  lemma StepMasks(kept: seq<Range>, range: Range, o: Oid)
    requires kept != [] && WalkOptimized(kept) && kept[|kept| - 1].stop != []
    requires Valid(range) && LessEq(kept[|kept| - 1].start, range.start)
    ensures MasksAny(Step(kept, range), o) <==> MasksAny(kept, o) || Masks(range, o)
  {
    var n, last := |kept|, kept[|kept| - 1];
    assert Valid(last);
    if GreaterEq(last.stop, range.start) {
      var m := Range(last.start, JoinedStop(last.stop, range.stop));
      DerivedOperators(last.stop, range.start);
      MaskJoin(last, range, o);
      var front := kept[..n - 1];
      assert kept == front + [last] && Step(kept, range) == front + [m];
      assert MasksAny(front + [m], o) <==> MasksAny(front, o) || Masks(m, o);
      assert MasksAny(kept, o) <==> MasksAny(front, o) || Masks(last, o);
    } else {
      assert MasksAny(kept + [range], o) <==> MasksAny(kept, o) || Masks(range, o);
    }
  }

  /** A range masks `o` when the first one does or one of the rest does. */
  lemma MasksAnyCons(rest: seq<Range>, o: Oid)
    requires rest != []
    ensures MasksAny(rest, o) <==> Masks(rest[0], o) || MasksAny(rest[1..], o)
  {
    assert rest == [rest[0]] + rest[1..];
  }

  /** Pushing the first range adds nothing the ranges to come do not mask. */
  lemma OpenedMasks(out: seq<Range>, rest: seq<Range>, o: Oid)
    requires rest != []
    ensures MasksAny(Opened(out, rest[0]), o) || MasksAny(rest, o) <==> MasksAny(out, o) || MasksAny(rest, o)
  {
    assert rest[0] in rest;
  }

  /** A kept range without a stop masks every OID. */
  lemma OpenLastMasksAll(kept: seq<Range>, o: Oid)
    requires kept != [] && kept[|kept| - 1].stop == []
    ensures MasksAny(kept, o)
  {
    RootOfSelfAndEmpty(o);
    assert Masks(kept[|kept| - 1], o);
  }

  /** The corrected loop keeps exactly what the walk test admits. */
  lemma {:induction false} MergeMasks(out: seq<Range>, rest: seq<Range>, o: Oid)
    requires MergeReady(out, rest)
    ensures MasksAny(Merge(out, rest), o) <==> MasksAny(out, o) || MasksAny(rest, o)
    decreases |rest|
  {
    if rest != [] {
      var range := rest[0];
      var kept := Opened(out, range);
      OpenedMasks(out, rest, o);
      OpenedReady(out, rest);
      if kept[|kept| - 1].stop == [] {
        OpenLastMasksAll(kept, o);
      } else {
        assert Valid(range) && LessEq(kept[|kept| - 1].start, range.start);
        StepMasks(kept, range, o);
        StepReady(kept, rest);
        MergeMasks(Step(kept, range), rest[1..], o);
        MasksAnyCons(rest, o);
      }
    }
  }

  /**
   * The corrected loop gives the optimised form, keeps the first start, and keeps a first
   * range without a stop as it is.
   */
  lemma {:induction false} MergeShape(out: seq<Range>, rest: seq<Range>)
    requires MergeReady(out, rest) && (out != [] || rest != [])
    ensures var first := if out == [] then rest[0] else out[0];
      && WalkOptimized(Merge(out, rest)) && Merge(out, rest)[0].start == first.start
      && (first.stop == [] ==> Merge(out, rest)[0] == first)
    decreases |rest|
  {
    if rest != [] {
      var kept := Opened(out, rest[0]);
      OpenedReady(out, rest);
      if kept[|kept| - 1].stop != [] {
        StepReady(kept, rest);
        var next := Step(kept, rest[0]);
        assert next[0].start == kept[0].start;
        if |kept| > 1 {
          assert kept[0].stop != [];
        }
        MergeShape(next, rest[1..]);
      }
    }
  }

  /** A list already in the optimised form passes through the corrected loop unchanged. */
  lemma {:induction false} MergeFixes(w: seq<Range>, i: nat)
    requires WalkOptimized(w) && 1 <= i <= |w|
    ensures Merge(w[..i], w[i..]) == w
    decreases |w| - i
  {
    if i < |w| {
      assert w[i - 1].stop != [] && Less(w[i - 1].stop, w[i].start);
      DerivedOperators(w[i - 1].stop, w[i].start);
      assert w[..i] + [w[i]] == w[..i + 1] && w[i..][1..] == w[i + 1..];
      MergeFixes(w, i + 1);
    }
  }

  lemma MergeFixesWalkOptimized(w: seq<Range>)
    requires WalkOptimized(w)
    ensures Merge([], w) == w
  {
    if w[0].stop != [] {
      StartBelowStop(w[0]);
      RootOfSelfAndEmpty(w[0].stop);
      DerivedOperators(w[0].stop, w[0].start);
      assert Step([w[0]], w[0]) == w[..1];
      MergeFixes(w, 1);
    } else {
      assert |w| == 1;
    }
  }

  // ---------------------------------------------------------------- optimize_ranges

  /**
   * What `optimize_ranges` returns. Absent or empty input gives `None`. The ranges are
   * sorted and made unique; a GET keeps them when every one is a point range and throws on
   * the first that is not; a WALK merges overlapping neighbours and gives `None` when the
   * result starts with the unbounded range.
   */
  function Optimized(kind: RequestType, ranges: Option<seq<Range>>): (r: Result<Option<seq<Range>>, RequestError>)
    ensures kind == WalkRequest ==> r.Ok?
    ensures r.Ok? && r.value.Some? ==> |r.value.value| > 0
    ensures r.Err? ==> r.error.NotPointRange?
  {
    if ranges.None? || ranges.value == [] then Ok(None)
    else
      var unique := Unique(Sort(ranges.value));
      match kind
      case GetRequest => PointsOnly(unique)
      case WalkRequest =>
        SortPermutes(ranges.value);
        SameMembers(Sort(ranges.value), ranges.value);
        assert ranges.value[0] in unique;
        Merged(unique)
  }

  /** The GET case on the sorted, duplicate-free ranges: kept when all are point ranges. */
  function PointsOnly(unique: seq<Range>): Result<Option<seq<Range>>, RequestError> {
    var bad := FirstNonPoint(unique);
    if bad.Some? then Err(NotPointRange(bad.value)) else Ok(Some(unique))
  }

  /** The WALK case on the sorted, duplicate-free ranges: merged, or `None` when unbounded. */
  function Merged(unique: seq<Range>): (r: Result<Option<seq<Range>>, RequestError>)
    requires unique != []
    ensures r.Ok? && (r.value.Some? ==> |r.value.value| > 0)
  {
    var out := Merge([], unique);
    if out[0] == Unbounded() then Ok(None) else Ok(Some(out))
  }

  /** The form `optimize_ranges` leaves a non-empty result in. */
  predicate OptimizedForm(kind: RequestType, w: seq<Range>) {
    && |w| > 0 && (forall x :: x in w ==> Valid(x))
    && (kind == GetRequest ==> StrictlySorted(w) && forall x :: x in w ==> IsPoint(x))
    && (kind == WalkRequest ==> WalkOptimized(w) && w[0] != Unbounded())
  }

  /** Sorting and `std::unique` keep the members; the result is strictly sorted and its starts in order. */
  lemma SortUnique(s: seq<Range>)
    requires s != []
    ensures var u := Unique(Sort(s));
      && u != [] && StrictlySorted(u) && (forall x :: x in u <==> x in s)
      && (forall i, j :: 0 <= i < j < |u| ==> LessEq(u[i].start, u[j].start))
  {
    SortSorted(s);
    SortPermutes(s);
    SameMembers(Sort(s), s);
    assert s[0] in Sort(s);
    SortedStarts(Unique(Sort(s)));
  }

  /**
   * A GET keeps the sorted, duplicate-free ranges when all are point ranges, and otherwise
   * fails on the least range that is not one.
   */
  lemma OptimizedGet(ranges: seq<Range>)
    requires ranges != []
    ensures var r := Optimized(GetRequest, Some(ranges));
      && (r.Err? <==> exists x :: x in ranges && !IsPoint(x))
      && (r.Err? ==> r.error.range in ranges && !IsPoint(r.error.range)
                     && forall y :: y in ranges && !IsPoint(y) ==> LtEq(r.error.range, y))
      && (r.Ok? ==> r.value.Some? && StrictlySorted(r.value.value)
                    && forall x :: x in r.value.value <==> x in ranges)
  {
    var u := Unique(Sort(ranges));
    SortUnique(ranges);
    forall y | y in ranges && !IsPoint(y)
      ensures FirstNonPoint(u).Some? && LtEq(FirstNonPoint(u).value, y)
    {
      FirstNonPointLeast(u, y);
    }
  }

  /**
   * A WALK succeeds: the result is `None` when the unbounded range was given, and otherwise
   * has the optimised form and starts where the least given range starts.
   */
  lemma OptimizedWalk(ranges: seq<Range>)
    requires forall x :: x in ranges ==> Valid(x)
    ensures var r := Optimized(WalkRequest, Some(ranges));
      && r.Ok?
      && (Unbounded() in ranges ==> r.value.None?)
      && (r.value.Some? ==> OptimizedForm(WalkRequest, r.value.value)
                            && r.value.value[0].start in set x | x in ranges :: x.start)
  {
    if ranges != [] {
      var u := Unique(Sort(ranges));
      SortUnique(ranges);
      assert Optimized(WalkRequest, Some(ranges)) == Merged(u);
      MergedShape(u);
      if Unbounded() in ranges {
        var k :| 0 <= k < |u| && u[k] == Unbounded();
        UnboundedComesFirst(u, k);
      }
      assert u[0] in ranges;
    }
  }

  /** Merging sorted valid ranges gives the optimised form, starting where the first starts. */
  lemma MergedShape(u: seq<Range>)
    requires u != [] && (forall x :: x in u ==> Valid(x))
    requires forall i, j :: 0 <= i < j < |u| ==> LessEq(u[i].start, u[j].start)
    ensures u[0] == Unbounded() ==> Merged(u) == Ok(None)
    ensures Merged(u).value.Some? ==>
      OptimizedForm(WalkRequest, Merged(u).value.value) && Merged(u).value.value[0].start == u[0].start
  {
    assert MergeReady([], u);
    MergeShape([], u);
  }

  /**
   * A WALK admits, under the test `process_var_bind` applies, exactly what the given ranges
   * admitted; a `None` result stands for ranges that admitted every OID.
   */
  lemma OptimizedWalkMasks(ranges: seq<Range>, o: Oid)
    requires ranges != [] && forall x :: x in ranges ==> Valid(x)
    ensures var r := Optimized(WalkRequest, Some(ranges));
      && (r.value.Some? ==> (MasksAny(r.value.value, o) <==> MasksAny(ranges, o)))
      && (r.value.None? ==> MasksAny(ranges, o))
  {
    var u := Unique(Sort(ranges));
    SortUnique(ranges);
    MergeMasks([], u, o);
    assert MasksAny(u, o) <==> MasksAny(ranges, o);
    var out := Merge([], u);
    if out[0] == Unbounded() {
      RootOfSelfAndEmpty(o);
      assert Masks(out[0], o) && out[0] in out;
    }
  }

  /** A result already in the optimised form is returned as it is. */
  lemma OptimizedFixes(kind: RequestType, w: seq<Range>)
    requires OptimizedForm(kind, w)
    ensures Optimized(kind, Some(w)) == Ok(Some(w))
  {
    if kind == WalkRequest {
      WalkOptimizedStrictlySorted(w);
      MergeFixesWalkOptimized(w);
    }
    SortFixesStrictlySorted(w);
    UniqueFixesStrictlySorted(w);
  }

  /** Every non-empty result has the optimised form. */
  lemma OptimizedForms(kind: RequestType, ranges: Option<seq<Range>>)
    requires ranges.Some? ==> forall x :: x in ranges.value ==> Valid(x)
    ensures var r := Optimized(kind, ranges);
      r.Ok? && r.value.Some? ==> OptimizedForm(kind, r.value.value)
  {
    if ranges.Some? && ranges.value != [] {
      if kind == WalkRequest {
        OptimizedWalk(ranges.value);
      } else {
        var u := Unique(Sort(ranges.value));
        SortUnique(ranges.value);
        assert Optimized(kind, ranges) == PointsOnly(u);
      }
    }
  }

  /** Optimising twice is optimising once. */
  lemma OptimizedIdempotent(kind: RequestType, ranges: Option<seq<Range>>)
    requires ranges.Some? ==> forall x :: x in ranges.value ==> Valid(x)
    ensures var r := Optimized(kind, ranges);
      r.Ok? ==> Optimized(kind, r.value) == r
  {
    OptimizedForms(kind, ranges);
    var r := Optimized(kind, ranges);
    if r.Ok? && r.value.Some? {
      OptimizedFixes(kind, r.value.value);
    }
  }

  /**
   * The corrected WALK loop of `optimize_ranges`: the first range is pushed, nothing after
   * an unbounded stop is looked at, a range starting at or below the last kept stop is
   * merged into it and any other is kept.
   */
  method MergeOverlapping(unique: seq<Range>) returns (out: seq<Range>)
    ensures out == Merge([], unique)
  {
    out := [];
    var i := 0;
    while i < |unique|
      invariant 0 <= i <= |unique|
      invariant Merge(out, unique[i..]) == Merge([], unique)
    {
      var range := unique[i];
      assert unique[i..][0] == range && unique[i..][1..] == unique[i + 1..];
      ghost var kept := Opened(out, range);
      if out == [] {
        out := [range];
      }
      assert out == kept;
      var last := out[|out| - 1];
      if last.stop == [] {
        break;
      }
      if GreaterEq(last.stop, range.start) {
        var stop := if range.stop == [] then []
                    else if StopCovers(last.stop, range.stop) then last.stop
                    else range.stop;
        out := out[..|out| - 1] + [Range(last.start, stop)];
      } else {
        out := out + [range];
      }
      assert out == Step(kept, range);
      i := i + 1;
    }
  }

  /** `optimize_ranges`, with the corrected WALK loop. */
  method OptimizeRanges(kind: RequestType, ranges: Option<seq<Range>>)
    returns (r: Result<Option<seq<Range>>, RequestError>)
    ensures r == Optimized(kind, ranges)
  {
    if ranges.None? || ranges.value == [] {
      return Ok(None);
    }
    var unique := Unique(Sort(ranges.value));
    match kind
    case GetRequest =>
      assert Optimized(kind, ranges) == PointsOnly(unique);
      var i := 0;
      while i < |unique|
        invariant 0 <= i <= |unique|
        invariant FirstNonPoint(unique[i..]) == FirstNonPoint(unique)
      {
        if unique[i].start != unique[i].stop || unique[i].start == [] {
          return Err(NotPointRange(unique[i]));
        }
        assert unique[i..][1..] == unique[i + 1..];
        i := i + 1;
      }
      return Ok(Some(unique));
    case WalkRequest =>
      assert Optimized(kind, ranges) == Merged(unique);
      var out := MergeOverlapping(unique);
      if out[0].start == [] && out[0].stop == [] {
        return Ok(None);
      }
      return Ok(Some(out));
  }

  // ---------------------------------------------------------------- the constructor

  /** What a constructed request satisfies. */
  predicate ValidRequest(q: SnmpRequest) {
    && |q.oids| > 0
    && Unambiguous(q.oids)
    && (q.ranges.Some? ==> OptimizedForm(q.kind, q.ranges.value))
  }

  /**
   * The `SnmpRequest` constructor: the ranges are optimised while the members are
   * initialised, then the OID list is checked for emptiness and for ambiguous roots.
   */
  method MakeRequest(kind: RequestType, host: string, community: Community, oids: seq<Oid>,
                     ranges: Option<seq<Range>>, reqId: Option<seq<Byte>>,
                     config: Option<Configs.Config>)
    returns (r: Result<SnmpRequest, RequestError>)
    requires ranges.Some? ==> forall x :: x in ranges.value ==> Valid(x)
    ensures r.Ok? ==> ValidRequest(r.value)
    ensures r.Ok? ==> && r.value.kind == kind && r.value.host == host
                      && r.value.community == community && r.value.oids == oids
                      && r.value.reqId == reqId && r.value.config == config
    ensures r.Ok? ==> Optimized(kind, ranges).Ok? && r.value.ranges == Optimized(kind, ranges).value
    ensures r.Ok? <==> Optimized(kind, ranges).Ok? && |oids| > 0 && Unambiguous(oids)
    ensures r.Ok? <==> (kind == WalkRequest || ranges.None? || forall x :: x in ranges.value ==> IsPoint(x))
                       && |oids| > 0 && Unambiguous(oids)
    ensures Optimized(kind, ranges).Err? ==> r == Err(Optimized(kind, ranges).error)
    ensures r.Err? && r.error.MissingObjectIdentity? ==> oids == []
    ensures r.Err? && r.error.AmbiguousRootOids? ==>
      exists i, j :: FirstRelatedPair(oids, i, j) && (r.error.first, r.error.second) == (oids[i], oids[j])
    ensures oids == [] && kind == WalkRequest ==> r == Err(MissingObjectIdentity)
  {
    OptimizedForms(kind, ranges);
    if ranges.Some? && ranges.value != [] && kind == GetRequest {
      OptimizedGet(ranges.value);
    }
    var optimized := OptimizeRanges(kind, ranges);
    if optimized.Err? {
      return Err(optimized.error);
    }
    if oids == [] {
      return Err(MissingObjectIdentity);
    }
    var ambiguous := TestAmbiguousRootOids(oids);
    if ambiguous.Some? {
      return Err(AmbiguousRootOids(ambiguous.value.0, ambiguous.value.1));
    }
    return Ok(SnmpRequest(kind, host, community, oids, optimized.value, reqId, config));
  }
}
