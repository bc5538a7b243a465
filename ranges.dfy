/**
 * `ObjectIdentityRange`: a pair of OIDs bounding a collection, where the empty OID stands
 * for an absent bound, its checked constructor, field-wise equality and the ordering that
 * `SnmpRequest` sorts ranges by.
 */
module Ranges {
  import opened Wrappers
  import opened ObjectIdentities

  datatype Range = Range(start: Oid, stop: Oid)

  /** What every constructed range satisfies: two present bounds are in order. */
  predicate Valid(r: Range) {
    r.start == [] || r.stop == [] || LessEq(r.start, r.stop)
  }

  /** The `std::invalid_argument` the range constructor throws. */
  datatype RangeError = NotLexicographicallyLess(start: Oid, stop: Oid)

  /** The default constructor: both bounds absent. */
  function Unbounded(): (r: Range)
    ensures r.start == [] && r.stop == [] && Valid(r)
  {
    Range([], [])
  }

  /** The point constructor `ObjectIdentityRange(oid)`. */
  function Point(oid: Oid): (r: Range)
    ensures r.start == oid && r.stop == oid && Valid(r)
  {
    Range(oid, oid)
  }

  /**
   * The checked constructor: `nullopt` becomes the empty OID, and it throws iff both
   * bounds are non-empty and `start > stop`.
   */
  function MakeRange(start: Option<Oid>, stop: Option<Oid>): (r: Result<Range, RangeError>)
    ensures r.Ok? <==> Valid(Range(start.GetOr([]), stop.GetOr([])))
    ensures r.Ok? ==> r.value.start == start.GetOr([]) && r.value.stop == stop.GetOr([])
    ensures r.Err? ==> r.error == NotLexicographicallyLess(start.GetOr([]), stop.GetOr([]))
  {
    var s, t := start.GetOr([]), stop.GetOr([]);
    DerivedOperators(s, t);
    if s != [] && t != [] && Greater(s, t) then Err(NotLexicographicallyLess(s, t))
    else Ok(Range(s, t))
  }

  // ---------------------------------------------------------------- comparisons

  /** `operator==`: field-wise. */
  predicate Eq(a: Range, b: Range) {
    a.start == b.start && a.stop == b.stop
  }

  /** `operator<`, branch for branch as written in the implementation file. */
  predicate Lt(a: Range, b: Range) {
    if a.start == [] then
      if a.stop == [] then !(b.start == [] && b.stop == [])
      else if b.start == [] then
        if b.stop == [] then false else Greater(a.stop, b.stop)
      else true
    else if b.start == [] then false
    else if b.stop == [] then Less(a.start, b.start)
    else if a.stop == [] then LessEq(a.start, b.start)
    else Less(a.start, b.start) || (a.start == b.start && Greater(a.stop, b.stop))
  }

  predicate LtEq(a: Range, b: Range) { Eq(a, b) || Lt(a, b) }
  predicate Gt(a: Range, b: Range) { Lt(b, a) }
  predicate GtEq(a: Range, b: Range) { Eq(a, b) || Gt(a, b) }

  /**
   * The truth table documented beside the declaration of `operator<`, one case per
   * row: "none" is an empty bound and "value" a non-empty one.
   */
  predicate TableLt(l: Range, r: Range) {
    match (l.start != [], l.stop != [], r.start != [], r.stop != [])
    case (false, false, false, false) => false
    case (false, false, false, true) => true
    case (false, false, true, false) => true
    case (false, false, true, true) => true
    case (false, true, false, false) => false
    case (false, true, false, true) => Greater(l.stop, r.stop)
    case (false, true, true, false) => true
    case (false, true, true, true) => true
    case (true, false, false, false) => false
    case (true, false, false, true) => false
    case (true, false, true, false) => Less(l.start, r.start)
    case (true, false, true, true) => LessEq(l.start, r.start)
    case (true, true, false, false) => false
    case (true, true, false, true) => false
    case (true, true, true, false) => Less(l.start, r.start)
    case (true, true, true, true) =>
      Less(l.start, r.start) || (l.start == r.start && Greater(l.stop, r.stop))
  }

  /** Every row of the documented truth table holds of `operator<`. */
  lemma LtMatchesTable(a: Range, b: Range)
    ensures Lt(a, b) == TableLt(a, b)
  {
  }

  /** Range equality is equality of the values. */
  lemma EqIsEquality(a: Range, b: Range)
    ensures Eq(a, b) <==> a == b
  {
  }

  /**
   * How two stops are ordered once the starts are equal: an absent stop (the larger
   * range) comes first, otherwise the larger stop comes first.
   */
  predicate StopBefore(x: Oid, y: Oid) {
    x != y && (x == [] || (y != [] && Greater(x, y)))
  }

  /** `operator<` is the lexicographic order on (start, stop) with stops ordered by `StopBefore`. */
  lemma LtIsKeyOrder(a: Range, b: Range)
    ensures Lt(a, b) <==> Less(a.start, b.start) || (a.start == b.start && StopBefore(a.stop, b.stop))
  {
    EmptyIsLeast(a.start);
    EmptyIsLeast(b.start);
    DerivedOperators(a.start, b.start);
  }

  /** No range is less than itself. */
  lemma LtIrreflexive(a: Range)
    ensures !Lt(a, a)
  {
    LtIsKeyOrder(a, a);
  }

  /** `operator<` is asymmetric. */
  lemma LtAsymmetric(a: Range, b: Range)
    requires Lt(a, b)
    ensures !Lt(b, a)
  {
    LtIsKeyOrder(a, b);
    LtIsKeyOrder(b, a);
    DerivedOperators(a.start, b.start);
    DerivedOperators(a.stop, b.stop);
  }

  /** `operator<` is transitive. */
  lemma LtTransitive(a: Range, b: Range, c: Range)
    requires Lt(a, b) && Lt(b, c)
    ensures Lt(a, c)
  {
    LtIsKeyOrder(a, b);
    LtIsKeyOrder(b, c);
    LtIsKeyOrder(a, c);
    if Less(a.start, b.start) && Less(b.start, c.start) {
      LessTransitive(a.start, b.start, c.start);
    }
    if a.start == b.start == c.start && a.stop != [] && b.stop != [] && c.stop != [] {
      DerivedOperators(a.stop, b.stop);
      DerivedOperators(b.stop, c.stop);
      DerivedOperators(a.stop, c.stop);
      LessTransitive(c.stop, b.stop, a.stop);
    }
  }

  /** Any two different ranges are ordered one way or the other. */
  lemma LtTotal(a: Range, b: Range)
    requires a != b
    ensures Lt(a, b) || Lt(b, a)
  {
    LtIsKeyOrder(a, b);
    LtIsKeyOrder(b, a);
    DerivedOperators(a.start, b.start);
    DerivedOperators(a.stop, b.stop);
  }

  /** The derived operators: `<=` is `== || <`, `>` is `<` swapped, `>=` is `== || >`. */
  lemma DerivedRangeOperators(a: Range, b: Range)
    ensures LtEq(a, b) <==> !Gt(a, b)
    ensures GtEq(a, b) <==> LtEq(b, a)
    ensures Gt(a, b) <==> Lt(b, a)
  {
    if a == b {
      LtIrreflexive(a);
    } else {
      LtTotal(a, b);
      if Lt(a, b) { LtAsymmetric(a, b); }
    }
  }

  /** `<=` on ranges is transitive. */
  lemma LtEqTransitive(a: Range, b: Range, c: Range)
    requires LtEq(a, b) && LtEq(b, c)
    ensures LtEq(a, c)
  {
    if a != b && b != c {
      LtTransitive(a, b, c);
    }
  }

  /** The unbounded range sorts before every other range. */
  lemma UnboundedIsLeast(a: Range)
    ensures LtEq(Unbounded(), a)
    ensures a != Unbounded() ==> Lt(Unbounded(), a) && !Lt(a, Unbounded())
  {
  }
}
