/**
 * `ObjectIdentity`: an OID as a sequence of 64-bit arcs, with the comparisons that the
 * C++ class takes from the SNMP library (`snmp_oid_compare`, `netsnmp_oid_is_subtree`,
 * `snmp_oidtree_compare`) and concatenation.
 */
module ObjectIdentities {

  /** One arc (`oid_t`, an unsigned 64-bit integer). */
  type Arc = x: nat | x < 0x1_0000_0000_0000_0000

  type Oid = seq<Arc>

  /**
   * Three-way lexicographic comparison, as `snmp_oid_compare`: arcs are compared left to
   * right and, when one OID is a prefix of the other, the shorter one is the smaller.
   */
  function Compare(a: Oid, b: Oid): (c: int)
    ensures c == -1 || c == 0 || c == 1
    ensures c == 0 <==> a == b
  {
    if a == [] then (if b == [] then 0 else -1)
    else if b == [] then 1
    else if a[0] < b[0] then -1
    else if a[0] > b[0] then 1
    else
      var c := Compare(a[1..], b[1..]);
      assert c == 0 ==> a == [a[0]] + a[1..] == [b[0]] + b[1..] == b;
      c
  }

  /** The four operators of the class all read the one three-way comparison. */
  predicate Less(a: Oid, b: Oid) { Compare(a, b) == -1 }
  predicate LessEq(a: Oid, b: Oid) { Compare(a, b) <= 0 }
  predicate Greater(a: Oid, b: Oid) { Compare(a, b) == 1 }
  predicate GreaterEq(a: Oid, b: Oid) { Compare(a, b) >= 0 }

  /** `p` is a prefix of `s` (possibly all of it). */
  predicate IsPrefix(p: Oid, s: Oid) { |p| <= |s| && s[..|p|] == p }

  /**
   * Reference definition of the standard lexicographic order: either `a` is a proper
   * prefix of `b`, or at the first position where they differ `a` has the smaller arc.
   */
  ghost predicate LexLess(a: Oid, b: Oid) {
    (IsPrefix(a, b) && |a| < |b|) ||
    exists k :: 0 <= k < |a| && k < |b| && a[..k] == b[..k] && a[k] < b[k]
  }

  /**
   * `is_root_of`, as `netsnmp_oid_is_subtree(this, other) == 0`: `other` lies in the
   * subtree rooted at `root`, which is the prefix relation of the order above.
   */
  predicate IsRootOf(root: Oid, other: Oid) {
    IsPrefix(root, other)
  }

  /** `operator+`: the arcs of `a` followed by the arcs of `b`. */
  function Concat(a: Oid, b: Oid): (r: Oid)
    ensures |r| == |a| + |b|
    ensures r[..|a|] == a && r[|a|..] == b
  {
    a + b
  }

  /**
   * `snmp_oidtree_compare`: the comparison of the two OIDs cut to their common length,
   * so 0 means that one of them lies in the subtree of the other.
   */
  function TreeCompare(a: Oid, b: Oid): int {
    var n := if |a| <= |b| then |a| else |b|;
    Compare(a[..n], b[..n])
  }

  // ---------------------------------------------------------------- order properties

  /** Swapping the operands negates the comparison. */
  lemma {:induction false} CompareAntisymmetric(a: Oid, b: Oid)
    ensures Compare(a, b) == -Compare(b, a)
  {
    if a != [] && b != [] && a[0] == b[0] {
      CompareAntisymmetric(a[1..], b[1..]);
    }
  }

  /** `<` is transitive. */
  lemma {:induction false} LessTransitive(a: Oid, b: Oid, c: Oid)
    requires Less(a, b) && Less(b, c)
    ensures Less(a, c)
  {
    if a != [] && b != [] && c != [] && a[0] == b[0] && b[0] == c[0] {
      LessTransitive(a[1..], b[1..], c[1..]);
    }
  }

  /** For any two OIDs exactly one of `a < b`, `a == b`, `a > b` holds. */
  lemma Trichotomy(a: Oid, b: Oid)
    ensures Less(a, b) || a == b || Greater(a, b)
    ensures !(Less(a, b) && a == b) && !(Less(a, b) && Greater(a, b)) && !(a == b && Greater(a, b))
  {
  }

  /** The derived operators agree with each other and with swapping. */
  lemma DerivedOperators(a: Oid, b: Oid)
    ensures LessEq(a, b) <==> !Greater(a, b)
    ensures GreaterEq(a, b) <==> !Less(a, b)
    ensures LessEq(a, b) <==> Less(a, b) || a == b
    ensures Greater(a, b) <==> Less(b, a)
    ensures GreaterEq(a, b) <==> LessEq(b, a)
  {
    CompareAntisymmetric(a, b);
  }

  /** `<=` is transitive. */
  lemma LessEqTransitive(a: Oid, b: Oid, c: Oid)
    requires LessEq(a, b) && LessEq(b, c)
    ensures LessEq(a, c)
  {
    if a != b && b != c {
      LessTransitive(a, b, c);
    }
  }

  /** The empty OID is below every OID and equal only to itself. */
  lemma EmptyIsLeast(a: Oid)
    ensures LessEq([], a)
    ensures Less([], a) <==> a != []
  {
  }

  /** `Compare` is the standard lexicographic order. */
  lemma CompareIsLexicographic(a: Oid, b: Oid)
    ensures Less(a, b) <==> LexLess(a, b)
  {
    if Less(a, b) {
      LessIsLex(a, b);
    }
    if LexLess(a, b) {
      if IsPrefix(a, b) && |a| < |b| {
        ProperPrefixIsLess(a, b);
      } else {
        var k :| 0 <= k < |a| && k < |b| && a[..k] == b[..k] && a[k] < b[k];
        FirstDifferenceDecides(a, b, k);
      }
    }
  }

  lemma {:induction false} LessIsLex(a: Oid, b: Oid)
    requires Less(a, b)
    ensures LexLess(a, b)
  {
    if a == [] {
      assert IsPrefix(a, b) && |a| < |b|;
    } else if a[0] < b[0] {
      assert a[..0] == b[..0];
    } else {
      LessIsLex(a[1..], b[1..]);
      var a', b' := a[1..], b[1..];
      if IsPrefix(a', b') && |a'| < |b'| {
        assert b[..|a|] == [b[0]] + b'[..|a'|] == a;
      } else {
        var k :| 0 <= k < |a'| && k < |b'| && a'[..k] == b'[..k] && a'[k] < b'[k];
        assert a[..k+1] == [a[0]] + a'[..k] == [b[0]] + b'[..k] == b[..k+1];
        assert a[k+1] < b[k+1];
      }
    }
  }

  lemma {:induction false} ProperPrefixIsLess(a: Oid, b: Oid)
    requires IsPrefix(a, b) && |a| < |b|
    ensures Less(a, b)
  {
    if a != [] {
      assert a[0] == b[0];
      assert b[1..][..|a| - 1] == a[1..];
      ProperPrefixIsLess(a[1..], b[1..]);
    }
  }

  lemma {:induction false} FirstDifferenceDecides(a: Oid, b: Oid, k: nat)
    requires k < |a| && k < |b| && a[..k] == b[..k] && a[k] < b[k]
    ensures Less(a, b)
  {
    if k > 0 {
      assert a[0] == a[..k][0] == b[..k][0] == b[0];
      assert a[1..][..k-1] == a[1..k] == b[1..k] == b[1..][..k-1];
      FirstDifferenceDecides(a[1..], b[1..], k - 1);
    }
  }

  // ---------------------------------------------------------------- subtrees

  /** `is_root_of` is reflexive and the empty OID is a root of every OID. */
  lemma RootOfSelfAndEmpty(a: Oid)
    ensures IsRootOf(a, a) && IsRootOf([], a)
  {
  }

  /** `a` is a root of `b` exactly when `b` is `a` followed by more arcs. */
  lemma RootIffExtension(a: Oid, b: Oid)
    ensures IsRootOf(a, b) <==> exists s: Oid :: b == Concat(a, s)
  {
    if IsRootOf(a, b) {
      assert b == Concat(a, b[|a|..]);
    }
  }

  /** A root sorts no later than anything in its subtree. */
  lemma {:induction false} RootIsLessEq(a: Oid, b: Oid)
    requires IsRootOf(a, b)
    ensures LessEq(a, b)
  {
    if a != [] {
      assert a[1..] == b[1..][..|a| - 1];
      RootIsLessEq(a[1..], b[1..]);
    }
  }

  /** `a` is a root of `a + b`, and so `a <= a + b`. */
  lemma ConcatExtends(a: Oid, b: Oid)
    ensures IsRootOf(a, Concat(a, b))
    ensures LessEq(a, Concat(a, b))
    ensures IsRootOf(Concat(a, b), Concat(a, b)) && Concat(a, []) == a && Concat([], b) == b
  {
    RootIsLessEq(a, Concat(a, b));
  }

  /** A common root does not change how two OIDs compare. */
  lemma {:induction false} ConcatPreservesCompare(r: Oid, s: Oid, t: Oid)
    ensures Compare(Concat(r, s), Concat(r, t)) == Compare(s, t)
  {
    if r != [] {
      var rs, rt := Concat(r, s), Concat(r, t);
      assert rs[0] == rt[0] && rs[1..] == Concat(r[1..], s) && rt[1..] == Concat(r[1..], t);
      ConcatPreservesCompare(r[1..], s, t);
    }
  }

  /** `is_root_of` is transitive. */
  lemma RootOfTransitive(a: Oid, b: Oid, c: Oid)
    requires IsRootOf(a, b) && IsRootOf(b, c)
    ensures IsRootOf(a, c)
  {
    assert c[..|a|] == c[..|b|][..|a|];
  }

  /**
   * Anything between `r + s` and `r + t` in the order lies in the subtree of `r`: the
   * reason a WALK collection head never accepts an OID outside its root.
   */
  lemma {:induction false} BetweenExtensionsIsUnderRoot(r: Oid, s: Oid, t: Oid, x: Oid)
    requires LessEq(Concat(r, s), x) && LessEq(x, Concat(r, t))
    ensures IsRootOf(r, x)
  {
    if r != [] {
      var rs, rt := Concat(r, s), Concat(r, t);
      assert rs[0] == r[0] && rt[0] == r[0];
      if x != [] && x[0] == r[0] {
        assert rs[1..] == Concat(r[1..], s) && rt[1..] == Concat(r[1..], t);
        BetweenExtensionsIsUnderRoot(r[1..], s, t, x[1..]);
        assert x == [x[0]] + x[1..];
      }
    }
  }

  /** Anything under `b` sorts below an `a` that follows `b` without lying under it. */
  lemma UnderEarlierUnrelated(b: Oid, a: Oid, o: Oid)
    requires LessEq(b, a) && !IsRootOf(b, a) && IsRootOf(b, o)
    ensures Less(o, a)
  {
    RootOfSelfAndEmpty(b);
    LessIsLex(b, a);
    var k :| 0 <= k < |b| && k < |a| && b[..k] == a[..k] && b[k] < a[k];
    assert o[..k] == o[..|b|][..k] && o[k] == o[..|b|][k];
    FirstDifferenceDecides(o, a, k);
  }

  /** A common root does not change whether one OID is a root of another. */
  lemma ConcatPreservesRoot(r: Oid, t: Oid, u: Oid)
    ensures IsRootOf(Concat(r, t), Concat(r, u)) <==> IsRootOf(t, u)
  {
    var rt, ru := Concat(r, t), Concat(r, u);
    if |t| <= |u| {
      assert ru[..|rt|] == r + u[..|t|];
      if ru[..|rt|] == rt {
        assert u[..|t|] == (r + u[..|t|])[|r|..] == rt[|r|..] == t;
      }
    }
  }

  /** `snmp_oidtree_compare(a, b) == 0` exactly when one OID is a root of the other. */
  lemma TreeCompareZeroIffRelated(a: Oid, b: Oid)
    ensures TreeCompare(a, b) == 0 <==> IsRootOf(a, b) || IsRootOf(b, a)
  {
  }
}
