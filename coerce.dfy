/**
 * The Python package's argument coercions: the text branch of `ObjectIdentity.__init__`,
 * `to_object_identity`, `to_object_identity_range` and `to_version`, with the parts of
 * `str.split`, `int()` and the binding's integer conversion that they rely on.
 */
module Coerce {
  import opened Wrappers
  import opened ObjectIdentities
  import opened Ranges
  import opened Text
  import Requests

  /** The Python exceptions these conversions can raise. */
  datatype PyError =
    | IndexError     // `oid[0]` on the empty string
    | ValueError     // `int()` of a malformed piece, or the range constructor's check
    | TypeError      // an integer the binding cannot convert to a 64-bit unsigned arc
    | KeyError       // an unknown version name

  // ---------------------------------------------------------------- str.split

  /** `s.split(sep)`: the pieces between separators, at least one, none containing `sep`. */
  function Split(s: string, sep: char): (r: seq<string>)
    ensures |r| > 0
    ensures forall i :: 0 <= i < |r| ==> sep !in r[i]
    ensures Join(r, [sep]) == s
  {
    if s == [] then [""]
    else
      var rest := Split(s[1..], sep);
      if s[0] == sep then
        assert Join([""] + rest, [sep]) == [sep] + Join(rest, [sep]);
        [""] + rest
      else
        var head := [s[0]] + rest[0];
        assert Join([head] + rest[1..], [sep]) == [s[0]] + Join(rest, [sep]) by {
          if |rest| > 1 {
            assert rest == [rest[0]] + rest[1..];
          }
        }
        [head] + rest[1..]
  }

  /** A piece without separators is split off whole. */
  lemma {:induction false} SplitPiece(a: string, b: string, sep: char)
    requires sep !in a
    ensures Split(a + [sep] + b, sep) == [a] + Split(b, sep)
    ensures Split(a, sep) == [a]
  {
    if a != [] {
      assert (a + [sep] + b)[1..] == a[1..] + [sep] + b;
      SplitPiece(a[1..], b, sep);
      assert [a[0]] + a[1..] == a;
    } else {
      assert a + [sep] + b == [sep] + b;
    }
  }

  /** Splitting undoes joining, when no piece contains the separator. */
  lemma {:induction false} SplitJoin(items: seq<string>, sep: char)
    requires |items| > 0 && forall i :: 0 <= i < |items| ==> sep !in items[i]
    ensures Split(Join(items, [sep]), sep) == items
  {
    if |items| == 1 {
      SplitPiece(items[0], "", sep);
    } else {
      SplitJoin(items[1..], sep);
      SplitPiece(items[0], Join(items[1..], [sep]), sep);
      assert items[0] + [sep] + Join(items[1..], [sep]) == Join(items, [sep]);
      assert items == [items[0]] + items[1..];
    }
  }

  // ---------------------------------------------------------------- int()

  /** The characters `str.isspace` accepts, which `int()` strips from both ends. */
  predicate IsSpace(c: char) {
    var n := c as int;
    (9 <= n <= 13) || (28 <= n <= 32) || n == 0x85 || n == 0xA0 || n == 0x1680 ||
    (0x2000 <= n <= 0x200A) || n == 0x2028 || n == 0x2029 || n == 0x202F || n == 0x205F ||
    n == 0x3000
  }

  function StripLeft(s: string): (r: string)
    ensures |r| <= |s| && (r != [] ==> !IsSpace(r[0]))
  {
    if s != [] && IsSpace(s[0]) then StripLeft(s[1..]) else s
  }

  function StripRight(s: string): (r: string)
    ensures |r| <= |s| && (r != [] ==> !IsSpace(r[|r| - 1]))
  {
    if s != [] && IsSpace(s[|s| - 1]) then StripRight(s[..|s| - 1]) else s
  }

  /** A base-10 integer literal: digits, with single underscores allowed between digits. */
  predicate IsLiteral(t: string) {
    && |t| > 0 && IsDigit(t[0]) && IsDigit(t[|t| - 1])
    && (forall i :: 0 <= i < |t| ==> IsDigit(t[i]) || t[i] == '_')
    && (forall i :: 0 <= i < |t| - 1 ==> !(t[i] == '_' && t[i + 1] == '_'))
  }

  function RemoveUnderscores(t: string): (r: string)
    requires forall i :: 0 <= i < |t| ==> IsDigit(t[i]) || t[i] == '_'
    ensures AllDigits(r)
    ensures AllDigits(t) ==> r == t
  {
    if t == [] then [] else (if t[0] == '_' then [] else [t[0]]) + RemoveUnderscores(t[1..])
  }

  /**
   * `int(s)` on a string: surrounding whitespace is ignored, one sign is allowed, and the
   * rest must be a literal; anything else raises `ValueError`.
   */
  function PyInt(s: string): (r: Option<int>)
    ensures AllDigits(s) && s != [] ==> r == Some(DigitsValue(s))
    ensures s == [] ==> r.None?
  {
    var t := StripRight(StripLeft(s));
    assert AllDigits(s) && s != [] ==> t == s by {
      if AllDigits(s) && s != [] {
        assert !IsSpace(s[0]) && !IsSpace(s[|s| - 1]);
      }
    }
    if |t| > 0 && (t[0] == '+' || t[0] == '-') then
      var body := t[1..];
      if IsLiteral(body) then
        var v: int := DigitsValue(RemoveUnderscores(body));
        Some(if t[0] == '-' then -v else v)
      else None
    else if IsLiteral(t) then Some(DigitsValue(RemoveUnderscores(t)))
    else None
  }

  /** `int(x)` for each piece in order; the first piece that fails raises `ValueError`. */
  function PyInts(pieces: seq<string>): (r: Result<seq<int>, PyError>)
    ensures r.Ok? ==> |r.value| == |pieces|
    ensures r.Ok? <==> forall i :: 0 <= i < |pieces| ==> PyInt(pieces[i]).Some?
    ensures r.Ok? ==> forall i :: 0 <= i < |pieces| ==> r.value[i] == PyInt(pieces[i]).value
    ensures r.Err? ==> r.error == ValueError
  {
    if pieces == [] then Ok([])
    else if PyInt(pieces[0]).None? then Err(ValueError)
    else
      var rest := PyInts(pieces[1..]);
      if rest.Err? then
        assert !PyInt(pieces[1..][0]).Some? || exists i :: 0 <= i < |pieces[1..]| && !PyInt(pieces[1..][i]).Some?;
        Err(rest.error)
      else Ok([PyInt(pieces[0]).value] + rest.value)
  }

  /**
   * The binding's conversion of a list of Python integers to `std::vector<uint64_t>`:
   * it fails with `TypeError` unless every value fits in 64 unsigned bits.
   */
  function ToArcs(xs: seq<int>): (r: Result<Oid, PyError>)
    ensures r.Ok? <==> forall i :: 0 <= i < |xs| ==> 0 <= xs[i] < 0x1_0000_0000_0000_0000
    ensures r.Ok? ==> r.value == xs
    ensures r.Err? ==> r.error == TypeError
  {
    if xs == [] then Ok([])
    else if !(0 <= xs[0] < 0x1_0000_0000_0000_0000) then Err(TypeError)
    else
      var rest := ToArcs(xs[1..]);
      if rest.Err? then
        assert exists i :: 0 <= i < |xs[1..]| && !(0 <= xs[1..][i] < 0x1_0000_0000_0000_0000);
        Err(TypeError)
      else
        assert [xs[0]] + xs[1..] == xs;
        Ok([xs[0] as Arc] + rest.value)
  }

  /** `[int(x) for x in pieces]` handed to the binding's constructor. */
  function ArcsOf(pieces: seq<string>): (r: Result<Oid, PyError>)
    ensures r.Ok? ==> |r.value| == |pieces|
  {
    var ints := PyInts(pieces);
    if ints.Err? then Err(ints.error) else ToArcs(ints.value)
  }

  // ---------------------------------------------------------------- the conversions

  /**
   * The text branch of `ObjectIdentity.__init__`: one leading "." is dropped and the rest
   * is split on "." with no piece dropped. The empty string fails on `oid[0]`.
   */
  function ObjectIdentityFromText(text: string): (r: Result<Oid, PyError>)
    ensures text == [] <==> r == Err(IndexError)
    ensures r.Ok? ==> |r.value| == |Split(if text[0] == '.' then text[1..] else text, '.')|
  {
    if text == [] then Err(IndexError)
    else ArcsOf(Split(if text[0] == '.' then text[1..] else text, '.'))
  }

  /** The pieces that are not empty. */
  function NonEmpty(pieces: seq<string>): (r: seq<string>)
    ensures |r| <= |pieces|
    ensures forall i :: 0 <= i < |r| ==> r[i] != "" && r[i] in pieces
    ensures (forall i :: 0 <= i < |pieces| ==> pieces[i] != "") ==> r == pieces
  {
    if pieces == [] then []
    else if pieces[0] == "" then NonEmpty(pieces[1..])
    else [pieces[0]] + NonEmpty(pieces[1..])
  }

  /** The argument kinds `to_object_identity` distinguishes. */
  datatype OidArgument =
    | AnObjectIdentity(oid: Oid)     // an instance of the package's `ObjectIdentity`
    | AText(text: string)
    | AnIntSequence(ints: seq<int>)  // a sequence of integers, or the binding's own class
    | ANone

  /**
   * `to_object_identity`: an `ObjectIdentity` is returned as it is; text is split on ".",
   * empty pieces are dropped and the rest converted; anything else is converted as a
   * list, `None` being the empty list.
   */
  function ToObjectIdentity(x: OidArgument): (r: Result<Oid, PyError>)
    ensures x.AnObjectIdentity? ==> r == Ok(x.oid)
    ensures x.ANone? ==> r == Ok([])
    ensures x.AnIntSequence? ==> (r.Ok? <==> forall i :: 0 <= i < |x.ints| ==> 0 <= x.ints[i] < 0x1_0000_0000_0000_0000)
    ensures r.Err? ==> r.error != IndexError && r.error != KeyError
  {
    match x
    case AnObjectIdentity(oid) => Ok(oid)
    case AText(text) => ArcsOf(NonEmpty(Split(text, '.')))
    case AnIntSequence(ints) => ToArcs(ints)
    case ANone => Ok([])
  }

  /** The argument kinds `to_object_identity_range` distinguishes. */
  datatype RangeArgument =
    | ARange(range: Range)
    | APair(first: OidArgument, second: OidArgument)
    | ASingle(x: OidArgument)

  /**
   * `to_object_identity_range`: a range is returned as it is, a pair becomes the checked
   * range of its two converted ends, and anything else the point range of its conversion.
   */
  function ToObjectIdentityRange(x: RangeArgument): (r: Result<Range, PyError>)
    ensures x.ARange? ==> r == Ok(x.range)
    ensures x.APair? && r.Ok? ==>
      Ok(r.value.start) == ToObjectIdentity(x.first) && Ok(r.value.stop) == ToObjectIdentity(x.second)
      && Valid(r.value)
    ensures x.APair? && ToObjectIdentity(x.first).Ok? && ToObjectIdentity(x.second).Ok? ==>
      (r.Ok? <==> Valid(Range(ToObjectIdentity(x.first).value, ToObjectIdentity(x.second).value)))
    ensures x.ASingle? ==> (r.Ok? <==> ToObjectIdentity(x.x).Ok?)
    ensures x.ASingle? && r.Ok? ==> r.value == Point(ToObjectIdentity(x.x).value)
  {
    match x
    case ARange(range) => Ok(range)
    case APair(first, second) =>
      var a := ToObjectIdentity(first);
      if a.Err? then Err(a.error)
      else
        var b := ToObjectIdentity(second);
        if b.Err? then Err(b.error)
        else
          var range := MakeRange(Some(a.value), Some(b.value));
          if range.Err? then Err(ValueError) else Ok(range.value)
    case ASingle(single) =>
      var a := ToObjectIdentity(single);
      if a.Err? then Err(a.error)
      else
        var range := MakeRange(Some(a.value), Some(a.value));
        LessEqReflexive(a.value);
        Ok(range.value)
  }

  lemma LessEqReflexive(a: Oid)
    ensures LessEq(a, a)
  {
  }

  /** The argument kinds `to_version` distinguishes. */
  datatype VersionArgument = AVersion(version: Requests.Version) | AVersionName(name: string)

  /** `to_version`: an enum value is returned as it is, "V1" and "V2C" are looked up. */
  function ToVersion(x: VersionArgument): (r: Result<Requests.Version, PyError>)
    ensures x.AVersion? ==> r == Ok(x.version)
    ensures x.AVersionName? ==> (r.Ok? <==> x.name == "V1" || x.name == "V2C")
    ensures x.AVersionName? && r.Ok? ==> (r.value == Requests.V1 <==> x.name == "V1")
    ensures r.Err? ==> r.error == KeyError
  {
    match x
    case AVersion(v) => Ok(v)
    case AVersionName(name) =>
      if name == "V1" then Ok(Requests.V1)
      else if name == "V2C" then Ok(Requests.V2C)
      else Err(KeyError)
  }

  // ---------------------------------------------------------------- round trips

  /** The numeral of an arc parses back to that arc. */
  lemma ArcTextParses(a: Arc)
    ensures PyInt(ArcText(a)) == Some(a as int)
  {
    DecimalRoundTrip(a);
  }

  lemma {:induction false} ArcsOfArcTexts(o: Oid)
    ensures ArcsOf(Map(o, ArcText)) == Ok(o)
  {
    var pieces := Map(o, ArcText);
    forall i | 0 <= i < |pieces|
      ensures PyInt(pieces[i]) == Some(o[i] as int)
    {
      ArcTextParses(o[i]);
    }
    var ints := PyInts(pieces);
    assert ints.Ok? && ints.value == o;
  }

  /** No arc numeral contains a dot. */
  lemma ArcTextsHaveNoDot(o: Oid)
    ensures forall i :: 0 <= i < |o| ==> '.' !in Map(o, ArcText)[i] && Map(o, ArcText)[i] != ""
  {
    forall i | 0 <= i < |o|
      ensures '.' !in Map(o, ArcText)[i]
    {
      var s := ArcText(o[i]);
      assert forall k :: 0 <= k < |s| ==> s[k] != '.';
    }
  }

  /** The text of an OID is "" or "." followed by its arc numerals joined by ".". */
  lemma OidTextSplits(o: Oid)
    ensures Split(OidText(o), '.') == [""] + Map(o, ArcText)
  {
    if o == [] {
    } else {
      ArcTextsHaveNoDot(o);
      var items := Map(o, ArcText);
      SplitJoin(items, '.');
      SplitPiece("", Join(items, "."), '.');
      assert "" + "." + Join(items, ".") == OidText(o);
    }
  }

  /** `to_object_identity(oid_to_string(o))` has exactly the arcs of `o`, the empty OID included. */
  lemma ToObjectIdentityOfText(o: Oid)
    ensures ToObjectIdentity(AText(OidText(o))) == Ok(o)
  {
    OidTextSplits(o);
    ArcTextsHaveNoDot(o);
    var pieces := [""] + Map(o, ArcText);
    assert NonEmpty(pieces) == NonEmpty(pieces[1..]);
    assert pieces[1..] == Map(o, ArcText);
    ArcsOfArcTexts(o);
  }

  /** The `ObjectIdentity` constructor reads back the text of every non-empty OID too. */
  lemma ObjectIdentityOfText(o: Oid)
    ensures o == [] ==> ObjectIdentityFromText(OidText(o)) == Err(IndexError)
    ensures o != [] ==> ObjectIdentityFromText(OidText(o)) == Ok(o)
  {
    if o != [] {
      ArcTextsHaveNoDot(o);
      var text := OidText(o);
      assert text[0] == '.' && text[1..] == Join(Map(o, ArcText), ".");
      SplitJoin(Map(o, ArcText), '.');
      ArcsOfArcTexts(o);
    }
  }

  /** Formatting is injective: different OIDs never print alike. */
  lemma OidTextInjective(a: Oid, b: Oid)
    requires OidText(a) == OidText(b)
    ensures a == b
  {
    ToObjectIdentityOfText(a);
    ToObjectIdentityOfText(b);
  }

  lemma {:induction false} NonEmptyConcat(x: seq<string>, y: seq<string>)
    ensures NonEmpty(x + y) == NonEmpty(x) + NonEmpty(y)
  {
    if x != [] {
      var xy := x + y;
      assert xy[0] == x[0] && xy[1..] == x[1..] + y;
      NonEmptyConcat(x[1..], y);
      if x[0] == "" {
        assert NonEmpty(xy) == NonEmpty(xy[1..]);
        assert NonEmpty(x) == NonEmpty(x[1..]);
      } else {
        assert NonEmpty(xy) == [x[0]] + NonEmpty(xy[1..]);
        assert NonEmpty(x) == [x[0]] + NonEmpty(x[1..]);
      }
    } else {
      assert x + y == y;
    }
  }

  /** `to_object_identity` ignores a leading dot, and reads "" as the empty OID. */
  lemma LeadingDotIgnored(t: string)
    ensures ToObjectIdentity(AText("." + t)) == ToObjectIdentity(AText(t))
    ensures ToObjectIdentity(AText("")) == Ok([])
  {
    SplitPiece("", t, '.');
    assert "" + "." + t == "." + t;
    NonEmptyConcat([""], Split(t, '.'));
  }

  /**
   * An empty piece between two dots is dropped by `to_object_identity` and refused by
   * the `ObjectIdentity` constructor: "1..2" reads as "1.2" in one and fails in the other.
   */
  lemma DoubleDot(a: string, b: string)
    requires '.' !in a
    ensures ToObjectIdentity(AText(a + ".." + b)) == ToObjectIdentity(AText(a + "." + b))
    ensures ObjectIdentityFromText(a + ".." + b) == Err(ValueError)
  {
    DoubleDotPieces(a, b);
    NonEmptyConcat([a], [""] + Split(b, '.'));
    NonEmptyConcat([""], Split(b, '.'));
    NonEmptyConcat([a], Split(b, '.'));
    var text := a + ".." + b;
    if a == [] {
      assert text[0] == '.' && text[1..] == "." + b;
      assert Split("." + b, '.')[0] == "";
    } else {
      assert text[0] == a[0] && a[0] != '.';
    }
  }

  /** How the two texts split at dots: the doubled dot leaves an empty piece after `a`. */
  lemma DoubleDotPieces(a: string, b: string)
    requires '.' !in a
    ensures Split(a + ".." + b, '.') == [a] + ([""] + Split(b, '.'))
    ensures Split(a + "." + b, '.') == [a] + Split(b, '.')
  {
    var rest := "." + b;
    assert a + ".." + b == a + ['.'] + rest;
    SplitPiece(a, rest, '.');
    assert rest == [] + ['.'] + b;
    SplitPiece([], b, '.');
    assert a + "." + b == a + ['.'] + b;
    SplitPiece(a, b, '.');
  }
}
