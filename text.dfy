/**
 * Text formatting helpers: decimal numerals, `join` in its pointer and iterator
 * overloads, `oid_to_string` (dotted decimal with a leading dot) and the
 * `attr_to_string` family that renders values in the style of Python's attrs `repr`.
 */
module Text {
  import opened Wrappers
  import opened ObjectIdentities

  predicate IsDigit(c: char) { '0' <= c <= '9' }

  predicate AllDigits(s: string) { forall i :: 0 <= i < |s| ==> IsDigit(s[i]) }

  function DigitChar(d: nat): (c: char)
    requires d < 10
    ensures IsDigit(c)
  {
    (48 + d) as char
  }

  function DigitValue(c: char): (d: nat)
    requires IsDigit(c)
    ensures d < 10
  {
    c as int - 48
  }

  /** How `std::ostringstream` and `std::to_string` write an unsigned value: base 10, no leading zero. */
  function Decimal(n: nat): (s: string)
    ensures |s| > 0 && AllDigits(s)
    ensures s[0] == '0' ==> s == "0"
  {
    if n < 10 then [DigitChar(n)] else Decimal(n / 10) + [DigitChar(n % 10)]
  }

  /** The value of a string of decimal digits, leading zeros allowed. */
  function DigitsValue(s: string): nat
    requires AllDigits(s)
  {
    if s == [] then 0 else 10 * DigitsValue(s[..|s| - 1]) + DigitValue(s[|s| - 1])
  }

  /** Reading a numeral back gives the number written. */
  lemma {:induction false} DecimalRoundTrip(n: nat)
    ensures DigitsValue(Decimal(n)) == n
  {
    if n >= 10 {
      DecimalRoundTrip(n / 10);
      var s := Decimal(n);
      assert s[..|s| - 1] == Decimal(n / 10);
    }
  }

  /** `std::to_string` on a signed integral value. */
  function SignedDecimal(n: int): (s: string)
    ensures |s| > 0
    ensures n >= 0 <==> s[0] != '-'
  {
    if n < 0 then "-" + Decimal(-n) else Decimal(n)
  }

  /** Number of occurrences of `c` in `s`. */
  function Count(c: char, s: string): nat {
    if s == [] then 0 else (if s[0] == c then 1 else 0) + Count(c, s[1..])
  }

  lemma {:induction false} CountConcat(c: char, a: string, b: string)
    ensures Count(c, a + b) == Count(c, a) + Count(c, b)
  {
    if a == [] {
      assert a + b == b;
    } else {
      assert (a + b)[0] == a[0] && (a + b)[1..] == a[1..] + b;
      CountConcat(c, a[1..], b);
    }
  }

  lemma {:induction false} CountDigits(c: char, s: string)
    requires AllDigits(s) && !IsDigit(c)
    ensures Count(c, s) == 0
  {
    if s != [] {
      CountDigits(c, s[1..]);
    }
  }

  // ---------------------------------------------------------------- join

  /** Each element written with `show`, in order. */
  function Map<T>(xs: seq<T>, show: T -> string): (r: seq<string>)
    ensures |r| == |xs| && forall i :: 0 <= i < |xs| ==> r[i] == show(xs[i])
  {
    seq(|xs|, i requires 0 <= i < |xs| => show(xs[i]))
  }

  /** The elements with `sep` between each two neighbours. */
  function Join(items: seq<string>, sep: string): string {
    if |items| == 0 then ""
    else if |items| == 1 then items[0]
    else items[0] + sep + Join(items[1..], sep)
  }

  /** Appending one element appends the separator and that element. */
  lemma {:induction false} JoinSnoc(items: seq<string>, x: string, sep: string)
    requires |items| > 0
    ensures Join(items + [x], sep) == Join(items, sep) + sep + x
  {
    if |items| > 1 {
      assert (items + [x])[1..] == items[1..] + [x];
      JoinSnoc(items[1..], x, sep);
    }
  }

  /** Zero elements give "", one element gives itself. */
  lemma JoinSmall(x: string, sep: string)
    ensures Join([], sep) == "" && Join([x], sep) == x
  {
  }

  function TotalLength(items: seq<string>): nat {
    if items == [] then 0 else |items[0]| + TotalLength(items[1..])
  }

  function TotalCount(c: char, items: seq<string>): nat {
    if items == [] then 0 else Count(c, items[0]) + TotalCount(c, items[1..])
  }

  /** `n` elements are joined with exactly `n - 1` separators: the length adds up. */
  lemma {:induction false} JoinLength(items: seq<string>, sep: string)
    requires |items| > 0
    ensures |Join(items, sep)| == TotalLength(items) + (|items| - 1) * |sep|
  {
    if |items| > 1 {
      JoinLength(items[1..], sep);
    }
  }

  /** A one-character separator occurs `n - 1` times more than in the elements themselves. */
  lemma {:induction false} JoinSeparatorCount(items: seq<string>, c: char)
    requires |items| > 0
    ensures Count(c, Join(items, [c])) == TotalCount(c, items) + |items| - 1
  {
    if |items| > 1 {
      JoinSeparatorCount(items[1..], c);
      CountConcat(c, items[0] + [c], Join(items[1..], [c]));
      CountConcat(c, items[0], [c]);
    }
  }

  /** The pointer overload: `arr[0]`, then `sep` and `arr[i]` for each further `i < size`. */
  method JoinArray<T>(arr: array<T>, size: nat, sep: string, show: T -> string) returns (s: string)
    requires size <= arr.Length
    ensures s == Join(Map(arr[..size], show), sep)
  {
    s := "";
    if size != 0 {
      s := show(arr[0]);
    }
    var i := 1;
    while i < size
      invariant 1 <= i && (size > 0 ==> i <= size)
      invariant size > 0 ==> s == Join(Map(arr[..i], show), sep)
      invariant size == 0 ==> s == ""
    {
      assert Map(arr[..i + 1], show) == Map(arr[..i], show) + [show(arr[i])];
      JoinSnoc(Map(arr[..i], show), show(arr[i]), sep);
      s := s + sep + show(arr[i]);
      i := i + 1;
    }
    if size == 0 {
      assert |Map(arr[..size], show)| == 0;
    }
  }

  /** The iterator overload over `items[begin..end]`, advancing `begin` as it goes. */
  method JoinRange<T>(items: seq<T>, begin: nat, end: nat, sep: string, show: T -> string)
    returns (s: string)
    requires begin <= end <= |items|
    ensures s == Join(Map(items[begin..end], show), sep)
  {
    var it := begin;
    s := "";
    if it != end {
      s := show(items[it]);
      it := it + 1;
    }
    while it != end
      invariant begin <= it <= end
      invariant it > begin ==> s == Join(Map(items[begin..it], show), sep)
      invariant it == begin ==> it == end && s == ""
    {
      assert Map(items[begin..it + 1], show) == Map(items[begin..it], show) + [show(items[it])];
      JoinSnoc(Map(items[begin..it], show), show(items[it]), sep);
      s := s + sep + show(items[it]);
      it := it + 1;
    }
  }

  // ---------------------------------------------------------------- oid_to_string

  function ArcText(a: Arc): string { Decimal(a) }

  /** Dotted decimal: "" for the empty OID, else "." and the arcs joined by ".". */
  function OidText(o: Oid): string {
    if o == [] then "" else "." + Join(Map(o, ArcText), ".")
  }

  /** `oid_to_string(const uint64_t *, size_t)`. */
  method OidToStringArray(arr: array<Arc>, size: nat) returns (s: string)
    requires size <= arr.Length
    ensures s == OidText(arr[..size])
  {
    if size == 0 {
      return "";
    }
    var joined := JoinArray(arr, size, ".", ArcText);
    s := "." + joined;
  }

  /** `oid_to_string(const std::vector<uint64_t> &)`. */
  method OidToString(o: Oid) returns (s: string)
    ensures s == OidText(o)
  {
    if o == [] {
      return "";
    }
    var joined := JoinRange(o, 0, |o|, ".", ArcText);
    assert o[0..|o|] == o;
    s := "." + joined;
  }

  /** `oid_to_string(const std::optional<std::vector<uint64_t>> &)`. */
  method OptionalOidToString(o: Option<Oid>) returns (s: string)
    ensures o.None? ==> s == "None"
    ensures o.Some? ==> s == OidText(o.value)
  {
    if o.Some? {
      s := OidToString(o.value);
    } else {
      s := "None";
    }
  }

  /** An OID of `n` arcs is written with exactly `n` dots, and with a leading dot when `n > 0`. */
  lemma OidTextDots(o: Oid)
    ensures Count('.', OidText(o)) == |o|
    ensures o == [] <==> OidText(o) == ""
    ensures o != [] ==> OidText(o)[0] == '.'
  {
    if o != [] {
      var items := Map(o, ArcText);
      JoinSeparatorCount(items, '.');
      NoDotsInArcs(items, o);
      CountConcat('.', ".", Join(items, "."));
    }
  }

  lemma {:induction false} NoDotsInArcs(items: seq<string>, o: Oid)
    requires items == Map(o, ArcText)
    ensures TotalCount('.', items) == 0
  {
    if items != [] {
      CountDigits('.', items[0]);
      NoDotsInArcs(items[1..], o[1..]);
    }
  }

  /** The text of an OID is never the "None" that stands for an absent one. */
  lemma OidTextIsNotNone(o: Oid)
    ensures OidText(o) != "None"
  {
    OidTextDots(o);
    assert "None"[0] == 'N';
  }

  // ---------------------------------------------------------------- attr_to_string

  /** The kinds of value `attr_to_string` has an overload for. */
  datatype Attr =
    | AString(s: string)
    | AIntegral(n: int)
    | ARepr(text: string)
    | AOptional(o: Option<Attr>)
    | AIterable(items: seq<Attr>)
    | APointer(pointee: Option<Attr>)

  /** `attr_to_string`, one case per overload. */
  function AttrToString(a: Attr): string
    decreases a
  {
    match a
    case AString(s) => "'" + s + "'"
    case AIntegral(n) => SignedDecimal(n)
    case ARepr(text) => text
    case AOptional(o) => if o.Some? then AttrToString(o.value) else "None"
    case AIterable(items) =>
      "[" + Join(seq(|items|, i requires 0 <= i < |items| => AttrToString(items[i])), ", ") + "]"
    case APointer(p) => if p.Some? then AttrToString(p.value) else "None"
  }

  /** A string is written between single quotes, unchanged. */
  lemma AttrStringQuoted(s: string)
    ensures var t := AttrToString(AString(s));
      |t| == |s| + 2 && t[0] == '\'' && t[|t| - 1] == '\'' && t[1..|t| - 1] == s
  {
  }

  /** Absent optionals and null pointers are "None"; present ones are their content. */
  lemma AttrNoneForms(x: Attr)
    ensures AttrToString(AOptional(None)) == "None" && AttrToString(APointer(None)) == "None"
    ensures AttrToString(AOptional(Some(x))) == AttrToString(x)
    ensures AttrToString(APointer(Some(x))) == AttrToString(x)
  {
  }

  /** An iterable is bracketed, its elements joined by ", "; an empty one is "[]". */
  lemma AttrIterableForm(items: seq<Attr>)
    ensures var t := AttrToString(AIterable(items));
      |t| >= 2 && t[0] == '[' && t[|t| - 1] == ']'
    ensures items == [] ==> AttrToString(AIterable(items)) == "[]"
    ensures |items| == 1 ==> AttrToString(AIterable(items)) == "[" + AttrToString(items[0]) + "]"
  {
  }
}
