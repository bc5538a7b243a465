# snmp-stream core, modelled in Dafny

snmp-stream is an SNMP client engine. A request names a host, a community (a community string
and version v1 or v2c), one or more root OIDs and, optionally, OID ranges under those roots. It
is either a GET or a WALK. A `SessionManager` queues requests and runs as many asynchronous
sessions at once as the request configurations allow. Each `Session` keeps one
`CollectionHead` per root OID and range. Its `send` fills a request PDU (GET, GETNEXT or
GETBULK) from the heads, rotating the list, and the library's callback `process_pdu` matches
each response variable binding to its head. Every accepted binding is appended to one binary
results buffer shared by the session's heads. A Kaitai Struct reader (`IpForwardMib`) parses
such a buffer back.

This project models:

- the object identity (OID) and its comparisons, and OID ranges with their order, in
  `ObjectIdentities` (oid.dfy) and `Ranges` (ranges.dfy);
- the configuration and its merge operators, in `Configs` (config.dfy);
- request validation and range optimisation, in `Requests` (requests.dfy);
- OID text formatting and the `attrs`-style strings, in `Text` (text.dfy);
- the Python-side coercions of OIDs, ranges and versions, in `Coerce` (coerce.dfy);
- the word codec and `SYS_ALIGN`, in `Bytes` (bytes.dfy), and UTF-8, in `Utf8` (utf8.dfy);
- the results writer, in `Layout` (layout.dfy): the buffer is a `ResultBuffer` class, and
  each record and header section is a function;
- collection heads, in `Heads` (heads.dfy), as a class over a shared buffer;
- the session state machine, in `Steps` (steps.dfy) as functions on a value `State`, and in
  `Sessions` (sessions.dfy) as a `Session` class whose methods are proved to compute those
  functions;
- the session manager's admission loop, in `Manager` (manager.dfy);
- the Kaitai reader, in `Snapshot` (snapshot.dfy): every reader is a function, a `Stream`
  class and its reading methods are proved to compute those functions, and an encoder for the
  same format makes the round-trip lemmas possible.

Several things the program leaves to its environment become parameters:

- the native byte order (`little`);
- the clock (`timestamp`);
- what the SNMP library reports: whether a session opened, whether a PDU could be created or
  sent, and the callback operation with its PDU.

The words of the buffer are 8 bytes wide (`size_t`, `oid_t`, `time_t`, `val_len`), and an arc
is an unsigned 64-bit value.

The writer and the reader disagree on the first bytes of the buffer. `Session::Session` writes
the byte order at offset 0 and the two sizes at offsets 1 and 2 (session.cpp:425-433). The
reader takes offset 0 as `sys_size` and offset 2 as the byte order (ip_forward_mib.py:31-34).
It therefore sees 8 where it expects 0 or 1, and rejects every buffer the writer produces.
`Snapshot.WriterHeaderUndecided` states this. The round trip is proved for the reader's own
layout.

The length word of each root OID disagrees too. The writer stores the number of arcs
(session.cpp:467-468). The reader reads `len // suboid_size` bytes of arcs
(ip_forward_mib.py:145). `Snapshot.EncodeOid` therefore writes the arc bytes times
`suboid_size`, that is `|arcs| * suboid_size * suboid_size`. This is the reader's own convention,
and the writer never produces it.

## Model

Some members are definitions without a contract of their own: `Heads.HeadRangeAsWritten`,
`Configs.Merge`, `Text.AttrToString`, `Steps.Matches`, `Steps.Room` and `Snapshot.SnapshotOf`,
among others. They have no row. The rows of the lemmas and methods about them state what
they do.

| member | source | states |
|---|---|---|
| ObjectIdentities.Compare | include/types.hpp:125-173 | `snmp_oid_compare` yields -1, 0 or 1, and 0 exactly when the OIDs are equal |
| ObjectIdentities.CompareAntisymmetric | include/types.hpp:130-173 | swapping the operands negates the comparison |
| ObjectIdentities.LessTransitive | include/types.hpp:130-135 | `<` on OIDs is transitive |
| ObjectIdentities.Trichotomy | include/types.hpp:130-173 | exactly one of `<`, `==`, `>` holds |
| ObjectIdentities.DerivedOperators | include/types.hpp:142-173 | `<=`, `>`, `>=` agree with `<` and equality the way a total order's operators do |
| ObjectIdentities.LessEqTransitive | include/types.hpp:142-148 | `<=` on OIDs is transitive |
| ObjectIdentities.EmptyIsLeast | include/types.hpp:54 | the empty OID is below every other OID |
| ObjectIdentities.CompareIsLexicographic | include/types.hpp:125-135 | `<` is exactly the reference lexicographic order: proper prefix, or smaller arc at the first difference |
| ObjectIdentities.LessIsLex | include/types.hpp:125-135 | `<` implies the reference lexicographic order |
| ObjectIdentities.ProperPrefixIsLess | include/types.hpp:125-135 | a proper prefix compares below the OID it prefixes |
| ObjectIdentities.FirstDifferenceDecides | include/types.hpp:125-135 | the first differing arc decides `<` |
| ObjectIdentities.RootOfSelfAndEmpty | include/types.hpp:92-108 | every OID is a root of itself, and the empty OID is a root of every OID |
| ObjectIdentities.RootIffExtension | include/types.hpp:92-108 | `is_root_of(a, b)` holds exactly when `b` is `a` followed by some arcs |
| ObjectIdentities.RootIsLessEq | include/types.hpp:92-108 | a root is `<=` each OID it is a root of |
| ObjectIdentities.RootOfTransitive | include/types.hpp:92-108 | the root relation is transitive |
| ObjectIdentities.Concat | include/types.hpp:110-123 | `operator+` gives the left arcs, then the right arcs |
| ObjectIdentities.ConcatExtends | include/types.hpp:110-123 | a concatenation extends its left operand, and the empty OID is its unit |
| ObjectIdentities.ConcatPreservesCompare | include/types.hpp:110-135 | prefixing both operands with the same root leaves their comparison unchanged |
| ObjectIdentities.ConcatPreservesRoot | include/types.hpp:92-123 | prefixing both operands with the same root leaves `is_root_of` between them unchanged |
| ObjectIdentities.UnderEarlierUnrelated | include/types.hpp:92-148 | an OID under `b`, where `b <= a` and `b` is not a root of `a`, is below `a` |
| ObjectIdentities.BetweenExtensionsIsUnderRoot | snmp_stream/_snmp_stream/session.cpp:147-153 | an OID between `root+start` and `root+stop` lies under `root` |
| ObjectIdentities.TreeCompareZeroIffRelated | snmp_stream/_snmp_stream/types.cpp:97-98 | `snmp_oidtree_compare` is 0 exactly when one OID is a root of the other |
| Ranges.Unbounded | include/types.hpp:194-201 | the default range has empty start and stop and is valid |
| Ranges.Point | include/types.hpp:203-208 | the point range has the OID as both start and stop and is valid |
| Ranges.MakeRange | snmp_stream/_snmp_stream/types.cpp:21-31 | an absent bound becomes the empty OID; the constructor succeeds exactly when the range is valid, and otherwise reports the two bounds |
| Ranges.LtMatchesTable | snmp_stream/_snmp_stream/types.cpp:44-72 | the range `<` agrees with the documented truth table, row for row (types.hpp:239-288) |
| Ranges.EqIsEquality | include/types.hpp:231-237 | range `==` is equality of start and stop |
| Ranges.LtIsKeyOrder | include/types.hpp:239-242 | range `<` orders by start; for the same start the larger range comes first, and an empty stop comes before every other stop |
| Ranges.LtIrreflexive | snmp_stream/_snmp_stream/types.cpp:44-72 | no range is `<` itself |
| Ranges.LtAsymmetric | snmp_stream/_snmp_stream/types.cpp:44-72 | `a < b` excludes `b < a` |
| Ranges.LtTransitive | snmp_stream/_snmp_stream/types.cpp:44-72 | range `<` is transitive, so `std::sort` gets a strict order |
| Ranges.LtTotal | snmp_stream/_snmp_stream/types.cpp:44-72 | two different ranges are always ordered one way or the other |
| Ranges.DerivedRangeOperators | include/types.hpp:294-345 | `<=`, `>`, `>=` are `== or <`, the swapped `<`, and `== or >` |
| Ranges.LtEqTransitive | include/types.hpp:294-306 | range `<=` is transitive |
| Ranges.UnboundedIsLeast | snmp_stream/_snmp_stream/types.cpp:48-51 | the unbounded range is below every other range |
| Configs.Empty | include/types.hpp:426-451 | the all-absent configuration is valid |
| Configs.MakeConfigAsWritten | include/types.hpp:437-450 | the constructor as written: it rejects negative retries, negative timeout and zero sessions, and never the variable-binding limit |
| Configs.AsWrittenAdmitsZeroVarBinds | include/types.hpp:443-447 | as written, a limit of 0 variable bindings per PDU is accepted, although it is not valid |
| Configs.MakeConfig | include/types.hpp:420-450 | the corrected constructor: it succeeds exactly for valid configurations, each error matching its check, with 0 bindings per PDU rejected as the message says |
| Configs.ConstructorsAgreeOtherwise | include/types.hpp:437-450 | both constructors agree whenever the binding limit is not 0 |
| Configs.MergeTakesRightWhenPresent | include/types.hpp:476-494 | `lhs << rhs` takes each field from `rhs` when present, else from `lhs` |
| Configs.MergeUnitAndIdempotent | include/types.hpp:476-494 | the empty configuration is a unit of `<<` on both sides, and `c << c == c` |
| Configs.MergeAssociative | include/types.hpp:476-494 | `<<` is associative |
| Configs.MergeValid | include/types.hpp:476-494 | merging two valid configurations gives a valid one, which the constructor accepts |
| Configs.MergeKeepsComplete | include/types.hpp:515-521 | merging anything onto a complete configuration keeps it complete |
| Configs.OptionalMerges | include/types.hpp:502-537 | the three optional forms of `<<` reduce to the plain merge or to their present operand |
| Requests.TestAmbiguousRootOids | snmp_stream/_snmp_stream/types.cpp:93-104 | no pair is found exactly when no OID is a tree relative of a later one; a found pair is the first in loop order |
| Requests.RepeatedOidIsAmbiguous | snmp_stream/_snmp_stream/types.cpp:93-104 | a repeated root OID makes a request ambiguous |
| Requests.UnambiguousIgnoresOrder | snmp_stream/_snmp_stream/types.cpp:93-104 | in an unambiguous list no OID is related to any other, whichever comes first |
| Requests.SortedStarts | snmp_stream/_snmp_stream/types.cpp:114 | in a sorted list the starts are in order |
| Requests.InsertPosition | snmp_stream/_snmp_stream/types.cpp:114 | the insertion point comes after every element not greater than the new one and before a greater one |
| Requests.InsertAtSorted | snmp_stream/_snmp_stream/types.cpp:114 | putting the element at that point keeps a sorted list sorted |
| Requests.InsertSorted | snmp_stream/_snmp_stream/types.cpp:114 | inserting into a sorted list keeps it sorted |
| Requests.InsertPermutes | snmp_stream/_snmp_stream/types.cpp:114 | inserting adds exactly the element |
| Requests.InsertGreatest | snmp_stream/_snmp_stream/types.cpp:114 | an element greater than all others is inserted at the end |
| Requests.SortSorted | snmp_stream/_snmp_stream/types.cpp:114 | `std::sort` gives a sorted list |
| Requests.SortPermutes | snmp_stream/_snmp_stream/types.cpp:114 | `std::sort` gives a permutation of its input |
| Requests.SortFixesStrictlySorted | snmp_stream/_snmp_stream/types.cpp:114 | sorting a strictly sorted list leaves it unchanged |
| Requests.Unique | snmp_stream/_snmp_stream/types.cpp:117-118 | `std::unique` keeps the same elements and the first one, leaves no equal neighbours, and turns sorted into strictly sorted |
| Requests.UniqueFixesStrictlySorted | snmp_stream/_snmp_stream/types.cpp:117-118 | `std::unique` leaves a strictly sorted list unchanged |
| Requests.SortUnique | snmp_stream/_snmp_stream/types.cpp:114-118 | after sorting and `std::unique`, a non-empty list is non-empty, strictly sorted, has the same members, and has its starts in order |
| Requests.FirstNonPoint | snmp_stream/_snmp_stream/types.cpp:124-129 | the GET loop finds nothing exactly when every range is a point range; what it finds is a member that is not one |
| Requests.FirstNonPointLeast | snmp_stream/_snmp_stream/types.cpp:124-129 | on a sorted list, the range the GET loop throws on is the least range that is not a point range |
| Requests.WalkOptimizedStartsIncrease | snmp_stream/_snmp_stream/types.cpp:132-159 | in an optimised walk list the starts strictly increase |
| Requests.WalkOptimizedStrictlySorted | snmp_stream/_snmp_stream/types.cpp:132-159 | an optimised walk list is strictly sorted |
| Requests.LessAntisymmetric | include/types.hpp:130-148 | `a < b` excludes `b <= a` |
| Requests.UnboundedComesFirst | snmp_stream/_snmp_stream/types.cpp:138-141 | in a strictly sorted list, the unbounded range can only come first |
| Requests.LtStarts | include/types.hpp:239-242 | a range ranked before another starts no later; with the same start and a stop, the later range has a smaller stop |
| Requests.StopCoversDown | snmp_stream/_snmp_stream/session.cpp:149-154 | when stop `a` covers stop `b`, every OID at or below `b` or under `b` is at or below `a` or under `a` |
| Requests.StopCoversTotal | snmp_stream/_snmp_stream/session.cpp:149-154 | of two stops, one always covers the other |
| Requests.MergeAsWritten | snmp_stream/_snmp_stream/types.cpp:133-159 | the written loop yields a non-empty list for a non-empty input; what it keeps is stated by the lemmas below |
| Requests.MergeAsWrittenLosesMasked | snmp_stream/_snmp_stream/types.cpp:147-154 | as written, `[(.1, .5.1), (.2, .5)]` becomes `[(.1, .5.1)]`, which no longer admits `.5.2` under the walk test |
| Requests.MergeKeepsMasked | snmp_stream/_snmp_stream/types.cpp:147-154 | the corrected merge of `[(.1, .5.1), (.2, .5)]` is `[(.1, .5)]`, which still admits `.5.2` |
| Requests.MergeAsWrittenSkipsSameStart | snmp_stream/_snmp_stream/types.cpp:143-145 | as written, `(.1, .5)` after `(.1, .5.1)` is skipped, and `.5.2` is lost |
| Requests.MergeJoinsSameStart | snmp_stream/_snmp_stream/types.cpp:143-145 | the corrected merge joins `(.1, .5)` into `(.1, .5.1)` as `(.1, .5)`, keeping `.5.2` |
| Requests.IntervalJoinAsWritten | snmp_stream/_snmp_stream/types.cpp:147-154 | read as intervals, the range the written loop merges into holds exactly what the two ranges held |
| Requests.StepAsWrittenCovers | snmp_stream/_snmp_stream/types.cpp:139-158 | read as intervals, one pass of the written loop loses nothing and adds nothing |
| Requests.MergeAsWrittenCovers | snmp_stream/_snmp_stream/types.cpp:133-159 | read as intervals, the written loop holds exactly what the kept and the remaining ranges held |
| Requests.MergeAsWrittenKeepsIntervals | snmp_stream/_snmp_stream/types.cpp:133-159 | on sorted distinct ranges, read as intervals with an empty stop open above, the written loop holds exactly what its input held |
| Requests.JoinValid | snmp_stream/_snmp_stream/types.cpp:147-154 | the merged range is valid, so the range constructor used there cannot throw |
| Requests.MaskJoin | snmp_stream/_snmp_stream/types.cpp:147-154 | the corrected merged range admits under the walk test exactly what the two ranges admitted |
| Requests.StepMasks | snmp_stream/_snmp_stream/types.cpp:139-158 | one corrected pass admits under the walk test exactly what the kept ranges and the new one admitted |
| Requests.OpenLastMasksAll | snmp_stream/_snmp_stream/types.cpp:138-141 | a kept range without a stop admits every OID, so the loop may stop there |
| Requests.MergeMasks | snmp_stream/_snmp_stream/types.cpp:133-159 | the corrected loop admits under the walk test exactly what the kept and the remaining ranges admitted |
| Requests.MergeShape | snmp_stream/_snmp_stream/types.cpp:133-159 | the corrected loop gives valid ranges, each stop strictly below the next start; it keeps the first start, and a first range without a stop is kept as it is |
| Requests.MergeFixes | snmp_stream/_snmp_stream/types.cpp:133-159 | a list already in the optimised walk form passes through the loop unchanged |
| Requests.MergeFixesWalkOptimized | snmp_stream/_snmp_stream/types.cpp:133-159 | the corrected loop leaves an optimised walk list unchanged |
| Requests.Merge | snmp_stream/_snmp_stream/types.cpp:133-159 | the corrected loop yields a non-empty list for a non-empty input |
| Requests.Merged | snmp_stream/_snmp_stream/types.cpp:160-163 | the walk case never fails, and a result it keeps is non-empty |
| Requests.Optimized | snmp_stream/_snmp_stream/types.cpp:106-167 | `optimize_ranges` never fails for a WALK, fails only on a non-point range, and a list it returns is non-empty |
| Requests.OptimizedGet | snmp_stream/_snmp_stream/types.cpp:122-131 | a GET fails exactly when some range is not a point range, naming the least such range; otherwise it returns the sorted, distinct ranges, with the same members |
| Requests.OptimizedWalk | snmp_stream/_snmp_stream/types.cpp:132-164 | a WALK never fails; it gives none when the unbounded range is present; otherwise the result is in the optimised form and starts at a given start |
| Requests.MergedShape | snmp_stream/_snmp_stream/types.cpp:132-164 | merging sorted valid ranges gives the optimised form, beginning at the first start, and none when the first range is unbounded |
| Requests.OptimizedWalkMasks | snmp_stream/_snmp_stream/types.cpp:132-164 | a WALK result admits under the walk test exactly what the given ranges admitted; none means the given ranges admitted every OID |
| Requests.OptimizedFixes | snmp_stream/_snmp_stream/types.cpp:106-167 | a list already in the optimised form is returned unchanged |
| Requests.OptimizedForms | snmp_stream/_snmp_stream/types.cpp:106-167 | every list `optimize_ranges` returns is in the optimised form for its request type |
| Requests.OptimizedIdempotent | snmp_stream/_snmp_stream/types.cpp:106-167 | optimising the result again gives the same result |
| Requests.MergeOverlapping | snmp_stream/_snmp_stream/types.cpp:133-159 | the corrected WALK loop computes `Merge([], unique)` |
| Requests.OptimizeRanges | snmp_stream/_snmp_stream/types.cpp:106-167 | the method computes `Optimized`, with the GET loop throwing on the first non-point range |
| Requests.MakeRequest | snmp_stream/_snmp_stream/types.cpp:169-189 | the constructor succeeds exactly when the ranges optimise, the OIDs are non-empty and unambiguous; it stores `Optimized(kind, ranges)`; the checks run in source order, and each error carries its data |
| Text.DigitChar | include/utils.hpp:24-30 | a digit value becomes a decimal digit character |
| Text.DigitValue | include/utils.hpp:24-30 | a decimal digit character has a value below 10 |
| Text.Decimal | include/utils.hpp:24-30 | `operator<<` on an unsigned integer writes non-empty decimal digits, with no leading zero |
| Text.DecimalRoundTrip | include/utils.hpp:24-30 | reading the digits back gives the number |
| Text.SignedDecimal | include/utils.hpp:105-109 | `std::to_string` of an integer starts with `-` exactly when the integer is negative |
| Text.CountDigits | include/utils.hpp:24-30 | a non-digit character does not occur in decimal digits |
| Text.Map | include/utils.hpp:165-167 | `std::transform` applies the conversion element by element |
| Text.JoinSnoc | include/utils.hpp:40-53 | joining one more item appends the separator and the item |
| Text.JoinSmall | include/utils.hpp:40-53 | joining no items gives "" and joining one gives that item |
| Text.JoinLength | include/utils.hpp:40-53 | a join's length is the items' lengths plus one separator between each pair |
| Text.JoinSeparatorCount | include/utils.hpp:40-53 | a one-character separator occurs once per gap beyond its occurrences in the items |
| Text.JoinArray | include/utils.hpp:19-32 | the array `join` loop yields the items' texts joined by the separator |
| Text.JoinRange | include/utils.hpp:40-53 | the iterator `join` loop yields the items' texts joined by the separator |
| Text.OidToStringArray | snmp_stream/_snmp_stream/utils.cpp:7-12 | `oid_to_string` of an array is "" when empty, else "." and the arcs joined by "." |
| Text.OidToString | snmp_stream/_snmp_stream/utils.cpp:14-19 | `oid_to_string` of a vector is the same dotted text |
| Text.OptionalOidToString | include/utils.hpp:79-87 | an absent OID formats as "None", a present one as its dotted text |
| Text.OidTextDots | snmp_stream/_snmp_stream/utils.cpp:7-19 | the text has one dot per arc, is "" exactly for the empty OID, and otherwise starts with "." |
| Text.NoDotsInArcs | snmp_stream/_snmp_stream/utils.cpp:7-19 | no arc's text contains a dot |
| Text.OidTextIsNotNone | include/utils.hpp:79-87 | no OID formats as "None", so the optional form is unambiguous |
| Text.AttrStringQuoted | include/utils.hpp:94-98 | a string attribute is the string between single quotes |
| Text.AttrNoneForms | include/utils.hpp:139-194 | an absent optional or a null pointer is "None"; a present one shows its value |
| Text.AttrIterableForm | include/utils.hpp:161-169 | a sequence is shown bracketed, "[]" when empty and "[x]" for one element |
| Coerce.Split | snmp_stream/__init__.py:26 | `str.split(sep)` gives non-empty pieces without the separator, and joining them restores the text |
| Coerce.SplitPiece | snmp_stream/__init__.py:26 | a piece free of the separator splits off the front |
| Coerce.SplitJoin | snmp_stream/__init__.py:26 | splitting a join of separator-free pieces gives the pieces back |
| Coerce.StripLeft | snmp_stream/__init__.py:26 | `int()` strips leading whitespace |
| Coerce.StripRight | snmp_stream/__init__.py:26 | `int()` strips trailing whitespace |
| Coerce.RemoveUnderscores | snmp_stream/__init__.py:26 | digit separators are dropped, and plain digits are unchanged |
| Coerce.PyInt | snmp_stream/__init__.py:26 | `int()` of plain digits is their value, and of the empty piece fails |
| Coerce.PyInts | snmp_stream/__init__.py:26 | the comprehension succeeds exactly when every piece parses, giving each value in place, and otherwise fails with `ValueError` |
| Coerce.ToArcs | snmp_stream/__init__.py:26 | the binding accepts a list of integers exactly when each fits 64 unsigned bits, and otherwise fails with `TypeError` |
| Coerce.ArcsOf | snmp_stream/__init__.py:26 | a successful conversion gives one arc per piece |
| Coerce.ObjectIdentityFromText | snmp_stream/__init__.py:20-30 | the empty text fails with `IndexError`; otherwise one leading dot is dropped, and each "."-separated piece becomes one arc |
| Coerce.NonEmpty | snmp_stream/__init__.py:38 | the filter keeps only non-empty pieces, and keeps everything when none is empty |
| Coerce.ToObjectIdentity | snmp_stream/__init__.py:33-39 | an `ObjectIdentity` is returned as is, `None` gives `[]`, and an int sequence is accepted exactly when it fits 64 bits; text ignores empty pieces, and nothing fails with `IndexError` or `KeyError` |
| Coerce.ToObjectIdentityRange | snmp_stream/__init__.py:49-59 | a range is returned as is; a pair checks start against stop; a single value becomes its point range |
| Coerce.ToVersion | snmp_stream/__init__.py:65-73 | an enum is returned as is; "V1" and "V2C" map to their versions, and any other name fails with `KeyError` |
| Coerce.ArcTextParses | snmp_stream/__init__.py:26 | `int()` reads an arc's text back as the arc |
| Coerce.ArcsOfArcTexts | snmp_stream/__init__.py:26 | the texts of the arcs convert back to the OID |
| Coerce.ArcTextsHaveNoDot | snmp_stream/__init__.py:38 | arc texts are non-empty and dot-free |
| Coerce.OidTextSplits | snmp_stream/__init__.py:38 | splitting `oid_to_string` at dots gives "" followed by the arc texts |
| Coerce.ToObjectIdentityOfText | snmp_stream/__init__.py:33-39 | `to_object_identity` inverts `oid_to_string` |
| Coerce.ObjectIdentityOfText | snmp_stream/__init__.py:20-30 | `ObjectIdentity(text)` inverts `oid_to_string` for non-empty OIDs, and fails on the empty OID's text |
| Coerce.OidTextInjective | snmp_stream/_snmp_stream/utils.cpp:7-19 | different OIDs have different texts |
| Coerce.NonEmptyConcat | snmp_stream/__init__.py:38 | the filter distributes over concatenation |
| Coerce.LeadingDotIgnored | snmp_stream/__init__.py:38 | a leading dot does not change `to_object_identity`, and the empty text gives `[]` |
| Coerce.DoubleDot | snmp_stream/__init__.py:26-38 | a doubled dot is ignored by `to_object_identity`, but makes `ObjectIdentity(text)` fail with `ValueError` |
| Bytes.Pow256 | snmp_stream/_snmp_stream/session.cpp:86-115 | the range of a field of n bytes is positive |
| Bytes.WordLimitIsPow256 | snmp_stream/_snmp_stream/session.cpp:86-115 | an 8-byte word holds values below 2^64 |
| Bytes.LittleEndian | snmp_stream/_snmp_stream/session.cpp:86-115 | `memcpy` of an integer on a little-endian host gives as many bytes as its width |
| Bytes.FromLittleEndian | examples/notebooks/ip_forward_mib.py:108-115 | `read_u*le` gives a value below 256^width |
| Bytes.BigEndian | snmp_stream/_snmp_stream/session.cpp:86-115 | `memcpy` of an integer on a big-endian host gives as many bytes as its width |
| Bytes.FromBigEndian | examples/notebooks/ip_forward_mib.py:117-124 | `read_u*be` gives a value below 256^width |
| Bytes.Encode | snmp_stream/_snmp_stream/session.cpp:86-115 | a value in the native order has the field's width |
| Bytes.Decode | examples/notebooks/ip_forward_mib.py:108-124 | a value read in the given order fits its width |
| Bytes.LittleEndianRoundTrip | examples/notebooks/ip_forward_mib.py:108-115 | reading little-endian bytes back gives the value |
| Bytes.FromLittleEndianRoundTrip | examples/notebooks/ip_forward_mib.py:108-115 | writing a read value back gives the bytes |
| Bytes.BigEndianRoundTrip | examples/notebooks/ip_forward_mib.py:117-124 | reading big-endian bytes back gives the value |
| Bytes.FromBigEndianRoundTrip | examples/notebooks/ip_forward_mib.py:117-124 | writing a read value back gives the bytes |
| Bytes.DecodeEncode | examples/notebooks/ip_forward_mib.py:108-124 | decoding inverts encoding in either byte order |
| Bytes.EncodeDecode | examples/notebooks/ip_forward_mib.py:108-124 | encoding inverts decoding in either byte order |
| Bytes.WordRoundTrip | snmp_stream/_snmp_stream/session.cpp:86-115 | every value below 2^64 survives a word |
| Bytes.SysAlign | snmp_stream/_snmp_stream/session.cpp:18-19 | `SYS_ALIGN(x)` is the least multiple of 8 at or above `x` |
| Bytes.SysAlignFixesAligned | snmp_stream/_snmp_stream/session.cpp:18-19 | `SYS_ALIGN` is idempotent and fixes multiples of 8 |
| Bytes.WordMultiple | snmp_stream/_snmp_stream/session.cpp:74 | an arc array is already aligned |
| Bytes.Zeros | snmp_stream/_snmp_stream/session.cpp:82-83 | `resize` extends the buffer with zero bytes |
| Bytes.Padded | snmp_stream/_snmp_stream/session.cpp:113-115 | a field in its aligned slot is the field followed by zeros up to a multiple of 8 |
| Utf8.EncodeChar | examples/notebooks/ip_forward_mib.py:275 | a character encodes to 1 to 4 bytes |
| Utf8.DecodeFirst | examples/notebooks/ip_forward_mib.py:275 | decoding the first character consumes 1 to 4 of the bytes present |
| Utf8.DecodeFirstEncodeChar | examples/notebooks/ip_forward_mib.py:275 | decoding the start of an encoded character gives that character and its length |
| Utf8.DecodeFirstIsEncoding | examples/notebooks/ip_forward_mib.py:275 | what is decoded is exactly the encoding of the character found |
| Utf8.DecodeEncode | examples/notebooks/ip_forward_mib.py:275 | `decode("utf-8")` inverts encoding |
| Utf8.EncodeDecode | examples/notebooks/ip_forward_mib.py:275 | bytes that decode are the encoding of what they decode to |
| Utf8.DecodeIffEncode | examples/notebooks/ip_forward_mib.py:275 | bytes decode to a string exactly when they are its encoding |
| Layout.Overwrite | snmp_stream/_snmp_stream/session.cpp:86-115 | `memcpy` at an offset replaces exactly those bytes and keeps the rest |
| Layout.Resized | snmp_stream/_snmp_stream/session.cpp:82-83 | `resize` cuts to the new size or pads with zeros, keeping the old bytes |
| Layout.ResultBuffer.constructor | snmp_stream/_snmp_stream/session.cpp:354 | the results vector starts empty |
| Layout.ResultBuffer.Resize | snmp_stream/_snmp_stream/session.cpp:82-83 | the buffer becomes its `resize` |
| Layout.ResultBuffer.Write | snmp_stream/_snmp_stream/session.cpp:86-115 | the buffer becomes its `memcpy` at the offset |
| Layout.ResultBuffer.Fill | snmp_stream/_snmp_stream/session.cpp:86-115 | a copy into zeroed room puts the bytes right after what was there |
| Layout.ResultBuffer.FillPadded | snmp_stream/_snmp_stream/session.cpp:113-115 | a copy into an aligned slot of zeroed room puts the padded field there |
| Layout.ResultBuffer.WriteHeader | snmp_stream/_snmp_stream/session.cpp:421-433 | the empty buffer becomes the 16-byte header |
| Layout.ResultBuffer.AppendWord | snmp_stream/_snmp_stream/session.cpp:447-451 | a size is appended in a word of its own |
| Layout.ResultBuffer.AppendMetadata | snmp_stream/_snmp_stream/session.cpp:435-445 | the request id's length, 0 when absent, is appended with its padded bytes |
| Layout.ResultBuffer.AppendOidBlock | snmp_stream/_snmp_stream/session.cpp:466-473 | a root OID is appended as its arc count and its arcs |
| Layout.ResultBuffer.FillRecordHead | snmp_stream/_snmp_stream/session.cpp:85-107 | the five fixed fields of a record are written into zeroed room |
| Layout.ResultBuffer.FillRecordTail | snmp_stream/_snmp_stream/session.cpp:109-115 | the value length and the padded value are written into zeroed room |
| Layout.ResultBuffer.Set | snmp_stream/_snmp_stream/session.cpp:426-433 | a single byte is set, and all others are kept |
| Layout.WriteOverZeros | snmp_stream/_snmp_stream/session.cpp:82-115 | resizing then copying equals appending the bytes and the rest of the zeros |
| Layout.PaddedSplitsZeros | snmp_stream/_snmp_stream/session.cpp:113-115 | a field with its zeros is the padded field |
| Layout.Header | snmp_stream/_snmp_stream/session.cpp:421-433 | the header is 16 bytes: the byte order (0 little, 1 big), the word size 8, the arc size 8, then zeros |
| Layout.Metadata | snmp_stream/_snmp_stream/session.cpp:435-445 | the metadata is one word plus the padded request id |
| Layout.ArcBytes | snmp_stream/_snmp_stream/session.cpp:472-473 | an OID's arcs take one word each |
| Layout.ArcBytesLast | snmp_stream/_snmp_stream/session.cpp:472-473 | the last arc's word comes last |
| Layout.ArcBytesDecode | snmp_stream/_snmp_stream/session.cpp:472-473 | each arc is read back from its own word |
| Layout.OidBlock | snmp_stream/_snmp_stream/session.cpp:466-473 | a root OID block is its count word plus one word per arc |
| Layout.RootBlocks | snmp_stream/_snmp_stream/session.cpp:453-474 | the root OID blocks together are word-aligned |
| Layout.RootBlocksSnoc | snmp_stream/_snmp_stream/session.cpp:453-474 | each turn of the root loop appends one block |
| Layout.PreambleAligned | snmp_stream/_snmp_stream/session.cpp:419-474 | header, metadata, root count and root blocks are a whole number of words, at least 32 bytes |
| Layout.RecordSize | snmp_stream/_snmp_stream/session.cpp:63-78 | `resp_var_bind_size` is five words plus a word per index arc plus the aligned value length |
| Layout.RecordHead | snmp_stream/_snmp_stream/session.cpp:85-103 | the fixed part of a record is 40 bytes |
| Layout.RecordTail | snmp_stream/_snmp_stream/session.cpp:109-115 | the end of a record is one word plus the aligned value |
| Layout.RecordLength | snmp_stream/_snmp_stream/session.cpp:80-83 | a record is its size word plus `resp_var_bind_size` bytes, a whole number of words |
| Layout.RecordPrefixFields | snmp_stream/_snmp_stream/session.cpp:85-103 | the size, timestamp, root index, value type and index length read back from their slots |
| Layout.RecordIndexFields | snmp_stream/_snmp_stream/session.cpp:105-107 | each index arc reads back from its word |
| Layout.RecordValueFields | snmp_stream/_snmp_stream/session.cpp:109-115 | the value length and the value read back after the index |
| Heads.HeadRangeAsWrittenThrows | snmp_stream/_snmp_stream/session.cpp:45-52 | as written, the constructor throws exactly when the stop is empty and both the start and the root are not |
| Heads.HeadRangeAsWrittenCounterexample | snmp_stream/_snmp_stream/session.cpp:45-52 | a WALK request the request constructor accepts, with root `.1.3` and range `(.1, none)`, makes the head constructor throw |
| Heads.HeadRange | snmp_stream/_snmp_stream/session.cpp:39-56 | the corrected head range lies under the root, with the range's bounds after it, or is the root's point |
| Heads.HeadRangeAgrees | snmp_stream/_snmp_stream/session.cpp:39-56 | wherever the written constructor succeeds it builds the corrected range, and it always succeeds without a range |
| Heads.Activate | include/session.hpp:51-55 | `get_next_req_oid` requests the last response, else the root; it clears the last response and keeps the target |
| Heads.CollectionHead.constructor | snmp_stream/_snmp_stream/session.cpp:39-56 | a new head has its index, root, range and buffer, and no request or response yet |
| Heads.CollectionHead.ResetReqOid | include/session.hpp:46 | only the request OID is cleared |
| Heads.CollectionHead.GetNextReqOid | include/session.hpp:51-55 | the head is activated and its request OID is returned |
| Heads.CollectionHead.SetLastRespOid | include/session.hpp:64 | only the last response OID is set |
| Heads.CollectionHead.AppendResult | snmp_stream/_snmp_stream/session.cpp:58-116 | the buffer gains exactly one record: timestamp, head index, value type, the index after the root, and the value |
| Heads.Views | include/session.hpp:21-70 | the values of a list of heads, in order |
| Steps.PduTypeFor | snmp_stream/_snmp_stream/session.cpp:357-371 | GET for a GET request; for a WALK, GETNEXT on v1 and GETBULK on v2c |
| Steps.WarningName | snmp_stream/_snmp_stream/session.cpp:120-123 | the exception value types are exactly 128 to 130 |
| Steps.SameHeadsUnderRoot | snmp_stream/_snmp_stream/session.cpp:225 | changing only last responses keeps every head under its root |
| Steps.Fail | snmp_stream/_snmp_stream/session.cpp:262-274 | the error path appends the error, closes the session and raises the flag, keeping heads and results |
| Steps.MatchIsUnderRoot | snmp_stream/_snmp_stream/session.cpp:135-154 | a binding matched to a head lies under that head's root |
| Steps.HeadMatchesMask | snmp_stream/_snmp_stream/session.cpp:149-154 | a walk head built from request range `x` matches exactly the OIDs under its root whose arcs below the root pass the walk test for `x` |
| Steps.OpenStopMatchesSubtree | snmp_stream/_snmp_stream/session.cpp:149-154 | a walk head whose request range has no stop matches the whole subtree of its root, whatever the start |
| Steps.FindHead | snmp_stream/_snmp_stream/session.cpp:135-154 | `find_if` gives the first active head that matches, or none |
| Steps.Warn | snmp_stream/_snmp_stream/session.cpp:161-192 | a GET warning changes only the errors and the flag |
| Steps.Accept | snmp_stream/_snmp_stream/session.cpp:228-230 | accepting a binding appends exactly the one record `append_result` writes for its head, keeps the results aligned, and changes nothing else |
| Steps.GetStep | snmp_stream/_snmp_stream/session.cpp:156-195 | the GET branch never changes the heads or the status, and keeps the results aligned |
| Steps.WalkStep | snmp_stream/_snmp_stream/session.cpp:196-226 | the WALK branch changes at most last responses and keeps the results aligned |
| Steps.VarBindStep | snmp_stream/_snmp_stream/session.cpp:118-231 | `process_var_bind` keeps every head under its root, and the status and alignment |
| Steps.ApplyVarBinds | snmp_stream/_snmp_stream/session.cpp:251-254 | the bindings of one PDU, in order, keep the same invariants |
| Steps.ApplyVarBindsSnoc | snmp_stream/_snmp_stream/session.cpp:251-254 | one more binding is one more step |
| Steps.GetBindingRules | snmp_stream/_snmp_stream/session.cpp:156-195 | a GET binding is recorded exactly when its head exists, it equals the request OID, and its type is not an exception; a recorded binding appends exactly its head's record; otherwise exactly one value warning with its index and OID |
| Steps.WalkBindingRules | snmp_stream/_snmp_stream/session.cpp:196-230 | a WALK binding beyond its head's cursor becomes the last response and one record; anything else changes nothing |
| Steps.WalkCursorAdvances | snmp_stream/_snmp_stream/session.cpp:204-225 | during a response, a walk head's cursor only moves forward, and strictly when it moves |
| Steps.GetKeepsHeads | snmp_stream/_snmp_stream/session.cpp:156-195 | GET bindings never change the heads |
| Steps.ErrorPosition | snmp_stream/_snmp_stream/session.cpp:257-261 | the error search stops at the first binding with the error index, or at the end |
| Steps.CallbackEffect | snmp_stream/_snmp_stream/session.cpp:240-324 | the dispatch keeps every head under its root and keeps the results aligned |
| Steps.ReceivedFromIdle | snmp_stream/_snmp_stream/session.cpp:241-242 | a received message behaves the same whatever the status before |
| Steps.Prune | snmp_stream/_snmp_stream/session.cpp:326-342 | the pruning leaves no head in flight and no more heads than before |
| Steps.Finish | snmp_stream/_snmp_stream/session.cpp:326-347 | after pruning, the session closes exactly when no head is left |
| Steps.PduStep | snmp_stream/_snmp_stream/session.cpp:233-350 | `process_pdu` leaves no head in flight, closes when no head is left, and keeps heads under roots and results aligned |
| Steps.FailuresClose | snmp_stream/_snmp_stream/session.cpp:255-320 | every failing operation appends exactly one error of its documented type and codes, closes the session and raises the flag |
| Steps.FailureErrorFields | snmp_stream/_snmp_stream/session.cpp:255-320 | the type, codes, status, index and OID of each failure's error |
| Steps.ResponseAndResend | snmp_stream/_snmp_stream/session.cpp:241-254 | a resend only prunes; a good response sets the status to idle, applies its bindings, then prunes |
| Steps.PruneKeepsExactly | snmp_stream/_snmp_stream/session.cpp:326-342 | exactly the heads that were idle or got a response remain, each with its request cleared |
| Steps.PruneOnlyKept | snmp_stream/_snmp_stream/session.cpp:332-338 | every head left was kept and only lost its request |
| Steps.PruneKeepsAllKept | snmp_stream/_snmp_stream/session.cpp:332-341 | every kept head remains |
| Steps.PruneInactive | snmp_stream/_snmp_stream/session.cpp:326-342 | pruning idle heads changes nothing |
| Steps.IdleHeadsUntouched | snmp_stream/_snmp_stream/session.cpp:139-142 | a head not in flight is never changed by a binding |
| Steps.WalkHeadAdvances | snmp_stream/_snmp_stream/session.cpp:196-226 | a walk head that survives a round has moved beyond what it requested |
| Steps.WalkRoundAdvances | snmp_stream/_snmp_stream/session.cpp:233-347 | every walk head after a round comes from a head that advanced |
| Steps.GetRoundRemovesSent | snmp_stream/_snmp_stream/session.cpp:326-342 | after a GET round, exactly the heads not sent remain, unchanged |
| Steps.GetEffectKeepsHeads | snmp_stream/_snmp_stream/session.cpp:240-324 | for a GET, no callback changes the heads before pruning |
| Steps.PruneWithoutResponses | snmp_stream/_snmp_stream/session.cpp:326-342 | without responses, pruning drops exactly the heads that were sent |
| Steps.BatchFrom | snmp_stream/_snmp_stream/session.cpp:524-527 | the fill loop, from any count, stops at the first count without room, or at the number of heads |
| Steps.BatchSize | snmp_stream/_snmp_stream/session.cpp:520-527 | a GET or GETNEXT takes `min(limit, heads)`; a GETBULK stops at the first `k` with `k*k >= limit` |
| Steps.BatchSizeUnique | snmp_stream/_snmp_stream/session.cpp:524-527 | the batch size is the only count meeting the loop's exit condition |
| Steps.NextReqOid | include/session.hpp:51-55 | the OID a head asks for next is what `get_next_req_oid` sets |
| Steps.ActivateAll | include/session.hpp:51-55 | each head activated in place |
| Steps.Rotate | snmp_stream/_snmp_stream/session.cpp:541-544 | the `k` front heads are activated and moved to the back, in order |
| Steps.NextOids | snmp_stream/_snmp_stream/session.cpp:528-532 | the PDU's OIDs are the first `k` heads' next OIDs |
| Steps.MakePdu | snmp_stream/_snmp_stream/session.cpp:548-553 | only a GETBULK PDU has a repetition count, and it is the most `m` with `n * m` at most the binding limit, for `n` bindings |
| Steps.SameOids | snmp_stream/_snmp_stream/session.cpp:528-532 | OIDs agreeing position by position are the next OIDs |
| Steps.SendStep | snmp_stream/_snmp_stream/session.cpp:490-573 | `send` never touches the results, only appends errors, and does nothing unless the session is idle |
| Steps.SendBatch | snmp_stream/_snmp_stream/session.cpp:520-572 | once the PDU exists, the heads are rotated by the batch size and the status is wait, closed or unchanged |
| Steps.SendFillsFront | snmp_stream/_snmp_stream/session.cpp:490-573 | the heads in flight are exactly the last `k`; GETBULK with `k = 0` divides by zero; a dispatched PDU carries the first `k` heads' next OIDs; a refused send closes with a send error, and an accepted one waits |
| Steps.ZeroLimitDividesByZero | snmp_stream/_snmp_stream/session.cpp:548-553 | a GETBULK with a limit of 0 divides by zero |
| Steps.ZeroLimitStalls | snmp_stream/_snmp_stream/session.cpp:524-527 | with a limit of 0, a GET or GETNEXT sends an empty PDU and no round changes the heads |
| Steps.IdleRoundKeepsHeads | snmp_stream/_snmp_stream/session.cpp:326-342 | a round with no head in flight leaves the heads as they were |
| Steps.PositiveLimitSends | snmp_stream/_snmp_stream/session.cpp:520-553 | with a positive limit and a head left, an idle session sends at least one binding |
| Steps.ActivateAllUnderRoot | snmp_stream/_snmp_stream/session.cpp:541-544 | rotating keeps every head under its root |
| Steps.StepsKeepCoherent | snmp_stream/_snmp_stream/session.cpp:233-573 | both `process_pdu` and `send` keep the session invariant: heads under roots, and the results word-aligned |
| Steps.PduStepCoherent | snmp_stream/_snmp_stream/session.cpp:233-350 | `process_pdu` keeps the invariant |
| Steps.SendBatchCoherent | snmp_stream/_snmp_stream/session.cpp:520-572 | the fill and dispatch keep the invariant |
| Steps.OpenError | snmp_stream/_snmp_stream/session.cpp:391-404 | the corrected open error carries the type, request, message and both error numbers the library reported |
| Steps.OpenErrorAsWritten | snmp_stream/_snmp_stream/session.cpp:392-397 | as written, the recorded system error number is whatever the uninitialised local held |
| Steps.OpenErrorAsWrittenLosesErrno | snmp_stream/_snmp_stream/session.cpp:392-397 | a reported errno of 111 is lost as written and kept by the corrected form |
| Steps.OpeningCoherent | snmp_stream/_snmp_stream/session.cpp:352-475 | a new session meets the invariant; an opened one has at least one head per root OID |
| Steps.RangeCount | snmp_stream/_snmp_stream/session.cpp:455-465 | each root OID gets at least one head |
| Steps.RootHeads | snmp_stream/_snmp_stream/session.cpp:455-465 | the heads of one root: one per range, or one without, numbered on by `root_oid_index++` |
| Steps.InitialHeads | snmp_stream/_snmp_stream/session.cpp:453-474 | all heads in order, head `k` numbered `k`, fresh, idle and under their roots |
| Steps.InitialHeadsSnoc | snmp_stream/_snmp_stream/session.cpp:455-474 | one more root OID appends its heads |
| Steps.InitialHeadsLayout | snmp_stream/_snmp_stream/session.cpp:455-465 | head `i*P+j` belongs to root `i` and its `j`-th range |
| Sessions.FindErrorOid | snmp_stream/_snmp_stream/session.cpp:256-270 | the search loop finds the OID of the binding with the error index, if any |
| Sessions.Session.constructor | snmp_stream/_snmp_stream/session.cpp:352-475 | a new session is the opening state: closed with the session error, or idle with the header written and one head per root and range |
| Sessions.Session.FailOpen | snmp_stream/_snmp_stream/session.cpp:391-404 | a failed open records the corrected open error and closes |
| Sessions.Session.Populate | snmp_stream/_snmp_stream/session.cpp:419-474 | the results preamble is written and the heads are made |
| Sessions.Session.AppendError | include/session.hpp:156-166 | `append_error` appends one error for this request, and nothing else changes |
| Sessions.Session.Raise | snmp_stream/_snmp_stream/session.cpp:262-274 | the error path is `Fail` |
| Sessions.Session.Find | snmp_stream/_snmp_stream/session.cpp:135-154 | the `find_if` loop computes `FindHead` |
| Sessions.Session.Warning | snmp_stream/_snmp_stream/session.cpp:161-192 | a value warning is `Warn` |
| Sessions.Session.GetVarBind | snmp_stream/_snmp_stream/session.cpp:156-195 | the GET branch computes `GetStep` |
| Sessions.Session.GetFound | snmp_stream/_snmp_stream/session.cpp:172-195 | the GET branch with a head found computes `GetStep` |
| Sessions.Session.Store | snmp_stream/_snmp_stream/session.cpp:228-230 | an accepted GET binding is `Accept` |
| Sessions.Session.WalkVarBind | snmp_stream/_snmp_stream/session.cpp:196-230 | the WALK branch computes `WalkStep` |
| Sessions.Session.Advance | snmp_stream/_snmp_stream/session.cpp:225-230 | an accepted WALK binding sets the head's last response, then is `Accept` |
| Sessions.Session.ProcessVarBind | snmp_stream/_snmp_stream/session.cpp:118-231 | `process_var_bind` computes `VarBindStep` |
| Sessions.Session.ProcessVarBinds | snmp_stream/_snmp_stream/session.cpp:251-254 | the binding loop computes `ApplyVarBinds` |
| Sessions.Session.ProcessNext | snmp_stream/_snmp_stream/session.cpp:251-254 | one turn of the loop is one more binding |
| Sessions.Session.KeptHeads | snmp_stream/_snmp_stream/session.cpp:326-342 | the pruning loop keeps, in order, the heads `Kept` selects, each reset |
| Sessions.Session.PruneHeads | snmp_stream/_snmp_stream/session.cpp:326-342 | after the loop the heads' values are `Prune` of the old ones |
| Sessions.Session.Receive | snmp_stream/_snmp_stream/session.cpp:241-295 | a received message is `CallbackEffect` of `Received` |
| Sessions.Session.SetIdle | snmp_stream/_snmp_stream/session.cpp:242 | only the status becomes idle |
| Sessions.Session.ReceiveNothing | snmp_stream/_snmp_stream/session.cpp:286-294 | no PDU records a response PDU creation error |
| Sessions.Session.ReceivePdu | snmp_stream/_snmp_stream/session.cpp:245-285 | a PDU is handled as its command says |
| Sessions.Session.ReceiveOther | snmp_stream/_snmp_stream/session.cpp:276-285 | a PDU that is not a response is a protocol error |
| Sessions.Session.ReceiveResponse | snmp_stream/_snmp_stream/session.cpp:247-275 | a response applies its bindings, or records its error status |
| Sessions.Session.ProcessPdu | snmp_stream/_snmp_stream/session.cpp:233-350 | `process_pdu` returns 1, keeps the session valid and computes `PduStep` |
| Sessions.Session.Dispatch | snmp_stream/_snmp_stream/session.cpp:240-324 | the `switch` computes `CallbackEffect` |
| Sessions.Session.Conclude | snmp_stream/_snmp_stream/session.cpp:326-347 | the pruning and the closing compute `Finish` |
| Sessions.Session.SetClosed | snmp_stream/_snmp_stream/session.cpp:345-347 | only the status becomes closed |
| Sessions.Session.SetWait | snmp_stream/_snmp_stream/session.cpp:571-572 | only the status becomes wait |
| Sessions.Session.Send | snmp_stream/_snmp_stream/session.cpp:490-573 | `send` keeps the session valid and computes `SendStep` |
| Sessions.Session.SendCreated | snmp_stream/_snmp_stream/session.cpp:520-572 | once the PDU exists, `send` computes `SendBatch` |
| Sessions.Session.FillPdu | snmp_stream/_snmp_stream/session.cpp:520-546 | the fill loop takes the batch size's worth of next OIDs and rotates the heads |
| Sessions.Session.SetHeads | snmp_stream/_snmp_stream/session.cpp:541-544 | the list of heads takes its new order |
| Sessions.FillLoop | snmp_stream/_snmp_stream/session.cpp:524-546 | the loop over the head objects yields the rotated values, keeping them distinct and on the same buffer |
| Sessions.Turns | snmp_stream/_snmp_stream/session.cpp:524-546 | the turns activate the first `k` objects, in order, and move them to the back |
| Sessions.Turn | snmp_stream/_snmp_stream/session.cpp:528-545 | one turn activates the front head and moves it to the back |
| Sessions.ActivateAt | snmp_stream/_snmp_stream/session.cpp:528-532 | the turn at position `i` activates that head alone |
| Sessions.RotatedLinked | snmp_stream/_snmp_stream/session.cpp:541-544 | moved heads keep their buffer and stay distinct |
| Sessions.RotatedViews | snmp_stream/_snmp_stream/session.cpp:541-544 | the moved objects' values are `Rotate` |
| Sessions.KeptObjects | snmp_stream/_snmp_stream/session.cpp:326-342 | the kept objects come from the list |
| Sessions.KeptViews | snmp_stream/_snmp_stream/session.cpp:326-342 | the kept objects' values are `Prune` |
| Sessions.KeptFacts | snmp_stream/_snmp_stream/session.cpp:326-342 | the kept heads are distinct, share the buffer and show `Prune` |
| Sessions.KeptObjectsDistinct | snmp_stream/_snmp_stream/session.cpp:336 | erasing keeps the other heads distinct |
| Sessions.PruneAt | snmp_stream/_snmp_stream/session.cpp:327-342 | one turn of the pruning loop keeps or drops the head at `i` |
| Sessions.PruneOne | snmp_stream/_snmp_stream/session.cpp:332-340 | a head is kept exactly when `Kept` holds, and then only its request is cleared |
| Sessions.NewResults | snmp_stream/_snmp_stream/session.cpp:419-474 | an opened session writes the preamble and makes the initial heads |
| Sessions.NewHeads | snmp_stream/_snmp_stream/session.cpp:453-474 | the root loop makes every root's heads and appends the root blocks |
| Sessions.ExtendHeads | snmp_stream/_snmp_stream/session.cpp:455-465 | one root's heads join the list |
| Sessions.NewRootHeads | snmp_stream/_snmp_stream/session.cpp:456-465 | new heads for each range, or one without, numbered on, on the buffer |
| Sessions.ViewsSnoc | snmp_stream/_snmp_stream/session.cpp:459-464 | `push_back` adds one head value at the end |
| Manager.Min | snmp_stream/_snmp_stream/session.cpp:639-641 | `std::min` is the smaller operand |
| Manager.DefaultConfig | include/session.hpp:216-219 | the default `Config(3, 3, 10, 10)` is complete and valid |
| Manager.ActiveCountBounds | snmp_stream/_snmp_stream/session.cpp:628-633 | the active count is at most the sessions, and 0 exactly when none is active |
| Manager.MaxAsyncIsMinimum | snmp_stream/_snmp_stream/session.cpp:635-645 | `get_max_async_sessions` is the least limit of any active session, and `SIZE_MAX` when none is active |
| Manager.AdmitCount | snmp_stream/_snmp_stream/session.cpp:666 | a session at the back adds one to the count if active, and takes part in the minimum |
| Manager.AdmitKeepsCap | snmp_stream/_snmp_stream/session.cpp:657-668 | admitting under the loop's condition keeps every active session within its own limit |
| Manager.CloseKeepsCap | snmp_stream/_snmp_stream/session.cpp:679-686 | a session closing keeps the rest within their limits |
| Manager.CloseCount | snmp_stream/_snmp_stream/session.cpp:628-633 | a session closing does not raise the count |
| Manager.Slots | snmp_stream/_snmp_stream/session.cpp:628-645 | what admission reads of each session: active or not, and its limit |
| Manager.SessionManager.constructor | include/session.hpp:222-227 | the configuration is the default merged with the given one |
| Manager.SessionManager.AddRequest | snmp_stream/_snmp_stream/session.cpp:620-626 | the request is rebuilt with `config << request.config` and queued at the back, with its kind, host, community, OIDs, ranges and request id unchanged: the constructor leaves optimised ranges as they are |
| Manager.SessionManager.GetMaxAsyncSessions | snmp_stream/_snmp_stream/session.cpp:635-645 | the loop computes `MaxAsync` |
| Manager.SessionManager.TestAdmit | snmp_stream/_snmp_stream/session.cpp:657-665 | the loop condition computes `CanAdmit` |
| Manager.SessionManager.Admit | snmp_stream/_snmp_stream/session.cpp:656-668 | the pending front is moved into sessions, in order, exactly while the condition holds: before the k-th admission one more active session fitted every limit of the sessions then present and the k-th request's own, and after the last it fails; the k-th new session is active exactly when its open succeeded and carries its request's limit; all active sessions stay within their limits |
| Manager.SessionManager.AdmitTurn | snmp_stream/_snmp_stream/session.cpp:666-667 | one turn moves one request, which the condition admitted, adds the slot of its open outcome, and re-tests the condition |
| Manager.SessionManager.AdmitFront | snmp_stream/_snmp_stream/session.cpp:666-667 | the front request becomes a fresh session at the back, in the state its open outcome gives, and its slot joins the occupancy |
| Manager.SessionManager.Push | snmp_stream/_snmp_stream/session.cpp:666-667 | the session goes to the back and the front request leaves the queue; the session's own state is untouched and its slot joins the occupancy |
| Manager.OpenSession | snmp_stream/_snmp_stream/session.cpp:666 | the new session has the request, is closed exactly when it did not open, and is in the state `Steps.Opening` gives |
| Manager.AdmittedSlots | snmp_stream/_snmp_stream/session.cpp:666 | the k-th admitted slot is active exactly when the k-th open succeeded, with the k-th request's limit |
| Manager.AdmittedSlotsSnoc | snmp_stream/_snmp_stream/session.cpp:666 | one more admission adds its slot at the end |
| Manager.AdmittedEachAt | snmp_stream/_snmp_stream/session.cpp:657-665 | a loop that admitted turn by turn met the condition at every turn |
| Manager.RequestsOf | snmp_stream/_snmp_stream/session.cpp:666 | the requests of the sessions, in order |
| Manager.RequestsOfSnoc | snmp_stream/_snmp_stream/session.cpp:666 | one more session adds its request |
| Manager.SlotsSnoc | snmp_stream/_snmp_stream/session.cpp:666 | one more session adds its slot |
| Snapshot.VarBindAdvances | examples/notebooks/ip_forward_mib.py:83-89 | reading a binding always consumes bytes |
| Snapshot.Stream.constructor | examples/notebooks/ip_forward_mib.py:12-16 | a stream starts at position 0 of its bytes |
| Snapshot.Stream.ReadBytes | examples/notebooks/ip_forward_mib.py:85 | `read_bytes` computes `BytesAt`, and a short read leaves the stream at its end |
| Snapshot.Stream.ReadU1 | examples/notebooks/ip_forward_mib.py:32-34 | `read_u1` computes a one-byte `UIntAt` |
| Snapshot.Stream.ReadUInt | examples/notebooks/ip_forward_mib.py:108-124 | `read_u{2,4,8}{le,be}` compute `UIntAt` |
| Snapshot.VarBindsStep | examples/notebooks/ip_forward_mib.py:240-255 | one turn of the binding loop |
| Snapshot.SuboidsStep | examples/notebooks/ip_forward_mib.py:207-222 | one turn of the arc loop |
| Snapshot.OidsStep | examples/notebooks/ip_forward_mib.py:174-189 | one turn of the root OID loop |
| Snapshot.OidsStop | examples/notebooks/ip_forward_mib.py:174-189 | an OID that fails ends the loop with its error |
| Snapshot.ReadSizeT | examples/notebooks/ip_forward_mib.py:92-125 | `SizeT` computes `SizeTAt`: widths 2, 4 and 8, otherwise `as_int` is unset |
| Snapshot.ReadOidT | examples/notebooks/ip_forward_mib.py:284-317 | `OidT` computes `OidTAt` |
| Snapshot.ReadAligned | examples/notebooks/ip_forward_mib.py:319-343 | `Aligned` computes `AlignedAt`: `(sys_size - pos) % sys_size` padding bytes |
| Snapshot.ReadMetadata | examples/notebooks/ip_forward_mib.py:257-282 | `Metadata` computes `MetadataAt`: a length, UTF-8 bytes, padding |
| Snapshot.ReadSuboids | examples/notebooks/ip_forward_mib.py:191-222 | `Suboids` computes `SuboidsAt`, including the case of no progress |
| Snapshot.ReadOid | examples/notebooks/ip_forward_mib.py:127-156 | `Oid` computes `OidAt` |
| Snapshot.ReadOidArcs | examples/notebooks/ip_forward_mib.py:145-148 | the arc substream of `len // suboid_size` bytes, then padding |
| Snapshot.ReadRootOids | examples/notebooks/ip_forward_mib.py:158-189 | `RootOids` computes `RootOidsAt` |
| Snapshot.ReadOids | examples/notebooks/ip_forward_mib.py:176-178 | the loop over the count computes `OidsAt` |
| Snapshot.ReadVarBind | examples/notebooks/ip_forward_mib.py:67-90 | `VarBind` computes `VarBindAt` |
| Snapshot.ReadVarBinds | examples/notebooks/ip_forward_mib.py:224-255 | `VarBinds` computes `VarBindsAt` |
| Snapshot.ReadBody | examples/notebooks/ip_forward_mib.py:37-65 | `Body` computes `BodyAt`: byte order 0 or 1, otherwise undecided |
| Snapshot.ReadInfo | examples/notebooks/ip_forward_mib.py:24-35 | `Info` reads the first three header bytes |
| Snapshot.ReadSnapshot | examples/notebooks/ip_forward_mib.py:11-22 | `IpForwardMib` computes `SnapshotOf` |
| Snapshot.AlignedLandsOnWord | examples/notebooks/ip_forward_mib.py:335-339 | after `Aligned` the position is a multiple of `sys_size`, less than a word on |
| Snapshot.PadAligns | examples/notebooks/ip_forward_mib.py:336 | the padding length reaches the next multiple of the width |
| Snapshot.WriterHeaderUndecided | snmp_stream/_snmp_stream/session.cpp:421-433 | every buffer starting with the writer's header is rejected by the reader as undecided byte order (ip_forward_mib.py:31-51) |
| Snapshot.OidsEncodableEach | examples/notebooks/ip_forward_mib.py:174-189 | a list of encodable OIDs is encodable |
| Snapshot.ArcsLength | examples/notebooks/ip_forward_mib.py:207-222 | encoded arcs take `suboid_size` bytes each |
| Snapshot.BytesRoundTrip | examples/notebooks/ip_forward_mib.py:85 | `read_bytes` returns bytes that are present |
| Snapshot.UIntRoundTrip | examples/notebooks/ip_forward_mib.py:108-124 | an encoded integer reads back |
| Snapshot.PadRoundTrip | examples/notebooks/ip_forward_mib.py:319-343 | padding reads back |
| Snapshot.FramedRoundTrip | examples/notebooks/ip_forward_mib.py:143-148 | a length, payload and padding read back in turn |
| Snapshot.MetadataJoins | examples/notebooks/ip_forward_mib.py:273-281 | the metadata parts make the metadata |
| Snapshot.MetadataRoundTrip | examples/notebooks/ip_forward_mib.py:257-282 | encoded metadata reads back as the string |
| Snapshot.SuboidsJoins | examples/notebooks/ip_forward_mib.py:207-222 | an arc and the rest make the arcs |
| Snapshot.SuboidsRoundTrip | examples/notebooks/ip_forward_mib.py:191-222 | encoded arcs read back |
| Snapshot.OidJoins | examples/notebooks/ip_forward_mib.py:143-155 | the OID parts make the OID |
| Snapshot.ArcsRoundTrip | examples/notebooks/ip_forward_mib.py:145-147 | an OID's byte length divides back to its arc bytes, which read back |
| Snapshot.OidRoundTrip | examples/notebooks/ip_forward_mib.py:127-156 | an encoded OID reads back |
| Snapshot.OidsJoins | examples/notebooks/ip_forward_mib.py:176-178 | an OID and the rest make the OIDs |
| Snapshot.OidsRoundTrip | examples/notebooks/ip_forward_mib.py:176-178 | encoded OIDs read back |
| Snapshot.RootOidsJoins | examples/notebooks/ip_forward_mib.py:174-189 | count, OIDs and padding make the root OIDs |
| Snapshot.RootOidsRoundTrip | examples/notebooks/ip_forward_mib.py:158-189 | encoded root OIDs read back |
| Snapshot.VarBindsJoins | examples/notebooks/ip_forward_mib.py:240-255 | a binding and the rest make the bindings |
| Snapshot.VarBindsRoundTrip | examples/notebooks/ip_forward_mib.py:224-255 | encoded bindings read back, to the end of the stream |
| Snapshot.BodyJoins | examples/notebooks/ip_forward_mib.py:44-65 | the three sections make the body |
| Snapshot.BodyRoundTrip | examples/notebooks/ip_forward_mib.py:37-65 | an encoded body reads back |
| Snapshot.BodySections | examples/notebooks/ip_forward_mib.py:57-65 | the sections of an encoded body lie one after another |
| Snapshot.SnapshotJoins | examples/notebooks/ip_forward_mib.py:18-22 | the header and body make the snapshot |
| Snapshot.SnapshotRoundTrip | examples/notebooks/ip_forward_mib.py:11-65 | every encodable snapshot is read back exactly from its encoding |

## Left out

- `Session::read` (session.cpp:575-614) waits on the library's sockets with `select`. This is I/O and is not modelled. A callback arriving is modelled by `Sessions.Session.ProcessPdu`, whose operation and PDU are parameters.
- The I/O loop of `SessionManager::run` (session.cpp:677-686) repeats `send` and `read` until a session closes, so it depends on the network. Its steps are modelled one by one: `Sessions.Session.Send`, `Sessions.Session.ProcessPdu` and `Manager.CloseKeepsCap`.
- The collection loop of `run` (session.cpp:689-695) and `get_response` (session.cpp:616-618) are not modelled. As written, the loop moves the iterator back after every erase and never moves it forward otherwise.
- The returned `SnmpResponse` is not modelled: it is an aggregate of the request, the results and the errors.
- `Session::~Session` (session.cpp:477-488) releases the library's session. Memory is not modelled.
- The net-snmp session template (session.cpp:373-387) is not modelled: peer name, retries, timeout in microseconds, community and version. That code belongs to the library.
- Only the outcome of `snmp_sess_open` is modelled, as a parameter.
- The `repr` functions (types.cpp:16-19, 37-42, 74-91, 191-231) and the debug trace lines are formatting for logs. They are not modelled. The `attrs`-style helpers they use are modelled in `Text`.
- Steps.SendStep: `snmp_add_null_var` never fails. The branch that records "failed to add OID to PDU" and drops the front head (session.cpp:533-539) is not modelled, because it depends on library allocation.
- Steps.BatchSize: the loop bound `sqrt(max_response_var_binds_per_pdu)` (session.cpp:525) is taken as an exact square root. `k < sqrt(n)` is then `k*k < n` for naturals. Floating-point rounding is not modelled.
- Steps.SendStep: a failing `snmp_pdu_create` is modelled by the `created` parameter, and a failing `snmp_sess_async_send` by `sendError`.
- The time stamp comes from `time` (session.cpp:59-61) and is a parameter.
- The native byte order is a parameter. The `runtime_error` for an undetectable byte order (session.cpp:429-431) happens at compile time in C++ and is not modelled.
- Integer widths are not wrapped. Arcs are below 2^64, as `oid_t` is. Sizes and counts are unbounded naturals; `size_t` overflow of a record size is out of reach in practice. The read-back lemmas (`Layout.RecordPrefixFields`, `Layout.RecordValueFields`) require their values to fit a word.
- Heads.CollectionHead.AppendResult: it requires the binding's OID to lie under the head's root. The source subtracts `root_oid.size()` from the name length unchecked. Every call site meets the requirement, by `Steps.MatchIsUnderRoot`.
- Requests.TestAmbiguousRootOids: it requires at least one OID. On an empty vector the source's `std::next(oids.end(), -1)` is undefined. The only caller checks for emptiness first (types.cpp:177-179).
- Manager.SessionManager.Admit: the full state of each admitted session (heads, buffer, errors) is stated when the session is opened, by `Manager.OpenSession` and `Manager.SessionManager.AdmitFront`, but is not carried to the end of the loop. For each new session the loop states its request, whether it is active and its limit. Carrying every session's state through every turn makes the proof too costly for the verifier.
- Manager.LimitOf: 0 stands in for an absent `max_async_sessions`. Every request the manager holds has the value, because `Manager.Admissible` is part of the manager's invariant.
- Sessions use the corrected head range `Heads.HeadRange`, not the one that throws (see Findings).
- Heads.HeadRange: for a range without a stop, the start bound is not enforced. The head then matches the whole subtree of its root, as the source's walk test does (`Steps.OpenStopMatchesSubtree`, and the first Findings row).
- Requests.MergeOverlapping and Requests.OptimizeRanges: they model the corrected WALK merge `Requests.Merge`, not the written one, which can drop OIDs the walk test admits (see Findings). The written loop is `Requests.MergeAsWritten`.
- Sessions record the corrected open error `Steps.OpenError` (see Findings).
- `module.cpp` (the Python bindings) is not part of this model. The conversions it performs on OIDs are modelled in `Coerce.ToArcs`.
- The rest of `snmp_stream/__init__.py` is not modelled: `get`, `walk`, the config and community coercions (from line 76), and the typed-dict plumbing. It calls the modelled manager and the modelled coercions.
- Coerce.PyInt: it models `int()` on ASCII digits, with a sign and underscores between digits. The surrounding whitespace is every character `str.isspace` accepts, as `Coerce.IsSpace` lists them. Unicode digits other than ASCII are not modelled.
- The Kaitai reader's substream objects (`KaitaiStream(BytesIO(...))`) are modelled as positions into one byte sequence, and the arc substream as its own `Stream`.
- The `EOFError` of `read_u*` is the same `EndOfStream` as that of `read_bytes`.
- Snapshot.SuboidsAt: when `suboid_size` is not 2, 4 or 8, the Python loop never ends on a non-empty substream. In the model it ends with `NoProgress`.

## Findings

| source | as written | input that shows it | evidently intended | confidence | as-written member | corrected member |
|---|---|---|---|---|---|---|
| snmp_stream/_snmp_stream/session.cpp:45-52 | the head range is built as `ObjectIdentityRange(root + start, root + stop)`, which throws whenever the stop is empty and the start and the root are not | WALK, root `.1.3`, range `(.1, none)`: the request constructor accepts it, then `.1.3.1 > .1.3` throws in the session constructor | the head constructor accepts every range the request constructor accepts. An empty stop then means "to the end of the root's subtree", as `process_var_bind`'s `is_root_of` test treats it (session.cpp:153); the head then matches the root's whole subtree, whatever the start (Steps.OpenStopMatchesSubtree) | not executed | Heads.HeadRangeAsWritten (Heads.HeadRangeAsWrittenCounterexample) | Heads.HeadRange (Heads.HeadRangeAgrees) |
| snmp_stream/_snmp_stream/types.cpp:143-154 | the WALK merge compares stops lexicographically with `>=` and skips a range whose start equals the previous start | `[(.1, .5.1), (.2, .5)]` becomes `[(.1, .5.1)]`, and `[(.1, .5.1), (.1, .5)]` becomes `[(.1, .5.1)]`; `process_var_bind`'s walk test (session.cpp:149-154) admits `.5.2` for the given ranges but not for the result | the merged ranges admit, under the walk test, exactly the OIDs the given ranges admit; a stop covers another when it is a root of it or an unrelated later OID | not executed | Requests.MergeAsWritten (Requests.MergeAsWrittenLosesMasked, Requests.MergeAsWrittenSkipsSameStart) | Requests.Merge (Requests.MergeMasks, Requests.OptimizedWalkMasks) |
| include/types.hpp:443-447 | `*max_response_var_binds_per_pdu < 0` on a `size_t` is never true | `Config(None, None, 0, None)` is accepted | reject 0, as the message "must be greater than 0" says | not executed | Configs.MakeConfigAsWritten (Configs.AsWrittenAdmitsZeroVarBinds) | Configs.MakeConfig (Configs.ConstructorsAgreeOtherwise) |
| snmp_stream/_snmp_stream/session.cpp:392-397 | `snmp_error(&session, &errno, ...)` stores the system error in the global `errno`; the uninitialised local `sys_errno` is what gets recorded | a failed open with errno 111 records whatever `sys_errno` held | record the library's system error number | not executed | Steps.OpenErrorAsWritten (Steps.OpenErrorAsWrittenLosesErrno) | Steps.OpenError |
