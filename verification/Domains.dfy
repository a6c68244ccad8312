/** Domain processing (UTS #46) as src/to_ascii.cpp and src/to_unicode.cpp do it, as functions,
    and the theorems about them. */
module Domains {
  import opened Basics
  import opened Utf8
  import opened Conversions
  import Transcoding
  import AsciiMapping
  import opened PunycodeIntegers
  import opened Punycode
  import opened UnicodeData
  import opened CanonicalOrder
  import Normalization
  import IdnaTable
  import Mapping
  import LabelRules
  import ValidityImpl

  const MAX_DOMAIN_INPUT_BYTES := 16384
  const DOT: Byte := 46

  /** What the tables say about code points. */
  datatype Data = Data(status: nat -> IdnaTable.Status, unicode: Unicode, properties: LabelRules.Properties)

  const ACE_PREFIX: seq<Byte> := [120, 110, 45, 45]

  // ---------------------------------------------------------------- label by label

  function Map(d: Data, s: Points): Option<Points> {
    Mapping.MapAll(d.status, s, |s|)
  }

  /** What a decoded ACE label has to be: not ASCII, stable under mapping and normalization, valid. */
  predicate Acceptable(d: Data, s: Points) {
    && !AllBasic(s) && Map(d, s) == Some(s) && Normalization.Nfc(d.unicode, s) == s
    && ValidityImpl.LabelOk(d.properties, s)
  }

  /** One label of `to_ascii`. */
  function AsciiLabel(d: Data, part: Points): (r: Option<seq<Byte>>)
    ensures r.Some? ==> AllBasic(r.value)
  {
    if part == [] then Some([])
    else if HasAcePrefix(part) then
      if !AllBasic(part) then None
      else
        match Decode(part[4..])
        case None => None
        case Some(u) => if Acceptable(d, u) then Some(part) else None
    else if AllBasic(part) then Some(part)
    else if !ValidityImpl.LabelOk(d.properties, part) then None
    else
      match Encode(part)
      case None => None
      case Some(e) =>
        EncodedIsAscii(part);
        Some(ACE_PREFIX + e)
  }

  /** End of the label that starts at `from`: the next dot, or the end. */
  function LabelEnd<T(==)>(s: seq<T>, dot: T, from: nat): (e: nat)
    requires from <= |s|
    ensures from <= e <= |s|
    ensures e < |s| ==> s[e] == dot
    ensures forall k :: from <= k < e ==> s[k] != dot
    decreases |s| - from
  {
    if from == |s| || s[from] == dot then from else LabelEnd(s, dot, from + 1)
  }

  /** The label walk of `to_ascii` from `from` on. */
  function AsciiLabels(d: Data, s: Points, from: nat): (r: Option<seq<Byte>>)
    requires from <= |s|
    ensures r.Some? ==> AllBasic(r.value)
    decreases |s| - from
  {
    if from == |s| then Some([])
    else
      var e := LabelEnd(s, DOT, from);
      match AsciiLabel(d, s[from..e])
      case None => None
      case Some(part) =>
        if e == |s| then Some(part)
        else
          match AsciiLabels(d, s, e + 1)
          case None => None
          case Some(rest) => Some(part + [DOT] + rest)
  }

  /** Code points of well-formed UTF-8. */
  function PointsOfUtf8(s: Octets): Option<Points> {
    match Transcoding.Decode(s, 0)
    case None => None
    case Some(u) => Some(PointsOf(u))
  }

  /** `to_ascii`. Normalization is skipped for ASCII. */
  function ToAscii(d: Data, input: Octets): Option<Octets> {
    if AsciiMapping.AllAscii(input) then Some(AsciiMapping.LowerAll(input))
    else if |input| > MAX_DOMAIN_INPUT_BYTES then None
    else
      match PointsOfUtf8(input)
      case None => None
      case Some(u) =>
        match Map(d, u)
        case None => None
        case Some(m) =>
          match AsciiLabels(d, Normalized(d, m), 0)
          case None => None
          case Some(out) => Some(Octs(out))
  }

  function Normalized(d: Data, m: Points): Points {
    if AllBasic(m) then m else Normalization.Nfc(d.unicode, m)
  }

  // ---------------------------------------------------------------- to_unicode

  predicate StartsWithAce(s: Octets) {
    |s| >= 4 && s[0] == 0x78 && s[1] == 0x6E && s[2] == 0x2D && s[3] == 0x2D
  }

  /** One label of `to_unicode`: the decoded form if it is acceptable, else the label itself. */
  function UnicodeLabel(d: Data, part: Octets): Octets {
    if StartsWithAce(part) && AsciiMapping.AllAscii(part) then
      match Decode(Ints(part[4..]))
      case None => part
      case Some(u) =>
        if Acceptable(d, u) && AllScalar(u) then Utf8Of(u) else part
    else part
  }

  lemma ScalarsFit(u: Points)
    requires AllScalar(u)
    ensures Fit(u) && Transcoding.AllScalars(WordsOf(u), |u|)
  {
    hide Scalar, WordOf;
    forall i | 0 <= i < |u| ensures Scalar(WordsOf(u)[i]) { ScalarAsInteger(WordsOf(u)[i]); }
  }

  function Utf8Of(u: Points): Octets
    requires AllScalar(u)
  {
    ScalarsFit(u);
    Transcoding.Encode(WordsOf(u), |u|)
  }

  /** The label walk of `to_unicode` from `from` on. */
  function UnicodeLabels(d: Data, s: Octets, from: nat): Octets
    requires from <= |s|
    decreases |s| - from
  {
    if from == |s| then []
    else
      var e := LabelEnd(s, 0x2E, from);
      if e == |s| then UnicodeLabel(d, s[from..e])
      else UnicodeLabel(d, s[from..e]) + [0x2E] + UnicodeLabels(d, s, e + 1)
  }

  /** `to_unicode`; `None` for input over the size limit. */
  function ToUnicode(d: Data, input: Octets): Option<Octets> {
    if |input| > MAX_DOMAIN_INPUT_BYTES then None else Some(UnicodeLabels(d, input, 0))
  }

  // ---------------------------------------------------------------- lower case

  predicate Upper(c: int) { 65 <= c <= 90 }

  predicate NoUpper(s: seq<int>) {
    forall i :: 0 <= i < |s| ==> !Upper(s[i])
  }

  /** No character of `s` has an upper-case letter of ASCII in its decomposition. */
  predicate DecomposesLower(u: Unicode, s: Points) {
    forall i :: 0 <= i < |s| ==> NoUpper(Full(u, s[i]))
  }

  /** Facts of the data: upper-case letters of ASCII do not decompose, and what mapping keeps or
      writes has none of them in its decomposition. */
  ghost predicate Lowercases(d: Data) {
    && Facts(d.unicode)
    && (forall c: nat :: Upper(c) ==> d.unicode.canonical(c) == [])
    && (forall c: nat :: d.status(c) == IdnaTable.Valid ==> NoUpper(Full(d.unicode, c)))
    && (forall c: nat :: d.status(c).Mapped? ==> DecomposesLower(d.unicode, d.status(c).cps))
  }

  lemma {:induction false} MapLowers(d: Data, s: Points, n: nat)
    requires Lowercases(d) && n <= |s| && Mapping.MapAll(d.status, s, n).Some?
    ensures DecomposesLower(d.unicode, Mapping.MapAll(d.status, s, n).value)
  {
    hide NoUpper, Full, Facts;
    if n > 0 { MapLowers(d, s, n - 1); }
  }

  lemma {:induction false} DecomposedLower(u: Unicode, s: Points)
    requires DecomposesLower(u, s)
    ensures NoUpper(Normalization.Decomposed(u, s))
  {
    if s != [] {
      hide Full;
      assert DecomposesLower(u, s[1..]) by { assert forall i :: 0 <= i < |s[1..]| ==> s[1..][i] == s[i + 1]; }
      DecomposedLower(u, s[1..]);
    }
  }

  lemma {:induction false} InDecomposed(u: Unicode, s: Points, c: nat)
    requires c in s && Full(u, c) == [c]
    ensures c in Normalization.Decomposed(u, s)
  {
    hide Full;
    if s[0] != c {
      assert c in s[1..] by {
        var i :| 0 <= i < |s| && s[i] == c;
        assert s[1..][i - 1] == c;
      }
      InDecomposed(u, s[1..], c);
    }
  }

  lemma UpperIsPlain(d: Data, c: nat)
    requires Lowercases(d) && Upper(c)
    ensures Full(d.unicode, c) == [c]
  {}

  lemma MemberOfSorted(u: Unicode, s: Points, c: nat)
    ensures c in Sorted(u, s) <==> c in s
  {
    SortedPermutes(u, s, |s|);
    assert s[..|s|] == s;
    assert c in multiset(Sorted(u, s)) <==> c in multiset(s);
  }

  /** An upper-case letter in the normalized text shows in the decomposition. */
  lemma UpperShows(d: Data, s: Points, c: nat)
    requires Lowercases(d) && c in Normalization.Nfc(d.unicode, s)
    ensures Upper(c) ==> c in Normalization.Decomposed(d.unicode, s)
  {
    if Upper(c) {
      var u, r := d.unicode, Normalization.Nfc(d.unicode, s);
      Normalization.NfcIdempotent(u, s);
      UpperIsPlain(d, c);
      InDecomposed(u, r, c);
      MemberOfSorted(u, Normalization.Decomposed(u, r), c);
      MemberOfSorted(u, Normalization.Decomposed(u, s), c);
    }
  }

  /** Normalization brings no upper-case letter in. */
  lemma NfcLower(d: Data, s: Points)
    requires Lowercases(d) && DecomposesLower(d.unicode, s)
    ensures NoUpper(Normalization.Nfc(d.unicode, s))
  {
    var r := Normalization.Nfc(d.unicode, s);
    DecomposedLower(d.unicode, s);
    hide Lowercases;
    forall i | 0 <= i < |r| ensures !Upper(r[i]) { UpperShows(d, s, r[i]); }
  }

  lemma LowerFull(d: Data, c: nat)
    requires Lowercases(d) && NoUpper(Full(d.unicode, c))
    ensures !Upper(c)
  {
    var f := Full(d.unicode, c);
    assert !Upper(f[0]);
    assert Upper(c) ==> f == [c];
  }

  lemma OwnLetter(d: Data, s: Points)
    requires Lowercases(d) && DecomposesLower(d.unicode, s)
    ensures NoUpper(s)
  {
    hide Lowercases;
    forall i | 0 <= i < |s| ensures !Upper(s[i]) { LowerFull(d, s[i]); }
  }

  lemma DigitsAreLower(t: seq<Byte>)
    requires forall j :: 0 <= j < |t| ==> DigitValue(t[j]) >= 0
    ensures NoUpper(t) && AllBasic(t)
  {}

  lemma {:induction false} BasicLower(s: Points, from: nat)
    requires from <= |s| && NoUpper(s)
    ensures NoUpper(BasicFrom(s, from))
    decreases |s| - from
  {
    if from < |s| { BasicLower(s, from + 1); }
  }

  lemma EncodedIsAscii(part: Points)
    requires Encode(part).Some?
    ensures AllBasic(Encode(part).value)
    ensures NoUpper(part) ==> NoUpper(Encode(part).value)
  {
    hide EncodeTail, DigitValue, BasicFrom;
    TailHasNoDelimiter(part);
    DigitsAreLower(EncodeTail(part).value);
    if NoUpper(part) { BasicLower(part, 0); }
  }

  /** What the label walk writes has no upper case if its input has none. */
  lemma {:induction false} LabelsLower(d: Data, s: Points, from: nat)
    requires from <= |s| && NoUpper(s) && AsciiLabels(d, s, from).Some?
    ensures NoUpper(AsciiLabels(d, s, from).value)
    decreases |s| - from
  {
    hide AsciiLabel, NoUpper, LabelEnd;
    if from == |s| {
      NothingUpper();
    } else {
      var e := LabelEnd(s, DOT, from);
      SliceLower(s, from, e);
      LabelLower(d, s[from..e]);
      if e < |s| {
        LabelsLower(d, s, e + 1);
        JoinLower(AsciiLabel(d, s[from..e]).value, AsciiLabels(d, s, e + 1).value);
      }
    }
  }

  lemma NothingUpper()
    ensures NoUpper([])
  {}

  lemma SliceLower(s: Points, from: nat, to: nat)
    requires NoUpper(s) && from <= to <= |s|
    ensures NoUpper(s[from..to])
  {}

  lemma JoinLower(a: seq<Byte>, b: seq<Byte>)
    requires NoUpper(a) && NoUpper(b)
    ensures NoUpper(a + [DOT] + b)
  {}

  lemma LabelLower(d: Data, part: Points)
    requires NoUpper(part) && AsciiLabel(d, part).Some?
    ensures NoUpper(AsciiLabel(d, part).value)
  {
    hide Decode, Encode, Acceptable;
    if !HasAcePrefix(part) && !AllBasic(part) { EncodedIsAscii(part); }
  }

  lemma LowerOctet(b: bv8)
    ensures b < 0x80 ==> AsciiMapping.Lower(b) < 0x80
    ensures b < 0x80 ==> AsciiMapping.Lower(AsciiMapping.Lower(b)) == AsciiMapping.Lower(b)
  {}

  lemma PlainOctet(b: Byte)
    requires b < 0x80
    ensures OctetOf(b) < 0x80
    ensures !Upper(b) ==> AsciiMapping.Lower(OctetOf(b)) == OctetOf(b)
  {
    hide OctetOf;
    IsSmall(OctetOf(b));
  }

  lemma IsSmall(b: bv8)
    ensures b as int < 0x80 <==> b < 0x80
    ensures !(65 <= b as int <= 90) ==> AsciiMapping.Lower(b) == b
  {}

  /** `to_ascii` of its own successful output is that output. */
  lemma ToAsciiIdempotent(d: Data, input: Octets)
    requires Lowercases(d) && ToAscii(d, input).Some?
    ensures ToAscii(d, ToAscii(d, input).value) == ToAscii(d, input)
  {
    var out := ToAscii(d, input).value;
    if AsciiMapping.AllAscii(input) {
      hide AsciiMapping.Lower;
      forall i | 0 <= i < |out| ensures out[i] < 0x80 && AsciiMapping.Lower(out[i]) == out[i] { LowerOctet(input[i]); }
      assert AsciiMapping.LowerAll(out) == out;
    } else {
      OutputLower(d, input);
      hide AsciiLabels, Map, PointsOfUtf8, Lowercases, AsciiMapping.Lower;
      var s := AsciiLabels(d, Normalized(d, Map(d, PointsOfUtf8(input).value).value), 0).value;
      forall i | 0 <= i < |out| ensures out[i] < 0x80 && AsciiMapping.Lower(out[i]) == out[i] { PlainOctet(s[i]); }
      assert AsciiMapping.LowerAll(out) == out;
    }
  }

  lemma OutputLower(d: Data, input: Octets)
    requires Lowercases(d) && !AsciiMapping.AllAscii(input) && ToAscii(d, input).Some?
    ensures NoUpper(AsciiLabels(d, Normalized(d, Map(d, PointsOfUtf8(input).value).value), 0).value)
  {
    hide AsciiLabels, PointsOfUtf8, Lowercases, DecomposesLower, Mapping.MapAll;
    var u := PointsOfUtf8(input).value;
    var m := Map(d, u).value;
    MapLowers(d, u, |u|);
    if AllBasic(m) { OwnLetter(d, m); } else { NfcLower(d, m); }
    LabelsLower(d, Normalized(d, m), 0);
  }

  // ---------------------------------------------------------------- what to_unicode emits

  /** `to_unicode` replaces the ACE label `part`. */
  predicate Replaced(d: Data, part: Octets) {
    StartsWithAce(part) && AsciiMapping.AllAscii(part)
    && match Decode(Ints(part[4..]))
       case None => false
       case Some(u) => Acceptable(d, u) && AllScalar(u)
  }

  lemma Utf8RoundTrip(u: Points)
    requires AllScalar(u)
    ensures PointsOfUtf8(Utf8Of(u)) == Some(u)
  {
    ScalarsFit(u);
    Transcoding.DecodeEncode(WordsOf(u));
    PointsOfWords(u);
  }

  lemma AcePrefixInts(part: Octets)
    requires StartsWithAce(part)
    ensures Ints(part) == ACE_PREFIX + Ints(part[4..])
  {
    PrefixValues();
    assert part == part[..4] + part[4..];
  }

  lemma PrefixValues()
    ensures (0x78 as bv8) as int == 120 && (0x6E as bv8) as int == 110 && (0x2D as bv8) as int == 45 &&
        (0x2E as bv8) as int == 46
  {}

  /** Where an ACE label is replaced, the emitted text is UTF-8 of code points that re-encode to the
      ACE label; every other label is kept as it is. */
  lemma EmittedReencodes(d: Data, part: Octets)
    ensures !Replaced(d, part) ==> UnicodeLabel(d, part) == part
    ensures Replaced(d, part) ==>
      && PointsOfUtf8(UnicodeLabel(d, part)).Some?
      && var u := PointsOfUtf8(UnicodeLabel(d, part)).value;
         && Acceptable(d, u) && Encode(u).Some? && ACE_PREFIX + Encode(u).value == Ints(part)
  {
    hide Decode, Encode, Acceptable, AllScalar, AsciiMapping.AllAscii;
    if Replaced(d, part) {
      var payload := Ints(part[4..]);
      var u := Decode(payload).value;
      Utf8RoundTrip(u);
      EncodeDecode(payload);
      AcePrefixInts(part);
    }
  }

  // ---------------------------------------------------------------- to_ascii after to_unicode

  lemma {:induction false} BasicKeeps(s: Points, from: nat, j: nat)
    requires from <= j < |s| && s[j] < 0x80
    ensures s[j] in BasicFrom(s, from)
    decreases |s| - from
  {
    if from < j { BasicKeeps(s, from + 1, j); }
  }

  /** A basic code point of the output stands in the payload. */
  lemma BasicFromPayload(payload: seq<Byte>, c: nat)
    requires Decode(payload).Some? && c < 0x80 && c in Decode(payload).value
    ensures c in payload
  {
    hide DecodeFrom, EncodeTail, LastDelimiter;
    var u := Decode(payload).value;
    var (basic, encoded) := Split(payload);
    ReencodeParts(basic, encoded, u);
    var j :| 0 <= j < |u| && u[j] == c;
    BasicKeeps(u, 0, j);
    assert c in basic;
  }

  lemma {:induction false} NoDotEnd(s: Points, from: nat)
    requires from <= |s| && forall k :: 0 <= k < |s| ==> s[k] != DOT
    ensures LabelEnd(s, DOT, from) == |s|
    decreases |s| - from
  {
    if from < |s| { NoDotEnd(s, from + 1); }
  }

  lemma NotAscii(u: Points)
    requires AllScalar(u) && !AllBasic(u)
    ensures !AsciiMapping.AllAscii(Utf8Of(u))
  {
    ScalarsFit(u);
    var w := WordsOf(u);
    var i :| 0 <= i < |u| && u[i] >= 0x80;
    Transcoding.EncodedThere(w, i);
    var s, p := Transcoding.Encode(w, |u|), |Transcoding.Encode(w, i)|;
    assert w[i] as int == u[i];
    hide Transcoding.Encode, WordOf, CharLength, CodePoint;
    LeadNotAscii(s, p);
  }

  lemma LeadNotAscii(s: Octets, p: nat)
    requires p < |s| && CharLength(s, p) > 0 && CodePoint(s, p) as int >= 0x80
    ensures !AsciiMapping.AllAscii(s)
  {
    AsciiByte(s[p]);
    assert CharLength(s, p) == 1 ==> CodePoint(s, p) == s[p] as bv32;
    hide Two, Three, Four;
  }

  lemma AsciiByte(b: bv8)
    ensures b < 0x80 <==> b <= 0x7F
    ensures b <= 0x7F ==> (b as bv32) as int < 0x80
  {}

  /** A replaced ACE label comes back through `to_ascii` exactly if its text is within the size
      limit; otherwise `to_ascii` fails. */
  lemma AceLabelRoundTrip(d: Data, part: Octets)
    requires Replaced(d, part) && (forall k :: 0 <= k < |part| ==> part[k] != 0x2E)
    ensures ToAscii(d, UnicodeLabel(d, part))
         == if |UnicodeLabel(d, part)| <= MAX_DOMAIN_INPUT_BYTES then Some(part) else None
  {
    hide Decode, Encode, AllScalar, AsciiMapping.AllAscii, AsciiLabel, AsciiLabels, Utf8Of;
    var payload := Ints(part[4..]);
    var u := Decode(payload).value;
    Utf8RoundTrip(u);
    NotAscii(u);
    DotFree(part, u);
    OneLabel(d, u);
    EncodeDecode(payload);
    AcePrefixInts(part);
    DecodedNoAce(payload);
    LabelOfPoints(d, u);
    OctsOfInts(part);
  }

  lemma DecodedNoAce(payload: seq<Byte>)
    requires Decode(payload).Some?
    ensures !HasAcePrefix(Decode(payload).value)
  {
    hide DecodeFrom, Split;
  }

  lemma LabelOfPoints(d: Data, u: Points)
    requires Acceptable(d, u) && !HasAcePrefix(u) && Encode(u).Some?
    ensures AsciiLabel(d, u) == Some(ACE_PREFIX + Encode(u).value)
  {
    hide Encode, Normalization.Nfc, Map;
  }

  lemma DotFree(part: Octets, u: Points)
    requires |part| >= 4 && Decode(Ints(part[4..])) == Some(u)
    requires forall k :: 0 <= k < |part| ==> part[k] != 0x2E
    ensures forall k :: 0 <= k < |u| ==> u[k] != DOT
  {
    hide Decode;
    forall k | 0 <= k < |u| ensures u[k] != DOT {
      DotShows(part, u, k);
    }
  }

  lemma DotShows(part: Octets, u: Points, k: nat)
    requires |part| >= 4 && Decode(Ints(part[4..])) == Some(u) && k < |u|
    ensures u[k] == DOT ==> exists j :: 0 <= j < |part| && part[j] == 0x2E
  {
    hide Decode;
    if u[k] == DOT {
      BasicFromPayload(Ints(part[4..]), DOT);
      var j :| 0 <= j < |Ints(part[4..])| && Ints(part[4..])[j] == DOT;
      DotOctet(part[4..][j]);
      assert part[j + 4] == part[4..][j];
    }
  }

  lemma DotOctet(b: bv8)
    requires b as int == 46
    ensures b == 0x2E
  {}

  lemma OneLabel(d: Data, u: Points)
    requires u != [] && forall k :: 0 <= k < |u| ==> u[k] != DOT
    ensures AsciiLabels(d, u, 0) == AsciiLabel(d, u)
  {
    hide AsciiLabel;
    NoDotEnd(u, 0);
    assert u[0..|u|] == u;
  }
}
