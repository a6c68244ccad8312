/** What `to_ascii` does to text that is not ASCII: canonically equivalent text gives the same name,
    and `to_unicode` of the name gives the normalized text back. */
module DomainLaws {
  import opened Basics
  import opened Utf8
  import opened Conversions
  import Transcoding
  import AsciiMapping
  import opened PunycodeIntegers
  import opened Punycode
  import opened UnicodeData
  import opened CanonicalOrder
  import opened Normalization
  import opened NormalizationStops
  import IdnaTable
  import Mapping
  import opened Domains
  import opened DomainRoundTrip
  import ValidityImpl

  // ---------------------------------------------------------------- normalization

  /** The shortcut for ASCII makes no difference. */
  lemma NormalizedIsNfc(d: Data, m: Points)
    requires PlainAscii(d)
    ensures Normalized(d, m) == Nfc(d.unicode, m)
  {
    hide Opens, Nfc, Facts;
    if AllBasic(m) { NfcOpens(d.unicode, m); }
  }

  /** What `to_ascii` normalizes: the mapped code points of the input. */
  function Mapped(d: Data, x: Octets): Option<Points> {
    match PointsOfUtf8(x)
    case None => None
    case Some(u) => Map(d, u)
  }

  lemma ToAsciiOfMapped(d: Data, x: Octets)
    requires PlainAscii(d) && !AsciiMapping.AllAscii(x)
    ensures ToAscii(d, x) == if |x| > 16384 || Mapped(d, x).None? then None
                             else match AsciiLabels(d, Nfc(d.unicode, Mapped(d, x).value), 0)
                                  case None => None
                                  case Some(out) => Some(Octs(out))
  {
    hide PlainAscii, Nfc, AsciiLabels, PointsOfUtf8, Mapping.MapAll;
    if Mapped(d, x).Some? { NormalizedIsNfc(d, Mapped(d, x).value); }
  }

  /** Inputs within the limit that map to canonically equivalent text have the same result. */
  lemma EquivalentInputs(d: Data, x: Octets, y: Octets)
    requires PlainAscii(d) && !AsciiMapping.AllAscii(x) && !AsciiMapping.AllAscii(y) && |x| <= 16384 && |y| <= 16384
    requires Mapped(d, x).Some? && Mapped(d, y).Some?
    requires Equivalent(d.unicode, Mapped(d, x).value, Mapped(d, y).value)
    ensures ToAscii(d, x) == ToAscii(d, y)
  {
    hide Equivalent, Nfc, Mapped, ToAscii, AsciiLabels, Facts, Opens;
    ToAsciiOfMapped(d, x);
    ToAsciiOfMapped(d, y);
    NfcDecidesEquivalence(d.unicode, Mapped(d, x).value, Mapped(d, y).value);
  }

  // ---------------------------------------------------------------- valid text stays valid

  predicate AllValid(d: Data, s: Points) {
    forall i :: 0 <= i < |s| ==> d.status(s[i]) == IdnaTable.Valid
  }

  /** Facts of the data: decompositions of what mapping keeps or writes are valid, composites of valid
      characters are valid, and so are Hangul syllables. */
  ghost predicate ClosedData(d: Data) {
    && PlainAscii(d)
    && (forall c: nat :: d.status(c) == IdnaTable.Valid ==> AllValid(d, Full(d.unicode, c)))
    && (forall c: nat, i: nat :: d.status(c).Mapped? && i < |d.status(c).cps| ==>
          AllValid(d, Full(d.unicode, d.status(c).cps[i])))
    && (forall a: nat, b: nat ::
          d.unicode.pair(a, b).Some? && d.status(a) == d.status(b) == IdnaTable.Valid ==>
            d.status(d.unicode.pair(a, b).value) == IdnaTable.Valid)
    && (forall c: nat :: IsSyllable(c) ==> d.status(c) == IdnaTable.Valid)
  }

  lemma ValidJoin(d: Data, a: Points, b: Points)
    ensures AllValid(d, a + b) <==> AllValid(d, a) && AllValid(d, b)
  {
    if AllValid(d, a + b) {
      assert forall i :: 0 <= i < |a| ==> (a + b)[i] == a[i];
      assert forall i :: 0 <= i < |b| ==> (a + b)[|a| + i] == b[i];
    }
  }

  lemma {:induction false} DecomposedValid(d: Data, s: Points)
    requires forall i :: 0 <= i < |s| ==> AllValid(d, Full(d.unicode, s[i]))
    ensures AllValid(d, Decomposed(d.unicode, s))
  {
    hide AllValid, Full;
    if s == [] {
      NothingInvalid(d);
    } else {
      assert forall i :: 0 <= i < |s[1..]| ==> s[1..][i] == s[i + 1];
      DecomposedValid(d, s[1..]);
      ValidJoin(d, Full(d.unicode, s[0]), Decomposed(d.unicode, s[1..]));
    }
  }

  lemma NothingInvalid(d: Data)
    ensures AllValid(d, [])
  {}

  lemma {:induction false} MappedDecomposesValid(d: Data, s: Points, n: nat)
    requires ClosedData(d) && n <= |s| && Mapping.MapAll(d.status, s, n).Some?
    ensures var m := Mapping.MapAll(d.status, s, n).value;
            forall i :: 0 <= i < |m| ==> AllValid(d, Full(d.unicode, m[i]))
  {
    hide AllValid, Full, PlainAscii;
    if n > 0 { MappedDecomposesValid(d, s, n - 1); }
  }

  /** Composition of valid text is valid. */
  lemma {:induction false} ComposeValid(d: Data, s: Points)
    requires ClosedData(d) && AllValid(d, s)
    ensures AllValid(d, Compose(d.unicode, s))
    decreases |s|, 1
  {
    hide ComposeOnto, ComposeLV, ComposeLVT, PlainAscii, Full;
    if s != [] {
      var c := s[0];
      var n := if IsL(c) && |s| > 1 && IsV(s[1]) then (if |s| > 2 && IsT(s[2]) then 3 else 2)
               else if IsLV(c) && |s| > 1 && IsT(s[1]) then 2 else 1;
      ValidRest(d, s, n);
      ValidRest(d, s, 1);
      if !IsL(c) && !IsSyllable(c) && c < 0x110000 {
        OntoValid(d, c, -1, [], s[1..]);
      } else {
        ComposeValid(d, s[n..]);
        ValidJoin(d, [Compose(d.unicode, s)[0]], Compose(d.unicode, s[n..]));
      }
    }
  }

  lemma ValidRest(d: Data, s: Points, n: nat)
    requires AllValid(d, s) && n <= |s|
    ensures AllValid(d, s[n..])
  {}

  lemma {:induction false} OntoValid(d: Data, base: nat, p: int, kept: Points, s: Points)
    requires ClosedData(d) && d.status(base) == IdnaTable.Valid && AllValid(d, kept) && AllValid(d, s)
    ensures AllValid(d, ComposeOnto(d.unicode, base, p, kept, s))
    decreases |s|, 2
  {
    hide Compose, PlainAscii, Full;
    if s != [] {
      var c := s[0];
      ValidRest(d, s, 1);
      if p < d.unicode.ccc(c) && d.unicode.pair(base, c).Some? {
        OntoValid(d, d.unicode.pair(base, c).value, p, kept, s[1..]);
      } else if d.unicode.ccc(c) == 0 {
        ComposeValid(d, s);
        ValidJoin(d, [base] + kept, Compose(d.unicode, s));
      } else {
        OntoValid(d, base, d.unicode.ccc(c), kept + [c], s[1..]);
      }
    }
  }

  /** Mapped text is valid once decomposed and put in order. */
  lemma NfdValid(d: Data, s: Points)
    requires ClosedData(d) && Map(d, s).Some?
    ensures AllValid(d, Nfd(d.unicode, Map(d, s).value))
  {
    hide Full, ClosedData, Sorted, Mapping.MapAll;
    var m := Map(d, s).value;
    MappedDecomposesValid(d, s, |s|);
    DecomposedValid(d, m);
    var e, t := Decomposed(d.unicode, m), Nfd(d.unicode, m);
    forall i | 0 <= i < |t| ensures d.status(t[i]) == IdnaTable.Valid {
      SortedMember(d.unicode, e, t[i]);
    }
  }

  // ---------------------------------------------------------------- labels of normalized text

  predicate NoDot(s: Points) {
    forall k :: 0 <= k < |s| ==> s[k] != DOT
  }

  /** Every label from `from` on is left alone by mapping and normalization. */
  predicate LabelsStable(d: Data, s: Points, from: nat)
    requires from <= |s|
    decreases |s| - from
  {
    from == |s| ||
    var e := LabelEnd(s, DOT, from);
    Stable(d, s[from..e]) && (e == |s| || LabelsStable(d, s, e + 1))
  }

  lemma {:induction false} StableShift(d: Data, s: Points, t: Points, k: nat)
    requires k <= |t|
    ensures LabelsStable(d, s + t, |s| + k) == LabelsStable(d, t, k)
    decreases |t| - k
  {
    hide Stable, LabelEnd;
    if k < |t| {
      var e := LabelEnd(t, DOT, k);
      EndShift(s, t, k);
      assert (s + t)[|s| + k..|s| + e] == t[k..e];
      if e < |t| { StableShift(d, s, t, e + 1); }
    }
  }

  lemma LabelsStableJoin(d: Data, a: Points, b: Points)
    requires NoDot(a)
    ensures LabelsStable(d, a + ([DOT] + b), 0) <==> Stable(d, a) && LabelsStable(d, b, 0)
  {
    hide Stable, LabelEnd;
    var s := a + ([DOT] + b);
    EndAtDot(a, b, 0);
    assert s[0..|a|] == a;
    assert s == (a + [DOT]) + b;
    StableShift(d, a + [DOT], b, 0);
  }

  lemma LabelsStableOne(d: Data, a: Points)
    requires NoDot(a) && Stable(d, a)
    ensures LabelsStable(d, a, 0)
  {
    hide Stable, LabelEnd;
    NoDotEnd(a, 0);
    assert a[0..|a|] == a;
  }

  /** No dot comes out of composition that did not go in. */
  lemma NoDotComposed(u: Unicode, s: Points)
    requires Facts(u) && Undecomposable(u, s) && Ordered(u, s) && NoDot(s) && Full(u, DOT) == [DOT]
    ensures NoDot(Compose(u, s))
  {
    hide Facts, Undecomposable, Ordered, Compose, Sorted, Full;
    var r := Compose(u, s);
    NfdOfCompose(u, s);
    forall k | 0 <= k < |r| ensures r[k] != DOT {
      if r[k] == DOT {
        InDecomposed(u, r, DOT);
        MemberOfSorted(u, Decomposed(u, r), DOT);
      }
    }
  }

  lemma ComposedStable(d: Data, s: Points)
    requires ClosedData(d) && Undecomposable(d.unicode, s) && Ordered(d.unicode, s) && AllValid(d, s)
    ensures Stable(d, Compose(d.unicode, s))
  {
    hide Undecomposable, Ordered, Compose, Nfd;
    var r := Compose(d.unicode, s);
    NfdOfCompose(d.unicode, s);
    ComposeValid(d, s);
    MapsToItself(d, r, |r|);
    assert r[..|r|] == r;
  }

  /** Decomposed, in canonical order and valid. */
  predicate Ready(d: Data, s: Points) {
    Undecomposable(d.unicode, s) && Ordered(d.unicode, s) && AllValid(d, s)
  }

  /** What stands before and behind a dot is so, too. */
  lemma ReadyParts(d: Data, s: Points, e: nat)
    requires Ready(d, s) && e <= |s|
    ensures Ready(d, s[..e]) && (e < |s| ==> Ready(d, s[e + 1..]))
  {
    OrderedPrefix(d.unicode, s, e);
    if e < |s| { SuffixFacts(d.unicode, s, e + 1); }
    hide Undecomposable, Ordered;
    assert Undecomposable(d.unicode, s[..e]) by { UndecomposablePrefix(d.unicode, s, e); }
  }

  lemma UndecomposablePrefix(u: Unicode, s: Points, n: nat)
    requires Undecomposable(u, s) && n <= |s|
    ensures Undecomposable(u, s[..n])
  {}

  /** A label of such text composes to a stable label without dots. */
  lemma LabelComposes(d: Data, a: Points)
    requires ClosedData(d) && Ready(d, a) && NoDot(a)
    ensures NoDot(Compose(d.unicode, a)) && Stable(d, Compose(d.unicode, a))
  {
    UsesPlainAscii(d);
    DotFacts(d);
    hide ClosedData, Facts, IsStop, Full, Undecomposable, Ordered, AllValid, NoDot, Stable, Compose;
    NoDotComposed(d.unicode, a);
    ComposedStable(d, a);
  }

  lemma FirstLabel(s: Points, e: nat)
    requires e == LabelEnd(s, DOT, 0)
    ensures NoDot(s[..e]) && (if e == |s| then s[..e] == s else s == s[..e] + ([DOT] + s[e + 1..]))
  {
    hide LabelEnd, NoDot;
    PrefixNoDot(s, e);
    SplitAt(s, e);
  }

  lemma SplitAt(s: Points, e: nat)
    requires e <= |s| && (e < |s| ==> s[e] == DOT)
    ensures if e == |s| then s[..e] == s else s == s[..e] + ([DOT] + s[e + 1..])
  {
    if e < |s| { AroundDot(s, e); }
  }

  lemma PrefixNoDot(s: Points, e: nat)
    requires e <= |s| && forall k :: 0 <= k < e ==> s[k] != DOT
    ensures NoDot(s[..e])
  {}

  lemma AroundDot(s: Points, e: nat)
    requires e < |s| && s[e] == DOT
    ensures s == s[..e] + ([DOT] + s[e + 1..])
  {}

  lemma ComposeAtDot(d: Data, a: Points, b: Points)
    requires ClosedData(d)
    ensures Compose(d.unicode, a + ([DOT] + b)) == Compose(d.unicode, a) + ([DOT] + Compose(d.unicode, b))
  {
    UsesPlainAscii(d);
    DotFacts(d);
    hide ClosedData, Facts, IsStop, Compose;
    ComposeStop(d.unicode, a, DOT, b);
  }

  lemma DotFacts(d: Data)
    requires PlainAscii(d)
    ensures Facts(d.unicode) && IsStop(d.unicode, DOT) && Full(d.unicode, DOT) == [DOT]
  {
    StopIsFull(d.unicode, DOT);
  }

  lemma UsesPlainAscii(d: Data)
    requires ClosedData(d)
    ensures PlainAscii(d)
  {}

  /** All labels of the composition of valid, decomposed, ordered text are stable. */
  lemma {:induction false} LabelsOfComposition(d: Data, s: Points)
    requires ClosedData(d) && Ready(d, s)
    ensures LabelsStable(d, Compose(d.unicode, s), 0)
    decreases |s|
  {
    hide ClosedData, Ready, Compose, LabelEnd, LabelsStable, NoDot, Stable;
    var e := LabelEnd(s, DOT, 0);
    FirstLabel(s, e);
    ReadyParts(d, s, e);
    LabelComposes(d, s[..e]);
    if e == |s| {
      LabelsStableOne(d, Compose(d.unicode, s));
    } else {
      LabelsOfComposition(d, s[e + 1..]);
      ComposeAtDot(d, s[..e], s[e + 1..]);
      LabelsStableJoin(d, Compose(d.unicode, s[..e]), Compose(d.unicode, s[e + 1..]));
    }
  }

  lemma LabelsOfNormalized(d: Data, s: Points)
    requires ClosedData(d) && Map(d, s).Some?
    ensures LabelsStable(d, Nfc(d.unicode, Map(d, s).value), 0)
  {
    UsesPlainAscii(d);
    DotFacts(d);
    hide ClosedData, PlainAscii, LabelsStable, AllValid, Compose, Nfd, Undecomposable, Ordered, Mapping.MapAll;
    var m := Map(d, s).value;
    NfdValid(d, s);
    NfdUndecomposable(d.unicode, m);
    LabelsOfComposition(d, Nfd(d.unicode, m));
  }

  // ---------------------------------------------------------------- what to_unicode shows

  /** What `to_unicode` shows for a label that `to_ascii` accepted: an ACE label decoded, and a label
      that is not ASCII as it was if it decodes again, else in its ACE form. */
  function ShownLabel(d: Data, p: Points): Points {
    if AllBasic(p) then
      if HasAcePrefix(p) && Decode(p[4..]).Some? && AllScalar(Decode(p[4..]).value) then Decode(p[4..]).value else p
    else if Decodable(p) || Encode(p).None? then p
    else ACE_PREFIX + Encode(p).value
  }

  function Shown(d: Data, s: Points, from: nat): Points
    requires from <= |s|
    decreases |s| - from
  {
    if from == |s| then []
    else
      var e := LabelEnd(s, DOT, from);
      if e == |s| then ShownLabel(d, s[from..e]) else ShownLabel(d, s[from..e]) + ([DOT] + Shown(d, s, e + 1))
  }

  lemma IntsOfOcts(s: seq<Byte>)
    ensures Ints(Octs(s)) == s
  {
    hide OctetOf;
    forall i | 0 <= i < |s| ensures Ints(Octs(s))[i] == s[i] {
      assert Octs(s)[i] == OctetOf(s[i]);
    }
  }

  lemma OctsAscii(s: seq<Byte>)
    requires AllBasic(s)
    ensures AsciiMapping.AllAscii(Octs(s)) && AllScalar(s) && Utf8Of(s) == Octs(s)
  {
    hide OctetOf;
    IntsOfOcts(s);
    forall i | 0 <= i < |s| ensures Octs(s)[i] < 0x80 { PlainOctet(s[i]); }
    AsciiUtf8(Octs(s));
  }

  lemma OctsPrefix(s: seq<Byte>)
    ensures StartsWithAce(Octs(s)) <==> HasAcePrefix(s)
    ensures HasAcePrefix(s) ==> Ints(Octs(s)[4..]) == s[4..]
  {
    IntsOfOcts(s);
    StartsInts(Octs(s));
    hide Octs;
  }

  /** An encoded label has no dot if the label has none. */
  lemma {:induction false} BasicNoDot(s: Points, from: nat)
    requires from <= |s| && NoDot(s)
    ensures NoDot(BasicFrom(s, from))
    decreases |s| - from
  {
    if from < |s| { BasicNoDot(s, from + 1); }
  }

  lemma EncodedNoDot(p: Points)
    requires Encode(p).Some? && NoDot(p)
    ensures NoDot(ACE_PREFIX + Encode(p).value) && AllBasic(ACE_PREFIX + Encode(p).value)
  {
    hide EncodeTail, DigitValue, BasicFrom;
    TailHasNoDelimiter(p);
    DigitsNoDot(EncodeTail(p).value);
    BasicNoDot(p, 0);
    EncodedIsAscii(p);
  }

  lemma DigitsNoDot(t: seq<Byte>)
    requires forall j :: 0 <= j < |t| ==> DigitValue(t[j]) >= 0
    ensures NoDot(t)
  {}

  /** A label that `to_ascii` accepts unchanged. */
  lemma AsciiLabelBack(d: Data, p: Points)
    requires AllBasic(p) && NoDot(p) && AsciiLabel(d, p).Some?
    ensures AsciiLabel(d, p) == Some(p)
    ensures AllScalar(ShownLabel(d, p)) && UnicodeLabel(d, Octs(p)) == Utf8Of(ShownLabel(d, p))
  {
    OctsAscii(p);
    OctsPrefix(p);
    hide Decode, Encode, Acceptable, AllScalar, Utf8Of, Octs, ValidityImpl.LabelOk, Decodable, AllBasic, HasAcePrefix;
    NothingAce(p);
  }

  lemma NothingAce(p: Points)
    ensures p == [] ==> !HasAcePrefix(p)
  {}

  /** What `to_unicode` makes of an ACE label. */
  lemma UnicodeOfAce(d: Data, e: seq<Byte>)
    requires AllBasic(e) && HasAcePrefix(e)
    ensures UnicodeLabel(d, Octs(e)) == match Decode(e[4..])
                                        case None => Octs(e)
                                        case Some(u) => if Acceptable(d, u) && AllScalar(u) then Utf8Of(u) else Octs(e)
  {
    OctsAscii(e);
    OctsPrefix(e);
    hide Decode, Acceptable, AllScalar, Utf8Of, Octs, AllBasic, HasAcePrefix;
  }

  lemma EncodedLabelIs(d: Data, p: Points)
    requires !AllBasic(p) && Stable(d, p) && AsciiLabel(d, p).Some?
    ensures Encode(p).Some? && AllScalar(p) && !HasAcePrefix(p) && Acceptable(d, p)
    ensures AsciiLabel(d, p) == Some(ACE_PREFIX + Encode(p).value)
  {
    NotBasicNonempty(p);
    StableMeans(d, p);
    EncodesScalars(p);
    hide Decode, Encode, AllScalar, ValidityImpl.LabelOk, Map, Nfc, Stable;
  }

  /** A label that `to_ascii` encodes. */
  lemma EncodedLabelBack(d: Data, p: Points)
    requires !AllBasic(p) && NoDot(p) && Stable(d, p) && AsciiLabel(d, p).Some?
    ensures NoDot(AsciiLabel(d, p).value)
    ensures AllScalar(p) && AllScalar(ShownLabel(d, p))
    ensures UnicodeLabel(d, Octs(AsciiLabel(d, p).value)) == Utf8Of(ShownLabel(d, p))
  {
    EncodedLabelIs(d, p);
    hide Decode, Encode, AllScalar, Utf8Of, Octs, Decodable, AllBasic, Stable, NoDot, AsciiLabel, UnicodeLabel,
        Acceptable, HasAcePrefix;
    var e := ACE_PREFIX + Encode(p).value;
    EncodedNoDot(p);
    AfterPrefix(Encode(p).value);
    OctsAscii(e);
    UnicodeOfAce(d, e);
    DecodeEncode(p);
  }

  lemma NotBasicNonempty(p: Points)
    ensures !AllBasic(p) ==> p != []
  {}

  lemma EncodesScalars(p: Points)
    ensures Encode(p).Some? ==> AllScalar(p)
  {}

  lemma AfterPrefix(t: seq<Byte>)
    ensures HasAcePrefix(ACE_PREFIX + t) && (ACE_PREFIX + t)[4..] == t
  {}

  lemma LabelBack(d: Data, p: Points)
    requires NoDot(p) && Stable(d, p) && AsciiLabel(d, p).Some?
    ensures NoDot(AsciiLabel(d, p).value)
    ensures AllScalar(p) && AllScalar(ShownLabel(d, p))
    ensures UnicodeLabel(d, Octs(AsciiLabel(d, p).value)) == Utf8Of(ShownLabel(d, p))
  {
    hide Stable, AsciiLabel, ShownLabel, UnicodeLabel, Utf8Of, Octs;
    if AllBasic(p) {
      AsciiLabelBack(d, p);
    } else {
      EncodedLabelBack(d, p);
    }
  }

  // The same walk over bytes.

  lemma {:induction false} ByteEndShift(s: Octets, t: Octets, k: nat)
    requires k <= |t|
    ensures LabelEnd(s + t, 0x2E, |s| + k) == |s| + LabelEnd(t, 0x2E, k)
    decreases |t| - k
  {
    if k < |t| {
      assert (s + t)[|s| + k] == t[k];
      ByteEndShift(s, t, k + 1);
    }
  }

  lemma {:induction false} ByteWalkShift(d: Data, s: Octets, t: Octets, k: nat)
    requires k <= |t|
    ensures UnicodeLabels(d, s + t, |s| + k) == UnicodeLabels(d, t, k)
    decreases |t| - k
  {
    hide UnicodeLabel, LabelEnd;
    if k < |t| {
      var e := LabelEnd(t, 0x2E, k);
      ByteEndShift(s, t, k);
      assert (s + t)[|s| + k..|s| + e] == t[k..e];
      if e < |t| { ByteWalkShift(d, s, t, e + 1); }
    }
  }

  predicate NoDotByte(s: Octets) {
    forall k :: 0 <= k < |s| ==> s[k] != 0x2E
  }

  lemma {:induction false} ByteEndAtDot(a: Octets, b: Octets, k: nat)
    requires k <= |a| && NoDotByte(a)
    ensures LabelEnd(a + ([0x2E] + b), 0x2E, k) == |a| && LabelEnd(a, 0x2E, k) == |a|
    decreases |a| - k
  {
    assert (a + ([0x2E] + b))[|a|] == 0x2E;
    if k < |a| {
      assert (a + ([0x2E] + b))[k] == a[k];
      ByteEndAtDot(a, b, k + 1);
    }
  }

  lemma ByteWalkJoin(d: Data, a: Octets, b: Octets)
    requires NoDotByte(a)
    ensures UnicodeLabels(d, a + ([0x2E] + b), 0) == UnicodeLabel(d, a) + [0x2E] + UnicodeLabels(d, b, 0)
  {
    hide UnicodeLabel, LabelEnd;
    var s := a + ([0x2E] + b);
    ByteEndAtDot(a, b, 0);
    assert s[0..|a|] == a;
    assert s == (a + [0x2E]) + b;
    ByteWalkShift(d, a + [0x2E], b, 0);
  }

  lemma ByteWalkOne(d: Data, a: Octets)
    requires NoDotByte(a)
    ensures UnicodeLabels(d, a, 0) == UnicodeLabel(d, a)
  {
    EmptyLabel(d);
    hide UnicodeLabel, LabelEnd;
    ByteEndAtDot(a, [], 0);
    assert a[0..|a|] == a;
  }

  lemma EmptyLabel(d: Data)
    ensures UnicodeLabel(d, []) == []
  {}

  lemma OctsNoDot(s: seq<Byte>)
    requires NoDot(s)
    ensures NoDotByte(Octs(s))
  {
    hide OctetOf;
    PrefixValues();
    forall k | 0 <= k < |s| ensures Octs(s)[k] != 0x2E { assert Octs(s)[k] as int == s[k]; }
  }

  lemma OctsAround(a: seq<Byte>, b: seq<Byte>)
    ensures Octs(a + [DOT] + b) == Octs(a) + ([0x2E] + Octs(b))
  {
    DotByte();
    hide OctetOf;
  }

  lemma DotByte()
    ensures OctetOf(DOT) == 0x2E
  {
    hide OctetOf;
    DotOctet(OctetOf(DOT));
  }

  lemma PartNoDot(s: Points, from: nat)
    requires from <= |s|
    ensures NoDot(s[from..LabelEnd(s, DOT, from)])
  {
    hide LabelEnd;
    var e := LabelEnd(s, DOT, from);
    forall k | 0 <= k < e - from ensures s[from..e][k] != DOT { assert s[from..e][k] == s[from + k]; }
  }

  lemma RestSplit(s: Points, from: nat, e: nat)
    requires from <= e < |s| && s[e] == DOT
    ensures s[from..] == s[from..e] + ([DOT] + s[e + 1..])
  {}

  lemma NoScalars()
    ensures AllScalar([]) && Utf8Of([]) == []
  {}

  /** `to_unicode` of what the walk wrote is the text with its labels as shown. */
  lemma {:induction false} WalkBack(d: Data, s: Points, from: nat)
    requires from <= |s| && LabelsStable(d, s, from) && AsciiLabels(d, s, from).Some?
    ensures AllScalar(s[from..]) && AllScalar(Shown(d, s, from))
    ensures UnicodeLabels(d, Octs(AsciiLabels(d, s, from).value), 0) == Utf8Of(Shown(d, s, from))
    decreases |s| - from
  {
    hide LabelEnd, Stable, AsciiLabel, ShownLabel, UnicodeLabel, UnicodeLabels, Utf8Of, Octs, AllScalar, NoDot;
    if from == |s| {
      NoScalars();
      assert s[from..] == [];
      NothingWritten(d);
    } else {
      var e := LabelEnd(s, DOT, from);
      var p := s[from..e];
      PartNoDot(s, from);
      LabelBack(d, p);
      var first := AsciiLabel(d, p).value;
      OctsNoDot(first);
      if e == |s| {
        assert s[from..] == p;
        ByteWalkOne(d, Octs(first));
      } else {
        WalkBack(d, s, e + 1);
        RestSplit(s, from, e);
        JoinBack(d, first, AsciiLabels(d, s, e + 1).value, ShownLabel(d, p), Shown(d, s, e + 1));
        ScalarsAround(p, s[e + 1..]);
        ScalarsAround(ShownLabel(d, p), Shown(d, s, e + 1));
      }
    }
  }

  lemma NothingWritten(d: Data)
    ensures UnicodeLabels(d, Octs([]), 0) == []
  {}

  lemma ScalarsAround(a: Points, b: Points)
    requires AllScalar(a) && AllScalar(b)
    ensures AllScalar(a + ([DOT] + b)) && Utf8Of(a + ([DOT] + b)) == Utf8Of(a) + ([0x2E] + Utf8Of(b))
  {
    hide AllScalar, Utf8Of;
    DotText();
    Utf8Join([DOT], b);
    Utf8Join(a, [DOT] + b);
  }

  lemma JoinBack(d: Data, first: seq<Byte>, rest: seq<Byte>, a: Points, b: Points)
    requires NoDotByte(Octs(first)) && AllScalar(a) && AllScalar(b)
    requires UnicodeLabel(d, Octs(first)) == Utf8Of(a) && UnicodeLabels(d, Octs(rest), 0) == Utf8Of(b)
    ensures UnicodeLabels(d, Octs(first + [DOT] + rest), 0) == Utf8Of(a) + ([0x2E] + Utf8Of(b))
  {
    hide UnicodeLabel, UnicodeLabels, Utf8Of, Octs, AllScalar, NoDotByte;
    OctsAround(first, rest);
    ByteWalkJoin(d, Octs(first), Octs(rest));
    Associate(Utf8Of(a), [0x2E], Utf8Of(b));
  }

  // ---------------------------------------------------------------- exactly when the text comes back

  /** A label that `to_unicode` shows as it stood in the normalized text. */
  predicate Kept(d: Data, p: Points) {
    if AllBasic(p) then !(HasAcePrefix(p) && Decode(p[4..]).Some? && AllScalar(Decode(p[4..]).value)) else Decodable(p)
  }

  predicate AllKept(d: Data, s: Points, from: nat)
    requires from <= |s|
    decreases |s| - from
  {
    from == |s| ||
    var e := LabelEnd(s, DOT, from);
    Kept(d, s[from..e]) && (e == |s| || AllKept(d, s, e + 1))
  }

  lemma AceDecoded(d: Data, p: Points)
    requires AllBasic(p) && NoDot(p) && HasAcePrefix(p) && AsciiLabel(d, p).Some?
    ensures Decode(p[4..]).Some? && !AllBasic(Decode(p[4..]).value) && NoDot(Decode(p[4..]).value)
  {
    hide Decode, OctetOf, Map, Nfc;
    IntsOfOcts(p);
    OctsPrefix(p);
    OctsNoDot(p);
    DotFree(Octs(p), Decode(p[4..]).value);
  }

  lemma KeptIsShown(d: Data, p: Points)
    requires NoDot(p) && Stable(d, p) && AsciiLabel(d, p).Some?
    ensures ShownLabel(d, p) == p <==> Kept(d, p)
    ensures NoDot(ShownLabel(d, p))
  {
    hide Decode, Decodable, AllScalar, Stable;
    if AllBasic(p) {
      if HasAcePrefix(p) { AceDecoded(d, p); }
    } else {
      NotBasicNonempty(p);
      EncodedLabelBack(d, p);
      assert Encode(p).Some?;
      hide Encode;
      EncodedNoDot(p);
    }
  }

  lemma EarlierDot(a: Points, b: Points, x: Points, y: Points)
    requires NoDot(x) && |a| < |x|
    ensures a + ([DOT] + b) != x + ([DOT] + y)
  {
    assert (a + ([DOT] + b))[|a|] == DOT;
    assert (x + ([DOT] + y))[|a|] == x[|a|];
  }

  /** Text splits at its first dot in one way. */
  lemma FirstDot(a: Points, b: Points, x: Points, y: Points)
    requires NoDot(a) && NoDot(x)
    ensures a + ([DOT] + b) == x + ([DOT] + y) <==> a == x && b == y
  {
    if |a| < |x| {
      EarlierDot(a, b, x, y);
    } else if |x| < |a| {
      EarlierDot(x, y, a, b);
    } else {
      SameParts(a, [DOT] + b, x, [DOT] + y);
      SameParts([DOT], b, [DOT], y);
    }
  }

  lemma SameParts(a: Points, b: Points, x: Points, y: Points)
    requires |a| == |x|
    ensures a + b == x + y <==> a == x && b == y
  {
    assert (a + b)[..|a|] == a && (a + b)[|a|..] == b;
    assert (x + y)[..|a|] == x && (x + y)[|a|..] == y;
  }

  lemma {:induction false} ShownIsText(d: Data, s: Points, from: nat)
    requires from <= |s| && LabelsStable(d, s, from) && AsciiLabels(d, s, from).Some?
    ensures Shown(d, s, from) == s[from..] <==> AllKept(d, s, from)
    decreases |s| - from
  {
    hide LabelEnd, Stable, AsciiLabel, ShownLabel, Kept, NoDot;
    if from < |s| {
      var e := LabelEnd(s, DOT, from);
      var p := s[from..e];
      PartNoDot(s, from);
      KeptIsShown(d, p);
      if e == |s| {
        assert s[from..] == p;
      } else {
        ShownIsText(d, s, e + 1);
        RestSplit(s, from, e);
        FirstDot(ShownLabel(d, p), Shown(d, s, e + 1), p, s[e + 1..]);
      }
    }
  }

  lemma SameText(a: Points, b: Points)
    requires AllScalar(a) && AllScalar(b)
    ensures Utf8Of(a) == Utf8Of(b) <==> a == b
  {
    hide AllScalar, Utf8Of, PointsOfUtf8;
    Utf8RoundTrip(a);
    Utf8RoundTrip(b);
  }

  /** For input that is not ASCII and that `to_ascii` accepts, `to_unicode` of the name is the UTF-8 of
      the mapped and normalized text with its labels as shown, if the name is within the size limit. It
      is that text itself exactly if no label is a decodable ACE label and every label that is not
      ASCII can be decoded again. */
  lemma ToUnicodeOfToAscii(d: Data, x: Octets)
    requires ClosedData(d) && !AsciiMapping.AllAscii(x) && ToAscii(d, x).Some?
    ensures Mapped(d, x).Some?
    ensures var n, out := Nfc(d.unicode, Mapped(d, x).value), ToAscii(d, x).value;
            && AllScalar(n) && AllScalar(Shown(d, n, 0))
            && ToUnicode(d, out) == (if |out| <= 16384 then Some(Utf8Of(Shown(d, n, 0))) else None)
            && (ToUnicode(d, out) == Some(Utf8Of(n)) <==> |out| <= 16384 && AllKept(d, n, 0))
  {
    UsesPlainAscii(d);
    ToAsciiOfMapped(d, x);
    hide ClosedData, PlainAscii, Nfc, ToAscii, AsciiLabels, LabelsStable, AllScalar, Utf8Of, Shown, AllKept, Octs,
        UnicodeLabels, PointsOfUtf8, Mapping.MapAll;
    LabelsOfNormalized(d, PointsOfUtf8(x).value);
    var n := Nfc(d.unicode, Mapped(d, x).value);
    WalkBack(d, n, 0);
    assert n[0..] == n;
    ShownIsText(d, n, 0);
    SameText(n, Shown(d, n, 0));
  }
}
