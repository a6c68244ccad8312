/** `to_ascii` after `to_unicode` for whole domains. */
module DomainRoundTrip {
  import opened Basics
  import opened Utf8
  import opened Conversions
  import Transcoding
  import AsciiMapping
  import opened PunycodeIntegers
  import opened Punycode
  import opened UnicodeData
  import Normalization
  import NormalizationStops
  import IdnaTable
  import Mapping
  import opened Domains

  /** Facts of the data about ASCII: all but the upper-case letters is valid, nothing decomposes, is a
      mark or composes with a character before it, and the dot composes with nothing. */
  ghost predicate PlainAscii(d: Data) {
    && Facts(d.unicode)
    && (forall c: nat :: c < 0x80 && !Upper(c) ==> d.status(c) == IdnaTable.Valid)
    && (forall c: nat :: c < 0x80 ==> NormalizationStops.Opens(d.unicode, c))
    && NormalizationStops.IsStop(d.unicode, DOT)
  }

  predicate LowerAscii(s: Octets) {
    AsciiMapping.AllAscii(s) && AsciiMapping.LowerAll(s) == s
  }

  // ---------------------------------------------------------------- labels

  /** An ACE label decodes to something acceptable. */
  predicate Accepted(d: Data, part: Octets) {
    StartsWithAce(part) ==>
      match Decode(Ints(part[4..]))
      case None => false
      case Some(u) => Acceptable(d, u)
  }

  /** Every label from `from` on is accepted. */
  predicate AllAccepted(d: Data, s: Octets, from: nat)
    requires from <= |s|
    decreases |s| - from
  {
    from == |s| ||
    var e := LabelEnd(s, 0x2E, from);
    Accepted(d, s[from..e]) && (e == |s| || AllAccepted(d, s, e + 1))
  }

  /** No label from `from` on is replaced. */
  predicate NoneReplaced(d: Data, s: Octets, from: nat)
    requires from <= |s|
    decreases |s| - from
  {
    from == |s| ||
    var e := LabelEnd(s, 0x2E, from);
    !Replaced(d, s[from..e]) && (e == |s| || NoneReplaced(d, s, e + 1))
  }

  /** The code points that stand for a label after `to_unicode`. */
  function LabelPoints(d: Data, part: Octets): Points {
    if Replaced(d, part) then Decode(Ints(part[4..])).value else Ints(part)
  }

  function DomainPoints(d: Data, s: Octets, from: nat): Points
    requires from <= |s|
    decreases |s| - from
  {
    if from == |s| then []
    else
      var e := LabelEnd(s, 0x2E, from);
      if e == |s| then LabelPoints(d, s[from..e])
      else LabelPoints(d, s[from..e]) + ([DOT] + DomainPoints(d, s, e + 1))
  }

  lemma PartIsLower(s: Octets, from: nat, to: nat)
    requires LowerAscii(s) && from <= to <= |s|
    ensures LowerAscii(s[from..to])
  {
    hide AsciiMapping.Lower;
    forall i | 0 <= i < to - from
      ensures s[from..to][i] < 0x80 && AsciiMapping.Lower(s[from..to][i]) == s[from..to][i]
    {
      assert s[from..to][i] == s[from + i] == AsciiMapping.LowerAll(s)[from + i];
    }
  }

  lemma LowerPoint(b: bv8)
    requires b < 0x80 && AsciiMapping.Lower(b) == b
    ensures b as int < 0x80 && !Upper(b as int)
  {}

  lemma LowerPoints(part: Octets)
    requires LowerAscii(part)
    ensures forall i :: 0 <= i < |part| ==> Ints(part)[i] < 0x80 && !Upper(Ints(part)[i])
  {
    hide AsciiMapping.Lower;
    forall i | 0 <= i < |part| ensures Ints(part)[i] < 0x80 && !Upper(Ints(part)[i]) {
      assert AsciiMapping.LowerAll(part)[i] == part[i];
      LowerPoint(part[i]);
    }
  }

  // ---------------------------------------------------------------- as UTF-8

  lemma {:induction false} EncodeJoin(a: Words, b: Words, n: nat)
    requires n <= |b| && Transcoding.AllScalars(a, |a|) && Transcoding.AllScalars(b, n)
    ensures Transcoding.AllScalars(a + b, |a| + n)
    ensures Transcoding.Encode(a + b, |a| + n) == Transcoding.Encode(a, |a|) + Transcoding.Encode(b, n)
  {
    hide Scalar, EncodeChar;
    forall i | 0 <= i < |a| + n ensures Scalar((a + b)[i]) {}
    if n == 0 {
      EncodePrefix(a, b, |a|);
      assert Transcoding.Encode(a, |a|) + [] == Transcoding.Encode(a, |a|);
    } else {
      EncodeJoin(a, b, n - 1);
      Associate(Transcoding.Encode(a, |a|), Transcoding.Encode(b, n - 1), EncodeChar(b[n - 1]));
    }
  }

  lemma {:induction false} EncodePrefix(a: Words, b: Words, n: nat)
    requires n <= |a| && Transcoding.AllScalars(a, n)
    ensures Transcoding.AllScalars(a + b, n) && Transcoding.Encode(a + b, n) == Transcoding.Encode(a, n)
  {
    hide Scalar, EncodeChar;
    forall i | 0 <= i < n ensures Scalar((a + b)[i]) {}
    if n > 0 { EncodePrefix(a, b, n - 1); }
  }

  lemma ScalarJoin(a: Points, b: Points)
    ensures AllScalar(a + b) <==> AllScalar(a) && AllScalar(b)
  {
    if AllScalar(a + b) {
      assert forall i :: 0 <= i < |a| ==> (a + b)[i] == a[i];
      assert forall i :: 0 <= i < |b| ==> (a + b)[|a| + i] == b[i];
    }
  }

  lemma Utf8Join(a: Points, b: Points)
    requires AllScalar(a) && AllScalar(b)
    ensures AllScalar(a + b) && Utf8Of(a + b) == Utf8Of(a) + Utf8Of(b)
  {
    hide Transcoding.Encode, WordOf, Transcoding.AllScalars;
    ScalarJoin(a, b);
    ScalarsFit(a);
    ScalarsFit(b);
    ScalarsFit(a + b);
    assert WordsOf(a + b) == WordsOf(a) + WordsOf(b);
    EncodeJoin(WordsOf(a), WordsOf(b), |b|);
  }

  lemma OctetIsWord(b: bv8)
    requires b < 0x80
    ensures b as int < 0x80 && Scalar(WordOf(b as int)) && EncodeChar(WordOf(b as int)) == [b]
  {
    hide WordOf;
    AsciiOctet(b, WordOf(b as int));
  }

  lemma AsciiOctet(b: bv8, w: bv32)
    requires b < 0x80 && w as int == b as int
    ensures w < 0x80 && w as bv8 == b
  {
    WordInjective(w, b as bv32);
    Widened(b);
  }

  lemma Widened(b: bv8)
    requires b < 0x80
    ensures (b as bv32) as int == b as int && (b as bv32) as bv8 == b && b as bv32 < 0x80
  {}

  lemma {:induction false} AsciiUtf8(part: Octets)
    requires AsciiMapping.AllAscii(part)
    ensures AllScalar(Ints(part)) && Utf8Of(Ints(part)) == part
  {
    if part != [] {
      var n := |part| - 1;
      var b := part[n];
      hide Utf8Of, AllScalar;
      AsciiUtf8(part[..n]);
      assert part == part[..n] + [b] && Ints(part) == Ints(part[..n]) + Ints([b]);
      hide Ints;
      OneOctet(b);
      Utf8Join(Ints(part[..n]), Ints([b]));
    }
  }

  lemma OneOctet(b: bv8)
    requires b < 0x80
    ensures AllScalar(Ints([b])) && Utf8Of(Ints([b])) == [b]
  {
    OctetIsWord(b);
    hide WordOf, EncodeChar;
    var w := WordsOf(Ints([b]));
    ScalarsFit(Ints([b]));
    assert Transcoding.Encode(w, 1) == Transcoding.Encode(w, 0) + EncodeChar(w[0]) == [] + [b];
  }

  /** `to_unicode` writes the UTF-8 of the points. */
  lemma LabelText(d: Data, part: Octets)
    requires AsciiMapping.AllAscii(part)
    ensures AllScalar(LabelPoints(d, part)) && Utf8Of(LabelPoints(d, part)) == UnicodeLabel(d, part)
  {
    hide Decode, Acceptable, AllScalar, Utf8Of;
    AsciiUtf8(part);
  }

  lemma DotText()
    ensures AllScalar([DOT]) && Utf8Of([DOT]) == [0x2E]
  {
    PrefixValues();
    OneOctet(0x2E);
    assert Ints([0x2E]) == [DOT];
  }

  lemma {:induction false} DomainText(d: Data, s: Octets, from: nat)
    requires LowerAscii(s) && from <= |s|
    ensures AllScalar(DomainPoints(d, s, from)) && Utf8Of(DomainPoints(d, s, from)) == UnicodeLabels(d, s, from)
    decreases |s| - from
  {
    hide LabelEnd, LabelPoints, UnicodeLabel, AllScalar, Utf8Of;
    if from == |s| {
      NoText();
    } else {
      var e := LabelEnd(s, 0x2E, from);
      PartIsLower(s, from, e);
      LabelText(d, s[from..e]);
      if e < |s| {
        DomainText(d, s, e + 1);
        DotText();
        Utf8Join([DOT], DomainPoints(d, s, e + 1));
        Utf8Join(LabelPoints(d, s[from..e]), [DOT] + DomainPoints(d, s, e + 1));
        Associate(UnicodeLabel(d, s[from..e]), [0x2E], UnicodeLabels(d, s, e + 1));
      }
    }
  }

  lemma NoText()
    ensures AllScalar([]) && Utf8Of([]) == []
  {}

  // ---------------------------------------------------------------- mapping and normalization

  lemma {:induction false} MapJoin(d: Data, a: Points, b: Points, n: nat)
    requires n <= |b| && Map(d, a).Some? && Mapping.MapAll(d.status, b, n).Some?
    ensures Mapping.MapAll(d.status, a + b, |a| + n) == Some(Map(d, a).value + Mapping.MapAll(d.status, b, n).value)
  {
    if n == 0 {
      MapPrefix(d, a, b, |a|);
      assert Map(d, a).value + [] == Map(d, a).value;
    } else {
      MapJoin(d, a, b, n - 1);
      assert (a + b)[|a| + n - 1] == b[n - 1];
      var st := d.status(b[n - 1]);
      var more := if st.Mapped? then st.cps else [b[n - 1]];
      Associate(Map(d, a).value, Mapping.MapAll(d.status, b, n - 1).value, more);
    }
  }

  lemma {:induction false} MapPrefix(d: Data, a: Points, b: Points, n: nat)
    requires n <= |a|
    ensures Mapping.MapAll(d.status, a + b, n) == Mapping.MapAll(d.status, a, n)
  {
    if n > 0 { MapPrefix(d, a, b, n - 1); }
  }

  lemma {:induction false} MapsToItself(d: Data, s: Points, n: nat)
    requires n <= |s| && forall i :: 0 <= i < |s| ==> d.status(s[i]) == IdnaTable.Valid
    ensures Mapping.MapAll(d.status, s, n) == Some(s[..n])
  {
    if n > 0 {
      MapsToItself(d, s, n - 1);
      assert s[..n] == s[..n - 1] + [s[n - 1]];
    }
  }

  /** Mapping and normalization leave a string alone. */
  predicate Stable(d: Data, s: Points) {
    Map(d, s) == Some(s) && Normalization.Nfc(d.unicode, s) == s
  }

  lemma AsciiStable(d: Data, part: Octets)
    requires PlainAscii(d) && LowerAscii(part)
    ensures Stable(d, Ints(part))
  {
    hide NormalizationStops.Opens, Facts, Normalization.Nfc;
    var s := Ints(part);
    LowerPoints(part);
    MapsToItself(d, s, |s|);
    assert s[..|s|] == s;
    NormalizationStops.NfcOpens(d.unicode, s);
  }

  lemma LabelStable(d: Data, part: Octets)
    requires PlainAscii(d) && LowerAscii(part)
    ensures Stable(d, LabelPoints(d, part))
  {
    hide PlainAscii, LowerAscii, Map, Normalization.Nfc, Decode;
    AsciiStable(d, part);
  }

  lemma StableAround(d: Data, a: Points, b: Points)
    requires PlainAscii(d) && Stable(d, a) && Stable(d, b)
    ensures Stable(d, a + ([DOT] + b))
  {
    hide Normalization.Nfc, NormalizationStops.IsStop, NormalizationStops.Opens, Facts;
    NormalizationStops.NfcStop(d.unicode, a, DOT, b);
    var dot: Points := [DOT];
    MapsToItself(d, dot, 1);
    assert dot[..1] == dot;
    MapJoin(d, dot, b, |b|);
    MapJoin(d, a, dot + b, |dot + b|);
  }

  lemma {:induction false} DomainStable(d: Data, s: Octets, from: nat)
    requires PlainAscii(d) && LowerAscii(s) && from <= |s|
    ensures Stable(d, DomainPoints(d, s, from))
    decreases |s| - from
  {
    hide PlainAscii, LowerAscii, Stable, LabelEnd, LabelPoints;
    if from == |s| {
      PartIsLower(s, |s|, |s|);
      AsciiStable(d, s[|s|..|s|]);
      assert Ints(s[|s|..|s|]) == [];
    } else {
      var e := LabelEnd(s, 0x2E, from);
      PartIsLower(s, from, e);
      LabelStable(d, s[from..e]);
      if e < |s| {
        DomainStable(d, s, e + 1);
        StableAround(d, LabelPoints(d, s[from..e]), DomainPoints(d, s, e + 1));
      }
    }
  }

  // ---------------------------------------------------------------- the label walk

  lemma {:induction false} EndShift(s: Points, t: Points, k: nat)
    requires k <= |t|
    ensures LabelEnd(s + t, DOT, |s| + k) == |s| + LabelEnd(t, DOT, k)
    decreases |t| - k
  {
    if k < |t| {
      assert (s + t)[|s| + k] == t[k];
      EndShift(s, t, k + 1);
    }
  }

  /** What stands before `from` does not matter. */
  lemma {:induction false} WalkShift(d: Data, s: Points, t: Points, k: nat)
    requires k <= |t|
    ensures AsciiLabels(d, s + t, |s| + k) == AsciiLabels(d, t, k)
    decreases |t| - k
  {
    hide AsciiLabel, LabelEnd;
    if k < |t| {
      var e := LabelEnd(t, DOT, k);
      EndShift(s, t, k);
      assert (s + t)[|s| + k..|s| + e] == t[k..e];
      if e < |t| { WalkShift(d, s, t, e + 1); }
    }
  }

  lemma {:induction false} EndAtDot(a: Points, b: Points, k: nat)
    requires k <= |a| && forall j :: 0 <= j < |a| ==> a[j] != DOT
    ensures LabelEnd(a + ([DOT] + b), DOT, k) == |a|
    decreases |a| - k
  {
    assert (a + ([DOT] + b))[|a|] == DOT;
    if k < |a| {
      assert (a + ([DOT] + b))[k] == a[k];
      EndAtDot(a, b, k + 1);
    }
  }

  function Joined(a: Option<seq<Byte>>, b: Option<seq<Byte>>): Option<seq<Byte>> {
    if a.Some? && b.Some? then Some(a.value + [DOT] + b.value) else None
  }

  lemma WalkJoin(d: Data, a: Points, b: Points)
    requires forall j :: 0 <= j < |a| ==> a[j] != DOT
    ensures AsciiLabels(d, a + ([DOT] + b), 0) == Joined(AsciiLabel(d, a), AsciiLabels(d, b, 0))
  {
    hide AsciiLabel, LabelEnd;
    var s := a + ([DOT] + b);
    EndAtDot(a, b, 0);
    assert s[0..|a|] == a;
    assert s == (a + [DOT]) + b;
    WalkShift(d, a + [DOT], b, 0);
  }

  lemma WalkOne(d: Data, a: Points)
    requires forall j :: 0 <= j < |a| ==> a[j] != DOT
    ensures AsciiLabels(d, a, 0) == AsciiLabel(d, a)
  {
    hide LabelEnd;
    if a != [] { OneLabel(d, a); }
  }

  lemma StartsInts(part: Octets)
    ensures StartsWithAce(part) <==> HasAcePrefix(Ints(part))
    ensures StartsWithAce(part) ==> Ints(part)[4..] == Ints(part[4..])
  {
    if |part| >= 4 {
      Four(part[0], 0x78);
      Four(part[1], 0x6E);
      Four(part[2], 0x2D);
      Four(part[3], 0x2D);
      PrefixValues();
    }
  }

  lemma Four(b: bv8, c: bv8)
    ensures b == c <==> b as int == c as int
  {
    ByteBack(b);
    ByteBack(c);
  }

  lemma AsciiInts(part: Octets)
    requires AsciiMapping.AllAscii(part)
    ensures AllBasic(Ints(part))
  {
    forall i | 0 <= i < |part| ensures Ints(part)[i] < 0x80 { IsSmall(part[i]); }
  }

  lemma AceNonempty(part: Points)
    ensures HasAcePrefix(part) ==> part != []
  {}

  /** An ASCII label passes the walk of `to_ascii` unchanged, or not at all. */
  lemma LabelPasses(d: Data, part: Octets)
    requires AsciiMapping.AllAscii(part)
    ensures AsciiLabel(d, Ints(part)) == if Accepted(d, part) then Some(Ints(part)) else None
  {
    hide Decode, Acceptable, Encode;
    StartsInts(part);
    AsciiInts(part);
    AceNonempty(Ints(part));
  }

  /** What `to_unicode` makes of a label passes exactly if the label does, with the same result. */
  lemma LabelChecks(d: Data, part: Octets)
    requires AsciiMapping.AllAscii(part) && forall k :: 0 <= k < |part| ==> part[k] != 0x2E
    ensures AsciiLabel(d, LabelPoints(d, part)) == if Accepted(d, part) then Some(Ints(part)) else None
    ensures forall k :: 0 <= k < |LabelPoints(d, part)| ==> LabelPoints(d, part)[k] != DOT
  {
    hide Decode, Encode, Acceptable, AllScalar, AsciiLabel, AsciiMapping.AllAscii;
    if Replaced(d, part) {
      var payload := Ints(part[4..]);
      var u := Decode(payload).value;
      EncodeDecode(payload);
      AcePrefixInts(part);
      DecodedNoAce(payload);
      LabelOfPoints(d, u);
      DotFree(part, u);
    } else {
      LabelPasses(d, part);
      forall k | 0 <= k < |part| ensures Ints(part)[k] != DOT { if Ints(part)[k] == DOT { DotOctet(part[k]); } }
    }
  }

  lemma PartNoDot(s: Octets, from: nat)
    requires from <= |s|
    ensures var part := s[from..LabelEnd(s, 0x2E, from)]; forall k :: 0 <= k < |part| ==> part[k] != 0x2E
  {
    hide LabelEnd;
  }

  /** The accepted labels from `from` on, unchanged. */
  function Passed(d: Data, s: Octets, from: nat): Option<seq<Byte>>
    requires from <= |s|
  {
    if AllAccepted(d, s, from) then Some(Ints(s[from..])) else None
  }

  lemma PassedStep(d: Data, s: Octets, from: nat)
    requires from < |s|
    ensures var e := LabelEnd(s, 0x2E, from);
            var first := if Accepted(d, s[from..e]) then Some(Ints(s[from..e])) else None;
            Passed(d, s, from) == if e == |s| then first else Joined(first, Passed(d, s, e + 1))
  {
    hide LabelEnd, Accepted, Ints;
    var e := LabelEnd(s, 0x2E, from);
    if e == |s| { assert s[from..] == s[from..e]; } else { IntsAround(s, from, e); }
  }

  lemma {:induction false} DomainChecks(d: Data, s: Octets, from: nat)
    requires LowerAscii(s) && from <= |s|
    ensures AsciiLabels(d, DomainPoints(d, s, from), 0) == Passed(d, s, from)
    decreases |s| - from
  {
    hide LabelEnd, LabelPoints, AsciiLabel, AsciiLabels, Accepted, LowerAscii, AllAccepted, Passed, Joined;
    if from == |s| {
      NothingPassed(d, s);
    } else {
      var e := LabelEnd(s, 0x2E, from);
      var part := s[from..e];
      PartIsLower(s, from, e);
      PartNoDot(s, from);
      IsAllAscii(part);
      LabelChecks(d, part);
      PassedStep(d, s, from);
      if e == |s| {
        WalkOne(d, LabelPoints(d, part));
      } else {
        DomainChecks(d, s, e + 1);
        WalkJoin(d, LabelPoints(d, part), DomainPoints(d, s, e + 1));
      }
    }
  }

  lemma NothingPassed(d: Data, s: Octets)
    ensures AsciiLabels(d, [], 0) == Some([]) == Passed(d, s, |s|)
  {
    assert Ints(s[|s|..]) == [];
  }

  lemma IsAllAscii(s: Octets)
    requires LowerAscii(s)
    ensures AsciiMapping.AllAscii(s)
  {}

  lemma IntsAround(s: Octets, from: nat, e: nat)
    requires from <= e < |s| && s[e] == 0x2E
    ensures Ints(s[from..]) == Ints(s[from..e]) + [DOT] + Ints(s[e + 1..])
  {
    PrefixValues();
  }

  // ---------------------------------------------------------------- what is replaced

  lemma {:induction false} NothingReplaced(d: Data, s: Octets, from: nat)
    requires LowerAscii(s) && from <= |s|
    ensures NoneReplaced(d, s, from) ==> UnicodeLabels(d, s, from) == s[from..]
    ensures !NoneReplaced(d, s, from) ==> !AllBasic(DomainPoints(d, s, from))
    decreases |s| - from
  {
    hide LabelEnd, LabelPoints, UnicodeLabel, Replaced, LowerAscii;
    if from < |s| {
      var e := LabelEnd(s, 0x2E, from);
      var part := s[from..e];
      LabelKept(d, part);
      if e == |s| {
        assert s[from..] == part;
      } else {
        NothingReplaced(d, s, e + 1);
        assert s[from..] == part + [0x2E] + s[e + 1..];
        NotBasicJoin(LabelPoints(d, part), [DOT] + DomainPoints(d, s, e + 1));
        NotBasicJoin([DOT], DomainPoints(d, s, e + 1));
      }
    }
  }

  lemma LabelKept(d: Data, part: Octets)
    ensures !Replaced(d, part) ==> UnicodeLabel(d, part) == part
    ensures Replaced(d, part) ==> !AllBasic(LabelPoints(d, part))
  {
    hide Decode, AllScalar, Map, Normalization.Nfc;
  }

  lemma NotBasicJoin(a: Points, b: Points)
    ensures !AllBasic(a) || !AllBasic(b) ==> !AllBasic(a + b)
  {
    if AllBasic(a + b) {
      assert forall i :: 0 <= i < |a| ==> (a + b)[i] == a[i];
      assert forall i :: 0 <= i < |b| ==> (a + b)[|a| + i] == b[i];
    }
  }

  // ---------------------------------------------------------------- the theorem

  /** A lower-case ASCII domain that goes through `to_unicode` comes back through `to_ascii` exactly if
      no label was replaced, or every ACE label is acceptable and the text is within the size limit;
      otherwise `to_ascii` fails, and never gives another domain. */
  lemma RoundTripExact(d: Data, x: Octets)
    requires PlainAscii(d) && LowerAscii(x) && |x| <= MAX_DOMAIN_INPUT_BYTES
    ensures ToUnicode(d, x).Some?
    ensures var y := ToUnicode(d, x).value;
            ToAscii(d, y) == if NoneReplaced(d, x, 0)
                                || (AllAccepted(d, x, 0) && |y| <= MAX_DOMAIN_INPUT_BYTES)
                             then Some(x) else None
  {
    hide LowerAscii, PlainAscii, UnicodeLabels, AsciiLabels, Replaced, Accepted, AllAccepted, NoneReplaced, Utf8Of,
        AllScalar, Stable;
    var y, p := UnicodeLabels(d, x, 0), DomainPoints(d, x, 0);
    assert x[0..] == x;
    NothingReplaced(d, x, 0);
    IsLowerAscii(x);
    if !NoneReplaced(d, x, 0) {
      DomainText(d, x, 0);
      NotAscii(p);
      if |y| <= MAX_DOMAIN_INPUT_BYTES {
        Utf8RoundTrip(p);
        DomainStable(d, x, 0);
        StableMeans(d, p);
        DomainChecks(d, x, 0);
        OctsOfInts(x);
      }
    }
  }

  lemma IsLowerAscii(x: Octets)
    requires LowerAscii(x)
    ensures AsciiMapping.AllAscii(x) && AsciiMapping.LowerAll(x) == x
  {}

  lemma StableMeans(d: Data, s: Points)
    requires Stable(d, s)
    ensures Map(d, s) == Some(s) && Normalization.Nfc(d.unicode, s) == s
  {}

  // ---------------------------------------------------------------- a domain that does not come back

  /** "xn--4ca.xn--" */
  const MIXED: Octets := [0x78, 0x6E, 0x2D, 0x2D, 0x34, 0x63, 0x61, 0x2E, 0x78, 0x6E, 0x2D, 0x2D]

  lemma MixedIsLower()
    ensures LowerAscii(MIXED) && LabelEnd(MIXED, 0x2E, 0) == 7 && LabelEnd(MIXED, 0x2E, 8) == 12
  {
    assert MIXED[7] == 0x2E;
    forall i | 0 <= i < |MIXED| ensures MIXED[i] < 0x80 && AsciiMapping.Lower(MIXED[i]) == MIXED[i] {}
  }

  /** Three digits with values 30, 2 and 0. */
  lemma MixedRead(s: seq<Byte>)
    requires s == [52, 99, 97]
    ensures ReadVarInt(s, 0, 1, BASE, INITIAL_BIAS) == Some((100, []))
  {
    hide DigitValue;
    MixedDigits();
    var s1, s2 := s[1..], s[1..][1..];
    assert s1 == [99, 97] && s2 == [97] && s2[1..] == [];
    assert ReadVarInt(s2, 100, 1225, 108, INITIAL_BIAS) == Some((100, []));
    assert ReadVarInt(s1, 30, 35, 72, INITIAL_BIAS) == Some((100, []));
  }

  lemma MixedDigits()
    ensures DigitValue(52) == 30 && DigitValue(99) == 2 && DigitValue(97) == 0
  {}

  lemma MixedAdvance()
    ensures Advance(INITIAL_N, 100, 1) == Some((0xE4, 0)) && InsertAt([], 0, 0xE4) == [0xE4]
  {}

  lemma NoDelimiter(s: seq<Byte>)
    requires forall i :: 0 <= i < |s| ==> s[i] != DELIMITER
    ensures Split(s) == ([], s)
  {
    hide LastDelimiter;
  }

  /** "4ca" is the payload of U+00E4, and the empty payload decodes to nothing. */
  lemma MixedDecodes()
    ensures Decode([52, 99, 97]) == Some([0xE4]) && Decode([]) == Some([])
  {
    hide ReadVarInt, Advance, DecodeFrom, Split, InsertAt, Adapt;
    var s: seq<Byte> := [52, 99, 97];
    MixedRead(s);
    MixedAdvance();
    NoDelimiter(s);
    NoDelimiter([]);
    DecodeStep([], INITIAL_N, 0, INITIAL_BIAS, s);
    DecodeStep([0xE4], 0xE4, 1, Adapt(100, 1, true), []);
    DecodeStep([], INITIAL_N, 0, INITIAL_BIAS, []);
  }

  /** With one ACE label replaced and one kept, the text is no input that `to_ascii` accepts. */
  lemma MixedDomainFails(d: Data)
    requires PlainAscii(d) && Acceptable(d, [0xE4])
    ensures LowerAscii(MIXED) && ToUnicode(d, MIXED).Some? && ToAscii(d, ToUnicode(d, MIXED).value) == None
  {
    hide PlainAscii, Acceptable, Decode;
    MixedIsLower();
    MixedDecodes();
    var first, second := MIXED[0..7], MIXED[8..12];
    assert Ints(first[4..]) == [52, 99, 97] && Ints(second[4..]) == [];
    assert first[0] == 0x78 && second[0] == 0x78;
    NothingAcceptable(d);
    assert Replaced(d, first) && !Accepted(d, second);
    assert !NoneReplaced(d, MIXED, 0) && !AllAccepted(d, MIXED, 8) && !AllAccepted(d, MIXED, 0);
    RoundTripExact(d, MIXED);
  }

  lemma NothingAcceptable(d: Data)
    ensures !Acceptable(d, [])
  {}
}
