/** `to_ascii` and `to_unicode` (src/to_ascii.cpp, src/to_unicode.cpp), proved against `Domains`. */
module DomainsImpl {
  import opened Basics
  import opened Utf8
  import opened Conversions
  import Transcoding
  import TranscodingImpl
  import AsciiMapping
  import opened PunycodeIntegers
  import opened Punycode
  import PunycodeImpl
  import PunycodeEncoder
  import opened UnicodeData
  import Normalization
  import NormalizationFastPath
  import NormalizationTables
  import NormalizationImpl
  import IdnaTable
  import Mapping
  import ValidityImpl
  import opened Domains
  import DomainSizes

  datatype Tables = Tables(idna: IdnaTable.Tables, normalization: NormalizationTables.Tables,
      validity: ValidityImpl.Tables)

  /** The tables say what `d` says, and `d` has the facts of the Unicode Character Database. */
  ghost predicate Mean(t: Tables, d: Data) {
    && IdnaTable.Represents(t.idna, d.status)
    && NormalizationTables.Valid(t.normalization) && d.unicode == NormalizationTables.Meaning(t.normalization)
    && Facts(d.unicode)
    && ValidityImpl.Valid(t.validity) && d.properties == ValidityImpl.Meaning(t.validity)
  }

  // ---------------------------------------------------------------- steps

  method IsAscii(s: Octets) returns (ascii: bool)
    ensures ascii <==> AsciiMapping.AllAscii(s)
  {
    for i := 0 to |s|
      invariant forall k :: 0 <= k < i ==> s[k] < 0x80
    {
      OctetTest(s[i]);
      if s[i] >= 0x80 { return false; }
    }
    return true;
  }

  lemma OctetTest(b: bv8)
    ensures b >= 0x80 <==> !(b < 0x80)
  {}

  method IsAsciiPoints(s: Points) returns (ascii: bool)
    ensures ascii <==> AllBasic(s)
  {
    for i := 0 to |s|
      invariant forall k :: 0 <= k < i ==> s[k] < 0x80
    {
      if s[i] >= 0x80 { return false; }
    }
    return true;
  }

  method MapStep(t: Tables, ghost d: Data, ready: bool, s: Points) returns (ok: bool, out: Points)
    requires ready ==> Mean(t, d)
    ensures ready ==> (ok <==> Map(d, s).Some?)
    ensures ready && ok ==> Map(d, s) == Some(out)
    ensures !ready ==> !ok
  {
    hide Mapping.MapAll, IdnaTable.Represents, NormalizationTables.Valid, Facts, ValidityImpl.Valid;
    ok, out := Mapping.Map(t.idna, d.status, ready, s);
  }

  method NormalizeStep(t: Tables, ghost d: Data, ready: bool, s: Points) returns (ok: bool, out: Points)
    requires ready ==> Mean(t, d)
    ensures ok <==> ready
    ensures ok ==> out == Normalization.Nfc(d.unicode, s)
  {
    hide Mapping.MapAll, IdnaTable.Represents, NormalizationTables.Valid, Facts, ValidityImpl.Valid, Normalization.Nfc;
    var text := new NormalizationImpl.Text(s);
    ok := NormalizationImpl.Normalize(t.normalization, ready, text);
    out := text.chars;
  }

  method ValidStep(t: Tables, ghost d: Data, s: Points) returns (valid: bool)
    requires Mean(t, d)
    ensures valid <==> ValidityImpl.LabelOk(d.properties, s)
  {
    hide IdnaTable.Represents, NormalizationTables.Valid, Facts, ValidityImpl.Valid, ValidityImpl.LabelOk;
    LabelOkEmpty(d, s);
    valid := ValidityImpl.IsLabelValid(t.validity, true, s);
  }

  lemma LabelOkEmpty(d: Data, s: Points)
    ensures s == [] ==> ValidityImpl.LabelOk(d.properties, s)
  {}

  /** The check of a decoded ACE label in `to_ascii`: the quick check may spare normalization. */
  method AcceptInAscii(t: Tables, ghost d: Data, working: Points) returns (ok: bool)
    requires Mean(t, d)
    ensures ok <==> Acceptable(d, working)
  {
    hide Mean, Map, Normalization.Nfc, ValidityImpl.LabelOk, AllBasic;
    Nonempty(working);
    var ascii := IsAsciiPoints(working);
    if ascii { return false; }
    var mapped, postMap := MapStep(t, d, true, working);
    if !mapped || working != postMap { return false; }
    var quick := QuickCheck(t, d, postMap);
    if !quick {
      var normal, nfc := NormalizeStep(t, d, true, postMap);
      if !normal || nfc != working { return false; }
    }
    if postMap == [] { return false; }
    ok := ValidStep(t, d, postMap);
  }

  lemma Nonempty(s: Points)
    ensures !AllBasic(s) ==> s != []
  {}

  method QuickCheck(t: Tables, ghost d: Data, s: Points) returns (r: bool)
    requires Mean(t, d)
    ensures r ==> Normalization.Nfc(d.unicode, s) == s
  {
    hide IdnaTable.Represents, NormalizationTables.Valid, Facts, ValidityImpl.Valid, Normalization.Nfc,
        NormalizationFastPath.AlreadyNfc;
    r := NormalizationImpl.IsAlreadyNfc(t.normalization, true, s);
    if r {
      NormalizationImpl.NothingIsNfc(d.unicode);
      NormalizationFastPath.QuickCheckSound(d.unicode, s);
    }
  }

  /** The check of a decoded ACE label in `to_unicode`. */
  method AcceptInUnicode(t: Tables, ghost d: Data, ready: bool, tmp: Points) returns (ok: bool)
    requires ready ==> Mean(t, d)
    ensures ok <==> ready && Acceptable(d, tmp)
  {
    hide Mean, Map, Normalization.Nfc, ValidityImpl.LabelOk, AllBasic;
    Nonempty(tmp);
    var ascii := IsAsciiPoints(tmp);
    if ascii { return false; }
    var mapped, postMap := MapStep(t, d, ready, tmp);
    if !mapped || postMap != tmp { return false; }
    var normal, nfc := NormalizeStep(t, d, ready, postMap);
    if !normal || nfc != tmp || nfc == [] { return false; }
    ok := ValidStep(t, d, nfc);
  }

  // ---------------------------------------------------------------- to_ascii

  /** One label of the walk. */
  method AsciiStep(t: Tables, ghost d: Data, part: Points) returns (ok: bool, out: seq<Byte>)
    requires Mean(t, d) && |part| < INT32_MAX
    ensures ok <==> AsciiLabel(d, part).Some?
    ensures ok ==> AsciiLabel(d, part) == Some(out)
  {
    hide Mean, Decode, Encode, Acceptable, ValidityImpl.LabelOk;
    out := [];
    if part == [] { return true, []; }
    var ascii := IsAsciiPoints(part);
    if HasAcePrefix(part) {
      if !ascii { return false, []; }
      var decoded, working := PunycodeImpl.PunycodeToUtf32(part[4..]);
      if !decoded { return false, []; }
      ok := AcceptInAscii(t, d, working);
      return ok, part;
    }
    if ascii { return true, part; }
    var valid := ValidStep(t, d, part);
    if !valid { return false, []; }
    ok, out := PunycodeEncoder.Utf32ToPunycode(part, ACE_PREFIX);
  }

  /** The label walk over mapped and normalized text. */
  method AsciiWalk(t: Tables, ghost d: Data, s: Points) returns (ok: bool, out: seq<Byte>)
    requires Mean(t, d) && |s| < INT32_MAX
    ensures ok <==> AsciiLabels(d, s, 0).Some?
    ensures ok ==> AsciiLabels(d, s, 0) == Some(out)
  {
    hide Mean, AsciiLabel, AsciiLabels, LabelEnd;
    out := [];
    var p: nat := 0;
    PrefixStart(AsciiLabels(d, s, 0));
    while p < |s|
      invariant p <= |s| && AsciiLabels(d, s, 0) == Prefixed(out, AsciiLabels(d, s, p))
      decreases |s| - p
    {
      AsciiLabelsStep(d, s, p);
      var begin := p;
      EndStep(s, DOT, begin, p);
      while p < |s| && s[p] != DOT
        invariant begin <= p <= |s| && LabelEnd(s, DOT, begin) == LabelEnd(s, DOT, p)
        decreases |s| - p
      {
        EndStep(s, DOT, begin, p);
        p := p + 1;
      }
      EndStep(s, DOT, begin, p);
      var good, part := AsciiStep(t, d, s[begin..p]);
      if !good { return false, []; }
      var last := p == |s|;
      if p < |s| { p := p + 1; }
      if !last {
        PrefixTwice(out, part + [DOT], AsciiLabels(d, s, p));
        out := out + (part + [DOT]);
      } else {
        AsciiLabelsEnd(d, s);
        PrefixTwice(out, part, AsciiLabels(d, s, p));
        out := out + part;
      }
    }
    AsciiLabelsEnd(d, s);
    PrefixEnd(out);
    ok := true;
  }

  ghost function Prefixed(a: seq<Byte>, r: Option<seq<Byte>>): Option<seq<Byte>> {
    if r.Some? then Some(a + r.value) else None
  }

  lemma PrefixStart(r: Option<seq<Byte>>)
    ensures Prefixed([], r) == r
  {
    if r.Some? { assert [] + r.value == r.value; }
  }

  lemma PrefixEnd(a: seq<Byte>)
    ensures Prefixed(a, Some([])) == Some(a)
  {
    assert a + [] == a;
  }

  lemma PrefixTwice(a: seq<Byte>, b: seq<Byte>, r: Option<seq<Byte>>)
    ensures Prefixed(a, Prefixed(b, r)) == Prefixed(a + b, r)
  {
    if r.Some? { assert a + (b + r.value) == (a + b) + r.value; }
  }

  lemma EndStep<T>(s: seq<T>, dot: T, begin: nat, p: nat)
    requires begin <= p <= |s|
    ensures LabelEnd(s, dot, p) == if p == |s| || s[p] == dot then p else LabelEnd(s, dot, p + 1)
  {}

  lemma AsciiLabelsStep(d: Data, s: Points, from: nat)
    requires from < |s|
    ensures var e := LabelEnd(s, DOT, from);
            AsciiLabels(d, s, from) == (
              match AsciiLabel(d, s[from..e])
              case None => None
              case Some(part) =>
                if e == |s| then Prefixed(part, Some([])) else Prefixed(part + [DOT], AsciiLabels(d, s, e + 1)))
  {
    hide AsciiLabel;
    var e := LabelEnd(s, DOT, from);
    if AsciiLabel(d, s[from..e]).Some? { PrefixEnd(AsciiLabel(d, s[from..e]).value); }
  }

  lemma AsciiLabelsEnd(d: Data, s: Points)
    ensures AsciiLabels(d, s, |s|) == Some([])
  {}

  /** `to_ascii`; `ready` is what `ensure_tables` returned. ASCII input needs no tables. */
  method ToAsciiDomain(t: Tables, ghost d: Data, ready: bool, input: Octets) returns (ok: bool, out: Octets)
    requires ready ==> Mean(t, d) && DomainSizes.SmallData(d)
    ensures ready || AsciiMapping.AllAscii(input) ==> (ok <==> ToAscii(d, input).Some?)
    ensures ready || AsciiMapping.AllAscii(input) ==> (ok ==> ToAscii(d, input) == Some(out))
    ensures !ready && !AsciiMapping.AllAscii(input) ==> !ok
    ensures !ok ==> out == []
  {
    hide Mean, AsciiLabels, Normalization.Nfc, Map, AllBasic, AsciiMapping.AllAscii, DomainSizes.SmallData;
    var ascii := IsAscii(input);
    if ascii {
      out := LowerCopy(input);
      return true, out;
    }
    out := [];
    NothingIsAscii();
    if |input| > MAX_DOMAIN_INPUT_BYTES { return false, []; }
    var read, working := ReadUtf8(input);
    if !read { return false, []; }
    var mapped, m := MapStep(t, d, ready, working);
    if !mapped { return false, []; }
    DomainSizes.NormalizedFits(d, input);
    var asciiMapped := IsAsciiPoints(m);
    if !asciiMapped {
      var quick := QuickCheck(t, d, m);
      if !quick {
        var normal, nfc := NormalizeStep(t, d, ready, m);
        m := nfc;
      }
    }
    var good, bytes := AsciiWalk(t, d, m);
    if !good { return false, []; }
    return true, Octs(bytes);
  }

  lemma NothingIsAscii()
    ensures AsciiMapping.AllAscii([])
  {}

  method LowerCopy(input: Octets) returns (out: Octets)
    requires AsciiMapping.AllAscii(input)
    ensures out == AsciiMapping.LowerAll(input)
  {
    hide AsciiMapping.Lower;
    var copy := new bv8[|input|](i requires 0 <= i < |input| => input[i]);
    assert copy[..] == input;
    AsciiMapping.AsciiMap(copy);
    out := copy[..];
  }

  /** Exact sizing, conversion and the check of its result. */
  method ReadUtf8(input: Octets) returns (ok: bool, points: Points)
    requires input != []
    ensures ok <==> PointsOfUtf8(input).Some?
    ensures ok ==> PointsOfUtf8(input) == Some(points)
  {
    hide Transcoding.Decode, Transcoding.Leads, WellFormed;
    var length := TranscodingImpl.Utf32LengthFromUtf8(input);
    Lengths(input);
    if length == 0 { return false, []; }
    var working := new bv32[length];
    var actual := TranscodingImpl.Utf8ToUtf32(input, working);
    if actual == 0 || actual != length { return false, []; }
    return true, PointsOf(working[..actual]);
  }

  lemma Lengths(input: Octets)
    requires input != []
    ensures Transcoding.Decode(input, 0).Some? ==>
              0 < |Transcoding.Decode(input, 0).value| == Transcoding.Leads(input, |input|)
  {
    if Transcoding.Decode(input, 0).Some? { Transcoding.LengthFromUtf8(input, 0); }
  }

  // ---------------------------------------------------------------- to_unicode

  lemma {:induction false} DecodeFromFits(out: Points, n: nat, i: nat, bias: nat, input: seq<Byte>)
    requires n <= INT32_MAX && Fit(out) && DecodeFrom(out, n, i, bias, input).Some?
    ensures Fit(DecodeFrom(out, n, i, bias, input).value)
    decreases |input|
  {
    hide ReadVarInt, Advance;
    if input != [] {
      var (i', rest) := ReadVarInt(input, i, 1, BASE, bias).value;
      var (n', pos) := Advance(n, i', |out| + 1).value;
      DecodeFromFits(InsertAt(out, pos, n'), n', pos + 1, Adapt(i' - i, |out| + 1, i == 0), rest);
    }
  }

  /** Decoded values fit 32 bits. */
  lemma DecodeFits(input: seq<Byte>)
    requires Decode(input).Some?
    ensures Fit(Decode(input).value)
  {
    hide DecodeFrom, LastDelimiter;
    var (basic, encoded) := Split(input);
    DecodeFromFits(basic, INITIAL_N, 0, INITIAL_BIAS, encoded);
  }

  lemma SameScalars(u: Points)
    requires Fit(u)
    ensures Transcoding.AllScalars(WordsOf(u), |u|) <==> AllScalar(u)
  {
    hide Scalar, WordOf;
    forall i | 0 <= i < |u| ensures Scalar(WordsOf(u)[i]) <==> u[i] <= 0x10FFFF && IsScalar(u[i]) {
      ScalarAsInteger(WordsOf(u)[i]);
    }
  }

  lemma SizesPositive(w: Words)
    requires w != []
    ensures Transcoding.Sizes(w, |w|) > 0
  {}

  /** The label as UTF-8; `ok` is false if what was written differs from the computed size. */
  method WriteUtf8(u: Points) returns (ok: bool, out: Octets)
    requires Fit(u) && u != []
    ensures ok <==> AllScalar(u)
    ensures ok ==> out == Utf8Of(u)
  {
    hide Transcoding.Encode, Transcoding.Sizes, Transcoding.AllScalars, AllScalar, WordOf;
    var words := WordsOf(u);
    SameScalars(u);
    SizesPositive(words);
    var size := TranscodingImpl.Utf8LengthFromUtf32(words);
    var buffer := new bv8[size];
    var written := TranscodingImpl.Utf32ToUtf8(words, buffer);
    if Transcoding.AllScalars(words, |words|) { Transcoding.LengthFromUtf32(words, |words|); }
    ok := written == size;
    out := if ok then buffer[..written] else [];
  }

  /** One label of the walk. */
  method UnicodeStep(t: Tables, ghost d: Data, ready: bool, part: Octets) returns (out: Octets)
    requires (ready ==> Mean(t, d)) && |part| <= MAX_DOMAIN_INPUT_BYTES
    ensures out == if ready then UnicodeLabel(d, part) else part
  {
    hide Mean, Decode, Acceptable, AsciiMapping.AllAscii, AllScalar, Fit, Utf8Of;
    var ascii := IsAscii(part);
    if !(StartsWithAce(part) && ascii) { return part; }
    var decoded, tmp := PunycodeImpl.PunycodeToUtf32(Ints(part[4..]));
    if !decoded { return part; }
    var accept := AcceptInUnicode(t, d, ready, tmp);
    if !accept { return part; }
    DecodeFits(Ints(part[4..]));
    AcceptableNonempty(d, tmp);
    var written, text := WriteUtf8(tmp);
    if !written { return part; }
    out := text;
  }

  lemma AcceptableNonempty(d: Data, u: Points)
    requires Acceptable(d, u)
    ensures u != []
  {}

  /** `to_unicode`; false only for input over the size limit. Without tables nothing is decoded. */
  method ToUnicodeDomain(t: Tables, ghost d: Data, ready: bool, input: Octets) returns (ok: bool, output: Octets)
    requires ready ==> Mean(t, d)
    ensures ok <==> |input| <= MAX_DOMAIN_INPUT_BYTES
    ensures !ok ==> output == []
    ensures ok && ready ==> ToUnicode(d, input) == Some(output)
    ensures ok && !ready ==> output == input
  {
    hide Mean, UnicodeLabel, UnicodeLabels, LabelEnd;
    output := [];
    if |input| > MAX_DOMAIN_INPUT_BYTES { return false, []; }
    var labelStart: nat := 0;
    assert [] + UnicodeLabels(d, input, 0) == UnicodeLabels(d, input, 0);
    while labelStart < |input|
      invariant labelStart <= |input| + 1
      invariant ready && labelStart <= |input| ==>
          output + UnicodeLabels(d, input, labelStart) == UnicodeLabels(d, input, 0)
      invariant ready && labelStart > |input| ==> output == UnicodeLabels(d, input, 0)
      invariant !ready ==> output == if labelStart <= |input| then input[..labelStart] else input
      decreases |input| + 1 - labelStart
    {
      var locDot := FindDot(input, labelStart);
      var last := locDot == |input|;
      var part := UnicodeStep(t, d, ready, input[labelStart..locDot]);
      UnicodeLabelsStep(d, input, labelStart);
      AppendLabel(output, part, if last then [] else UnicodeLabels(d, input, locDot + 1));
      if !ready { assert input[..labelStart] + input[labelStart..locDot] == input[..locDot]; }
      output := output + part;
      if !last { output := output + [0x2E]; }
      labelStart := locDot + 1;
    }
    if labelStart == |input| {
      UnicodeLabelsEnd(d, input);
      assert output + [] == output && input[..|input|] == input;
    }
    ok := true;
  }

  lemma AppendLabel(a: Octets, b: Octets, c: Octets)
    ensures a + (b + [0x2E] + c) == (a + b) + [0x2E] + c
  {}

  lemma UnicodeLabelsStep(d: Data, s: Octets, from: nat)
    requires from < |s|
    ensures var e := LabelEnd(s, 0x2E, from);
            UnicodeLabels(d, s, from)
            == if e == |s| then UnicodeLabel(d, s[from..e])
               else UnicodeLabel(d, s[from..e]) + [0x2E] + UnicodeLabels(d, s, e + 1)
  {
    hide UnicodeLabel;
  }

  lemma UnicodeLabelsEnd(d: Data, s: Octets)
    ensures UnicodeLabels(d, s, |s|) == []
  {}

  /** `input.find('.', from)`, the size of the input if there is none. */
  method FindDot(input: Octets, from: nat) returns (at: nat)
    requires from <= |input|
    ensures at == LabelEnd(input, 0x2E, from)
  {
    hide LabelEnd;
    at := from;
    EndStep(input, 0x2E, from, at);
    while at < |input| && input[at] != 0x2E
      invariant from <= at <= |input| && LabelEnd(input, 0x2E, from) == LabelEnd(input, 0x2E, at)
      decreases |input| - at
    {
      EndStep(input, 0x2E, from, at);
      at := at + 1;
    }
    EndStep(input, 0x2E, from, at);
  }
}
