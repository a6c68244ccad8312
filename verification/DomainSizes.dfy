/** Mapped and normalized text stays far below the range of `int32_t`. */
module DomainSizes {
  import opened Basics
  import opened Utf8
  import opened Conversions
  import Transcoding
  import opened UnicodeData
  import opened CanonicalOrder
  import opened Normalization
  import Mapping
  import opened Domains

  /** Longest mapping and longest full decomposition that are allowed for; Unicode has 18 and 4. */
  const LONGEST := 256

  ghost predicate SmallData(d: Data) {
    && (forall c: nat :: d.status(c).Mapped? ==> |d.status(c).cps| <= LONGEST)
    && (forall c: nat :: |Full(d.unicode, c)| <= LONGEST)
  }

  lemma {:induction false} MapSize(d: Data, s: Points, n: nat)
    requires SmallData(d) && n <= |s| && Mapping.MapAll(d.status, s, n).Some?
    ensures |Mapping.MapAll(d.status, s, n).value| <= LONGEST * n
  {
    if n > 0 { MapSize(d, s, n - 1); }
  }

  lemma {:induction false} DecomposedSize(d: Data, s: Points)
    requires SmallData(d)
    ensures |Decomposed(d.unicode, s)| <= LONGEST * |s|
  {
    hide Full;
    if s != [] { DecomposedSize(d, s[1..]); }
  }

  /** Composition never lengthens. */
  lemma {:induction false} ComposeShortens(u: Unicode, s: Points)
    ensures |Compose(u, s)| <= |s|
    decreases |s|, 1
  {
    hide ComposeOnto, ComposeLV, ComposeLVT;
    if s != [] {
      var c := s[0];
      if !IsL(c) && !IsSyllable(c) && c < 0x110000 {
        OntoShortens(u, c, -1, [], s[1..]);
      } else {
        ComposeShortens(u, s[1..]);
        if |s| > 1 { ComposeShortens(u, s[2..]); }
        if |s| > 2 { ComposeShortens(u, s[3..]); }
      }
    }
  }

  lemma {:induction false} OntoShortens(u: Unicode, base: nat, p: int, kept: Points, s: Points)
    ensures |ComposeOnto(u, base, p, kept, s)| <= 1 + |kept| + |s|
    decreases |s|, 2
  {
    hide Compose;
    if s != [] {
      if p < u.ccc(s[0]) && u.pair(base, s[0]).Some? {
        OntoShortens(u, u.pair(base, s[0]).value, p, kept, s[1..]);
      } else if u.ccc(s[0]) == 0 {
        ComposeShortens(u, s);
      } else {
        OntoShortens(u, base, u.ccc(s[0]), kept + [s[0]], s[1..]);
      }
    }
  }

  lemma NormalizedSize(d: Data, m: Points)
    requires SmallData(d)
    ensures |Normalized(d, m)| <= LONGEST * |m|
  {
    hide Full, Sorted, Compose, SmallData;
    DecomposedSize(d, m);
    ComposeShortens(d.unicode, Nfd(d.unicode, m));
  }

  lemma PointsSize(input: Octets)
    requires PointsOfUtf8(input).Some?
    ensures |PointsOfUtf8(input).value| <= |input|
  {
    hide Transcoding.Decode, Transcoding.Leads;
    if input != [] { Transcoding.LengthFromUtf8(input, 0); }
    NothingDecoded(input);
  }

  lemma NothingDecoded(input: Octets)
    ensures input == [] ==> Transcoding.Decode(input, 0) == Some([])
  {}

  /** For input within the size limit, mapped and normalized text is shorter than 2^31-1. */
  lemma NormalizedFits(d: Data, input: Octets)
    requires SmallData(d) && |input| <= MAX_DOMAIN_INPUT_BYTES && PointsOfUtf8(input).Some?
    ensures var m := Map(d, PointsOfUtf8(input).value); m.Some? ==> |Normalized(d, m.value)| <= 0x4000_0000 < INT32_MAX
  {
    hide SmallData, Normalized, PointsOfUtf8, Mapping.MapAll;
    var u := PointsOfUtf8(input).value;
    PointsSize(input);
    if Map(d, u).Some? {
      MapSize(d, u, |u|);
      NormalizedSize(d, Map(d, u).value);
    }
  }
}
