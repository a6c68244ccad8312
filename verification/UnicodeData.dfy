/** What normalization needs to know about code points, however it is stored, and the facts of
    the Unicode Character Database that the theorems rely on. */
module UnicodeData {
  import opened Basics

  /** Full canonical decomposition (empty if none; Hangul syllables have none here), canonical
      combining class, and primary composite of a pair. */
  datatype Unicode = Unicode(canonical: nat -> Points, ccc: nat -> nat, pair: (nat, nat) -> Option<nat>)

  // ---------------------------------------------------------------- Hangul, src/normalization.cpp:11-20

  const SBASE := 0xAC00
  const TBASE := 0x11A7
  const VBASE := 0x1161
  const LBASE := 0x1100
  const LCOUNT := 19
  const VCOUNT := 21
  const TCOUNT := 28
  const NCOUNT := 588
  const SCOUNT := 11172

  predicate IsSyllable(c: nat) { SBASE <= c < SBASE + SCOUNT }
  predicate IsL(c: nat) { LBASE <= c < LBASE + LCOUNT }
  predicate IsV(c: nat) { VBASE <= c < VBASE + VCOUNT }
  predicate IsT(c: nat) { TBASE < c < TBASE + TCOUNT }
  predicate IsJamo(c: nat) { IsL(c) || IsV(c) || IsT(c) }
  predicate IsHangul(c: nat) { IsSyllable(c) || IsJamo(c) }

  /** A syllable without a trailing consonant. */
  predicate IsLV(c: nat) { IsSyllable(c) && (c - SBASE) % TCOUNT == 0 }

  function LPart(c: nat): (l: nat) requires IsSyllable(c) ensures IsL(l) { LBASE + (c - SBASE) / NCOUNT }
  function VPart(c: nat): (v: nat) requires IsSyllable(c) ensures IsV(v) { VBASE + ((c - SBASE) % NCOUNT) / TCOUNT }
  function TPart(c: nat): (t: nat)
    requires IsSyllable(c) && !IsLV(c)
    ensures IsT(t)
  {
    TBASE + (c - SBASE) % TCOUNT
  }

  function Jamo(c: nat): Points
    requires IsSyllable(c)
  {
    if IsLV(c) then [LPart(c), VPart(c)] else [LPart(c), VPart(c), TPart(c)]
  }

  function ComposeLV(l: nat, v: nat): (c: nat)
    requires IsL(l) && IsV(v)
    ensures IsLV(c)
  {
    SBASE + ((l - LBASE) * VCOUNT + v - VBASE) * TCOUNT
  }

  function ComposeLVT(lv: nat, t: nat): (c: nat)
    requires IsLV(lv) && IsT(t)
    ensures IsSyllable(c) && !IsLV(c)
  {
    lv + t - TBASE
  }

  /** Hangul decomposition and composition are inverse to each other. */
  lemma HangulRoundTrip(c: nat)
    requires IsSyllable(c)
    ensures IsLV(c) ==> ComposeLV(LPart(c), VPart(c)) == c
    ensures !IsLV(c) ==> ComposeLVT(ComposeLV(LPart(c), VPart(c)), TPart(c)) == c
  {}

  lemma HangulParts(l: nat, v: nat, t: nat)
    requires IsL(l) && IsV(v)
    ensures Jamo(ComposeLV(l, v)) == [l, v]
    ensures IsT(t) ==> Jamo(ComposeLVT(ComposeLV(l, v), t)) == [l, v, t]
  {
    HangulIndex(l - LBASE, v - VBASE, 0);
    if IsT(t) { HangulIndex(l - LBASE, v - VBASE, t - TBASE); }
  }

  /** The three numbers in the index of a syllable. */
  lemma HangulIndex(a: nat, b: nat, c: nat)
    requires b < 21 && c < 28
    ensures var i := (a * 21 + b) * 28 + c;
            i / 588 == a && i % 588 == b * 28 + c && (i % 588) / 28 == b && i % 28 == c
  {
    var r := b * 28 + c;
    assert r < 588 && (a * 21 + b) * 28 + c == r + a * 588;
    Quotient(r, a, 588);
    Quotient(c, b, 28);
    Quotient(c, a * 21 + b, 28);
  }

  // ---------------------------------------------------------------- hypotheses

  /** The full decomposition of one character, itself if it has none. */
  function Full(u: Unicode, c: nat): (d: Points)
    ensures d != []
  {
    if IsSyllable(c) then Jamo(c)
    else if u.canonical(c) != [] then u.canonical(c)
    else [c]
  }

  /** `s` is in canonical order when it follows a character of class `p`. */
  predicate OrderedAfter(u: Unicode, p: nat, s: Points)
    decreases |s|
  {
    s == [] || ((u.ccc(s[0]) == 0 || p <= u.ccc(s[0])) && OrderedAfter(u, u.ccc(s[0]), s[1..]))
  }

  /** Decompositions are full and in canonical order; no character decomposes to itself. */
  ghost predicate FullDecompositions(u: Unicode) {
    forall c: nat {:trigger u.canonical(c)} ::
      && u.canonical(c) != [c]
      && (forall e :: e in u.canonical(c) ==> Full(u, e) == [e]) && OrderedAfter(u, 0, u.canonical(c))
  }

  /** A pair composes two characters to one with the joined decompositions; the first and the
      composite are starters, the second does not decompose; Hangul composes by arithmetic only. */
  ghost predicate PrimaryComposites(u: Unicode) {
    forall a: nat, b: nat {:trigger u.pair(a, b)} :: u.pair(a, b).Some? ==>
      var c := u.pair(a, b).value;
      && a < 0x110000 && c < 0x110000
      && u.ccc(a) == 0 && u.ccc(c) == 0
      && !IsHangul(a) && !IsHangul(b) && !IsHangul(c)
      && Full(u, b) == [b] && Full(u, c) == Full(u, a) + Full(u, b)
  }

  /** Hangul syllables and jamo are starters; jamo have no decomposition. */
  ghost predicate HangulFacts(u: Unicode) {
    && (forall c :: IsHangul(c) ==> u.ccc(c) == 0)
    && (forall c :: IsJamo(c) ==> u.canonical(c) == [])
  }

  /** Values that are no code points have no properties. */
  ghost predicate CodePointsOnly(u: Unicode) {
    forall c: nat :: c >= 0x110000 ==> u.ccc(c) == 0 && u.canonical(c) == []
  }

  /** The facts of the Unicode Character Database used by the theorems. */
  ghost predicate Facts(u: Unicode) {
    FullDecompositions(u) && PrimaryComposites(u) && HangulFacts(u) && CodePointsOnly(u)
  }
}
