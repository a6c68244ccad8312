/** Hangul syllables as section 3.12 of the Unicode Standard gives them, in code points. */
module HangulStandard {
  import opened Basics
  import opened UnicodeData
  import opened CanonicalOrder
  import opened Normalization

  /** The blocks: 11172 syllables, 19 leading consonants, 21 vowels, 27 trailing consonants. */
  lemma Blocks(c: nat)
    ensures IsSyllable(c) <==> 0xAC00 <= c <= 0xD7A3
    ensures IsL(c) <==> 0x1100 <= c <= 0x1112
    ensures IsV(c) <==> 0x1161 <= c <= 0x1175
    ensures IsT(c) <==> 0x11A8 <= c <= 0x11C2
    ensures IsLV(c) <==> 0xAC00 <= c <= 0xD7A3 && (c - 0xAC00) % 28 == 0
  {}

  /** The syllable of leading consonant `l`, vowel `v` and trailing consonant `t`, none if 0. */
  function Syllable(l: nat, v: nat, t: nat): (c: nat)
    requires l < 19 && v < 21 && t < 28
    ensures 0xAC00 <= c <= 0xD7A3
  {
    0xAC00 + (l * 21 + v) * 28 + t
  }

  /** Its jamo. */
  function JamoOf(l: nat, v: nat, t: nat): Points {
    if t == 0 then [0x1100 + l, 0x1161 + v] else [0x1100 + l, 0x1161 + v, 0x11A7 + t]
  }

  /** Every syllable is that of one triple. */
  lemma EverySyllable(c: nat) returns (l: nat, v: nat, t: nat)
    requires 0xAC00 <= c <= 0xD7A3
    ensures l < 19 && v < 21 && t < 28 && Syllable(l, v, t) == c
  {
    var i := c - 0xAC00;
    l, v, t := i / 588, (i % 588) / 28, i % 28;
    var r := i % 588;
    assert i == l * 588 + r && r == v * 28 + r % 28;
    Quotient(r % 28, l * 21 + v, 28);
    assert i == (l * 21 + v) * 28 + r % 28;
  }

  /** A syllable decomposes to its jamo. */
  lemma SyllableDecomposes(u: Unicode, l: nat, v: nat, t: nat)
    requires l < 19 && v < 21 && t < 28
    ensures Full(u, Syllable(l, v, t)) == JamoOf(l, v, t)
  {
    HangulIndex(l, v, t);
  }

  lemma JamoFacts(u: Unicode, l: nat, v: nat, t: nat)
    requires Facts(u) && l < 19 && v < 21 && t < 28
    ensures Undecomposable(u, JamoOf(l, v, t)) && forall c :: c in JamoOf(l, v, t) ==> u.ccc(c) == 0
  {
    var s := JamoOf(l, v, t);
    forall j | 0 <= j < |s| ensures IsJamo(s[j]) && !IsSyllable(s[j]) {}
  }

  /** The jamo compose to the syllable. */
  lemma JamoCompose(u: Unicode, l: nat, v: nat, t: nat)
    requires l < 19 && v < 21 && t < 28
    ensures Compose(u, JamoOf(l, v, t)) == [Syllable(l, v, t)]
  {
    hide ComposeOnto;
    var s := JamoOf(l, v, t);
    assert s[2..] == [] || t > 0;
    assert t > 0 ==> s[3..] == [];
    assert Compose(u, []) == [];
    assert [Syllable(l, v, t)] + [] == [Syllable(l, v, t)];
  }

  /** Normalization: the jamo of a syllable, and the syllable itself, become the syllable. */
  lemma JamoNormalize(u: Unicode, l: nat, v: nat, t: nat)
    requires Facts(u) && l < 19 && v < 21 && t < 28
    ensures Nfd(u, [Syllable(l, v, t)]) == Nfd(u, JamoOf(l, v, t)) == JamoOf(l, v, t)
    ensures Nfc(u, JamoOf(l, v, t)) == Nfc(u, [Syllable(l, v, t)]) == [Syllable(l, v, t)]
  {
    var s := JamoOf(l, v, t);
    JamoFacts(u, l, v, t);
    SyllableDecomposes(u, l, v, t);
    JamoCompose(u, l, v, t);
    assert forall j :: 0 <= j < |s| ==> s[j] in s;
    hide Facts, Full, Compose, Sorted, Decomposed, JamoOf, View;
    DecomposedOne(u, Syllable(l, v, t));
    DecomposedUnchanged(u, s);
    SortedUnique(u, s, s);
  }

  /** The example of section 3.12: U+D4DB and U+1111 U+1171 U+11B6; and U+AC01. */
  lemma Examples(u: Unicode)
    requires Facts(u)
    ensures Nfd(u, [0xD4DB]) == [0x1111, 0x1171, 0x11B6] && Nfc(u, [0x1111, 0x1171, 0x11B6]) == [0xD4DB]
    ensures Nfd(u, [0xAC01]) == [0x1100, 0x1161, 0x11A8] && Nfc(u, [0x1100, 0x1161, 0x11A8]) == [0xAC01]
    ensures Nfd(u, [0xAC00]) == [0x1100, 0x1161] && Nfc(u, [0x1100, 0x1161]) == [0xAC00]
  {
    hide Facts, Nfd, Nfc;
    JamoNormalize(u, 17, 16, 15);
    JamoNormalize(u, 0, 0, 1);
    JamoNormalize(u, 0, 0, 0);
  }
}
