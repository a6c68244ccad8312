/** The same bytes and code points as machine words and as mathematical integers. */
module Conversions {
  import opened Basics
  import opened Utf8

  // ---------------------------------------------------------------- bytes

  function ByteOf(w: bv8): (b: Byte)
    ensures b == w as int
  {
    w as int
  }

  function Ints(s: Octets): (r: seq<Byte>)
    ensures |r| == |s| && forall i :: 0 <= i < |r| ==> r[i] == s[i] as int
  {
    seq(|s|, i requires 0 <= i < |s| => ByteOf(s[i]))
  }

  lemma DoubledOctet(w: bv8)
    requires w < 0x80
    ensures (w << 1) as int == 2 * (w as int) && ((w << 1) | 1) as int == 2 * (w as int) + 1
  {}

  lemma SmallOctet(w: bv8)
    requires w as int < 0x80
    ensures w < 0x80
  {}

  function OctetOf(b: Byte): (w: bv8)
    ensures w as int == b
  {
    if b == 0 then 0
    else
      var half := OctetOf(b / 2);
      SmallOctet(half);
      DoubledOctet(half);
      if b % 2 == 1 then (half << 1) | 1 else half << 1
  }

  function Octs(s: seq<Byte>): (r: Octets)
    ensures |r| == |s| && forall i :: 0 <= i < |r| ==> r[i] == OctetOf(s[i])
  {
    seq(|s|, i requires 0 <= i < |s| => OctetOf(s[i]))
  }

  lemma ByteBack(b: bv8)
    ensures (b as int) as bv8 == b
  {}

  lemma OctetBack(b: bv8)
    ensures OctetOf(b as int) == b
  {
    hide OctetOf;
    ByteBack(b);
    ByteBack(OctetOf(b as int));
  }

  lemma OctsOfInts(s: Octets)
    ensures Octs(Ints(s)) == s
  {
    hide OctetOf;
    forall i | 0 <= i < |s| ensures Octs(Ints(s))[i] == s[i] { OctetBack(s[i]); }
  }

  // ---------------------------------------------------------------- code points

  lemma Doubled(w: bv32)
    requires w < 0x8000_0000
    ensures (w << 1) as int == 2 * (w as int) && ((w << 1) | 1) as int == 2 * (w as int) + 1
  {}

  lemma Small(w: bv32)
    requires w as int < 0x8000_0000
    ensures w < 0x8000_0000
  {}

  function WordOf(c: nat): (w: bv32)
    requires c < 0x1_0000_0000
    ensures w as int == c
  {
    if c == 0 then 0
    else
      var half := WordOf(c / 2);
      Small(half);
      Doubled(half);
      if c % 2 == 1 then (half << 1) | 1 else half << 1
  }

  lemma WordBack(w: bv32)
    ensures (w as int) as bv32 == w
  {}

  lemma WordInjective(v: bv32, w: bv32)
    requires v as int == w as int
    ensures v == w
  {
    WordBack(v);
    WordBack(w);
  }

  function PointOf(w: bv32): (c: nat)
    ensures c == w as int
  {
    w as int
  }

  function PointsOf(u: Words): (r: Points)
    ensures |r| == |u| && forall i :: 0 <= i < |r| ==> r[i] == u[i] as int
  {
    seq(|u|, i requires 0 <= i < |u| => PointOf(u[i]))
  }

  predicate Fit(s: Points) {
    forall i :: 0 <= i < |s| ==> s[i] < 0x1_0000_0000
  }

  function WordsOf(s: Points): (u: Words)
    requires Fit(s)
    ensures |u| == |s| && forall i :: 0 <= i < |u| ==> u[i] == WordOf(s[i])
  {
    seq(|s|, i requires 0 <= i < |s| => WordOf(s[i]))
  }

  lemma PointsOfWords(s: Points)
    requires Fit(s)
    ensures PointsOf(WordsOf(s)) == s
  {
    hide WordOf;
    forall i | 0 <= i < |s| ensures PointsOf(WordsOf(s))[i] == s[i] {
      assert WordsOf(s)[i] == WordOf(s[i]);
    }
  }

  lemma ScalarAsInteger(w: bv32)
    ensures Scalar(w) <==> w as int <= 0x10FFFF && IsScalar(w as int)
  {}
}
