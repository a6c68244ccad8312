/** src/unicode_transcoding.cpp: conversion between UTF-8 and UTF-32, with its ASCII fast paths. */
module Transcoding {
  import opened Basics
  import opened Utf8

  // ---------------------------------------------------------------- decoding

  /** The code points of the UTF8-chars from `p` on; `None` if the grammar does not match. */
  function Decode(s: Octets, p: nat): (r: Option<Words>)
    requires p <= |s|
    ensures r.Some? <==> WellFormed(s, p)
    decreases |s| - p
  {
    if p == |s| then Some([])
    else if CharLength(s, p) == 0 then None
    else Prepend([CodePoint(s, p)], Decode(s, p + CharLength(s, p)))
  }

  function Prepend(a: Words, r: Option<Words>): Option<Words> {
    if r.Some? then Some(a + r.value) else None
  }

  lemma PrependTwice(a: Words, b: Words, r: Option<Words>)
    ensures Prepend(a, Prepend(b, r)) == Prepend(a + b, r)
  {
    if r.Some? { assert a + (b + r.value) == (a + b) + r.value; }
  }

  // ---------------------------------------------------------------- encoding

  predicate AllScalars(u: Words, n: nat)
    requires n <= |u|
  {
    forall i :: 0 <= i < n ==> Scalar(u[i])
  }

  /** The UTF8-chars of the first `n` words. */
  function Encode(u: Words, n: nat): Octets
    requires n <= |u| && AllScalars(u, n)
  {
    if n == 0 then [] else Encode(u, n - 1) + EncodeChar(u[n - 1])
  }

  // ---------------------------------------------------------------- lengths

  /** Bytes that are no continuation bytes, among the first `n`. */
  function Leads(s: Octets, n: nat): (k: nat)
    requires n <= |s|
    ensures k <= n
  {
    if n == 0 then 0 else Leads(s, n - 1) + if Tail(s[n - 1]) then 0 else 1
  }

  /** What `utf8_length_from_utf32` counts for one word, a scalar value or not. */
  function Size(c: bv32): nat {
    if c > 0xFFFF then 4 else if c > 0x7FF then 3 else if c > 0x7F then 2 else 1
  }

  function Sizes(u: Words, n: nat): nat
    requires n <= |u|
  {
    if n == 0 then 0 else Sizes(u, n - 1) + Size(u[n - 1])
  }

  lemma {:induction false} LeadsMonotone(s: Octets, m: nat, n: nat)
    requires m <= n <= |s|
    ensures Leads(s, m) <= Leads(s, n)
  {
    if m < n { LeadsMonotone(s, m, n - 1); }
  }

  lemma {:induction false} SizesMonotone(u: Words, m: nat, n: nat)
    requires m <= n <= |u|
    ensures Sizes(u, m) <= Sizes(u, n)
  {
    if m < n { SizesMonotone(u, m, n - 1); }
  }

  /** A UTF8-char has exactly one byte that is no continuation byte. */
  lemma CharLeads(s: Octets, p: nat)
    requires p < |s| && CharLength(s, p) > 0
    ensures Leads(s, p + CharLength(s, p)) == Leads(s, p) + 1
  {
    Classes(s[p]);
    var n := CharLength(s, p);
    assert n >= 2 ==> Tail(s[p + 1]);
    assert Leads(s, p + 1) == Leads(s, p) + 1;
    if n >= 2 { assert Leads(s, p + 2) == Leads(s, p + 1); }
    if n >= 3 { assert Leads(s, p + 3) == Leads(s, p + 2); }
    if n >= 4 { assert Leads(s, p + 4) == Leads(s, p + 3); }
  }

  lemma Classes(b: bv8)
    ensures b <= 0x7F || 0xC2 <= b ==> !Tail(b)
  {}

  /** On well-formed input the length function gives exactly the number of code points. */
  lemma {:induction false} LengthFromUtf8(s: Octets, p: nat)
    requires p <= |s| && Decode(s, p).Some?
    ensures Leads(s, p) + |Decode(s, p).value| == Leads(s, |s|)
    decreases |s| - p
  {
    if p < |s| {
      CharLeads(s, p);
      hide Leads, CharLength, CodePoint, Tail;
      LengthFromUtf8(s, p + CharLength(s, p));
    }
  }

  /** On scalar values the length function gives exactly the number of bytes. */
  lemma {:induction false} LengthFromUtf32(u: Words, n: nat)
    requires n <= |u| && AllScalars(u, n)
    ensures |Encode(u, n)| == Sizes(u, n)
  {
    if n > 0 {
      LengthFromUtf32(u, n - 1);
      SizeOfChar(u[n - 1]);
    }
  }

  lemma SizeOfChar(c: bv32)
    requires Scalar(c)
    ensures |EncodeChar(c)| == Size(c)
  {}

  // ---------------------------------------------------------------- round trips

  lemma OneThere(s: Octets, p: nat)
    requires p < |s| && s[p] <= 0x7F
    ensures CharLength(s, p) == 1 && CodePoint(s, p) == s[p] as bv32
  {}

  lemma TwoThere(s: Octets, p: nat)
    requires p + 1 < |s| && 0xC2 <= s[p] <= 0xDF && Tail(s[p + 1])
    ensures CharLength(s, p) == 2 && CodePoint(s, p) == Two(s[p], s[p + 1])
  {
    NotAscii(s[p]);
    hide Tail, Two, Three, Four;
  }

  lemma ThreeThere(s: Octets, p: nat)
    requires p + 2 < |s| && 0xE0 <= s[p] <= 0xEF && Second3(s[p], s[p + 1]) && Tail(s[p + 2])
    ensures CharLength(s, p) == 3 && CodePoint(s, p) == Three(s[p], s[p + 1], s[p + 2])
  {
    NotAscii(s[p]);
    hide Tail, Second3, Two, Three, Four;
  }

  lemma FourThere(s: Octets, p: nat)
    requires p + 3 < |s| && 0xF0 <= s[p] <= 0xF4
    requires Second4(s[p], s[p + 1]) && Tail(s[p + 2]) && Tail(s[p + 3])
    ensures CharLength(s, p) == 4 && CodePoint(s, p) == Four(s[p], s[p + 1], s[p + 2], s[p + 3])
  {
    NotAscii(s[p]);
    hide Tail, Second4, Two, Three, Four;
  }

  /** A UTF8-char is read back wherever it stands. */
  lemma CharThere(s: Octets, p: nat, c: bv32)
    requires Scalar(c) && p + |EncodeChar(c)| <= |s| && s[p..p + |EncodeChar(c)|] == EncodeChar(c)
    ensures CharLength(s, p) == |EncodeChar(c)| && CodePoint(s, p) == c
  {
    hide CharLength, CodePoint, Two, Three, Four, Lead2, Lead3, Lead4, Low6, Mid6, High6, Second3, Second4, Tail, Octet;
    var e := EncodeChar(c);
    SameBytes(s, p, e);
    assert s[p] == e[0];
    if c < 0x80 {
      One(c);
      OneThere(s, p);
    } else if c < 0x800 {
      assert s[p + 1] == e[1];
      EncodeTwo(c);
      TwoThere(s, p);
    } else if c < 0x1_0000 {
      assert s[p + 1] == e[1] && s[p + 2] == e[2];
      EncodeThree(c);
      ThreeThere(s, p);
    } else {
      assert s[p + 1] == e[1] && s[p + 2] == e[2] && s[p + 3] == e[3];
      EncodeFour(c);
      FourThere(s, p);
    }
  }

  lemma NotAscii(b: bv8)
    ensures 0xC2 <= b <= 0xDF ==> !(b <= 0x7F)
    ensures 0xE0 <= b <= 0xEF ==> !(b <= 0x7F) && !(b <= 0xDF)
    ensures 0xF0 <= b <= 0xF4 ==> !(b <= 0x7F) && !(b <= 0xDF) && !(b <= 0xEF)
  {}

  lemma SameBytes(s: Octets, p: nat, e: Octets)
    requires p + |e| <= |s| && s[p..p + |e|] == e
    ensures forall j :: 0 <= j < |e| ==> s[p + j] == e[j]
  {
    forall j | 0 <= j < |e| ensures s[p + j] == e[j] { assert s[p..p + |e|][j] == s[p + j]; }
  }

  lemma {:induction false} EncodePrefix(u: Words, m: nat, n: nat)
    requires m <= n <= |u| && AllScalars(u, n)
    ensures Encode(u, m) <= Encode(u, n)
  {
    hide EncodeChar, Scalar;
    if m < n { EncodePrefix(u, m, n - 1); }
  }

  lemma PrefixSlice(a: Octets, b: Octets, s: Octets)
    requires a + b <= s
    ensures |a| + |b| <= |s| && s[|a|..|a| + |b|] == b
  {
    assert s[..|a| + |b|] == a + b;
  }

  /** Decoding undoes encoding, from the place of word `i` on. */
  lemma {:induction false} DecodeFromEncode(u: Words, i: nat, s: Octets)
    requires i <= |u| && AllScalars(u, |u|) && s == Encode(u, |u|)
    ensures |Encode(u, i)| <= |s| && Decode(s, |Encode(u, i)|) == Some(u[i..])
    decreases |u| - i
  {
    hide EncodeChar, Scalar, CharLength, CodePoint, Encode, Decode, Prepend;
    if i < |u| {
      EncodedThere(u, i);
      DecodeFromEncode(u, i + 1, s);
      DecodeStep(s, |Encode(u, i)|);
      HeadAndRest(u, i);
    } else {
      DecodeEnd(s);
      NoRest(u);
    }
  }

  lemma EncodedThere(u: Words, i: nat)
    requires i < |u| && AllScalars(u, |u|)
    ensures var s, p := Encode(u, |u|), |Encode(u, i)|;
            && p < |s| && CharLength(s, p) > 0 && CodePoint(s, p) == u[i] && p + CharLength(s, p) == |Encode(u, i + 1)|
  {
    hide EncodeChar, Scalar, CharLength, CodePoint, Encode;
    var s := Encode(u, |u|);
    EncodePrefix(u, i + 1, |u|);
    EncodeStep(u, i);
    PrefixSlice(Encode(u, i), EncodeChar(u[i]), s);
    CharThere(s, |Encode(u, i)|, u[i]);
  }

  lemma HeadAndRest(u: Words, i: nat)
    requires i < |u|
    ensures Some(u[i..]) == Prepend([u[i]], Some(u[i + 1..]))
  {
    assert u[i..] == [u[i]] + u[i + 1..];
  }

  lemma NoRest(u: Words)
    ensures u[|u|..] == []
  {}

  lemma EncodeStep(u: Words, i: nat)
    requires i < |u| && AllScalars(u, |u|)
    ensures Encode(u, i + 1) == Encode(u, i) + EncodeChar(u[i])
  {}

  lemma DecodeStep(s: Octets, p: nat)
    requires p < |s| && CharLength(s, p) > 0
    ensures Decode(s, p) == Prepend([CodePoint(s, p)], Decode(s, p + CharLength(s, p)))
  {}

  lemma DecodeEnd(s: Octets)
    ensures Decode(s, |s|) == Some([])
  {}

  lemma DecodeEncode(u: Words)
    requires AllScalars(u, |u|)
    ensures Decode(Encode(u, |u|), 0) == Some(u)
  {
    DecodeFromEncode(u, 0, Encode(u, |u|));
    assert u[0..] == u;
  }

  /** What is read as a UTF8-char is the encoding of a scalar value. */
  lemma CharIsEncoding(s: Octets, p: nat)
    requires p < |s| && CharLength(s, p) > 0
    ensures Scalar(CodePoint(s, p)) && EncodeChar(CodePoint(s, p)) == s[p..p + CharLength(s, p)]
  {
    hide Two, Three, Four, EncodeChar, Scalar, Tail, Second3, Second4;
    match CharLength(s, p) {
      case 1 =>
        AsciiIsEncoding(s[p]);
        assert s[p..p + 1] == [s[p]];
      case 2 =>
        TwoIsEncoding(s[p], s[p + 1]);
        assert s[p..p + 2] == [s[p], s[p + 1]];
      case 3 =>
        ThreeIsEncoding(s[p], s[p + 1], s[p + 2]);
        assert s[p..p + 3] == [s[p], s[p + 1], s[p + 2]];
      case _ =>
        FourIsEncoding(s[p], s[p + 1], s[p + 2], s[p + 3]);
        assert s[p..p + 4] == [s[p], s[p + 1], s[p + 2], s[p + 3]];
    }
  }

  lemma AsciiIsEncoding(b: bv8)
    requires b <= 0x7F
    ensures Scalar(b as bv32) && EncodeChar(b as bv32) == [b]
  {}

  lemma TwoIsEncoding(b0: bv8, b1: bv8)
    requires 0xC2 <= b0 <= 0xDF && Tail(b1)
    ensures Scalar(Two(b0, b1)) && EncodeChar(Two(b0, b1)) == [b0, b1]
  {
    DecodeTwo(b0, b1);
    hide Two, Lead2, Low6;
  }

  lemma ThreeIsEncoding(b0: bv8, b1: bv8, b2: bv8)
    requires 0xE0 <= b0 <= 0xEF && Second3(b0, b1) && Tail(b2)
    ensures Scalar(Three(b0, b1, b2)) && EncodeChar(Three(b0, b1, b2)) == [b0, b1, b2]
  {
    DecodeThree(b0, b1, b2);
    hide Three, Lead3, Mid6, Low6;
  }

  lemma FourIsEncoding(b0: bv8, b1: bv8, b2: bv8, b3: bv8)
    requires 0xF0 <= b0 <= 0xF4 && Second4(b0, b1) && Tail(b2) && Tail(b3)
    ensures Scalar(Four(b0, b1, b2, b3)) && EncodeChar(Four(b0, b1, b2, b3)) == [b0, b1, b2, b3]
  {
    DecodeFour(b0, b1, b2, b3);
    hide Four, Lead4, High6, Mid6, Low6;
  }

  /** Encoding undoes decoding. */
  lemma {:induction false} EncodeDecodeFrom(s: Octets, p: nat)
    requires p <= |s| && Decode(s, p).Some?
    ensures var u := Decode(s, p).value;
            AllScalars(u, |u|) && Encode(u, |u|) == s[p..]
    decreases |s| - p
  {
    var u := Decode(s, p).value;
    if p == |s| {
      NoOctets(s);
    } else {
      var n := CharLength(s, p);
      hide CharLength, CodePoint, Scalar, EncodeChar, Encode;
      CharIsEncoding(s, p);
      EncodeDecodeFrom(s, p + n);
      var v := Decode(s, p + n).value;
      ScalarsCons(u, v);
      EncodeCons(u, v, |u|);
      SplitRest(s, p, n);
    }
  }

  lemma SplitRest(s: Octets, p: nat, n: nat)
    requires p + n <= |s|
    ensures s[p..p + n] + s[p + n..] == s[p..]
  {}

  lemma NoOctets(s: Octets)
    ensures s[|s|..] == []
  {}

  lemma ScalarsCons(u: Words, v: Words)
    requires u != [] && u == [u[0]] + v && Scalar(u[0]) && AllScalars(v, |v|)
    ensures AllScalars(u, |u|) && |u| == |v| + 1
  {
    hide Scalar;
    forall i | 0 <= i < |u| ensures Scalar(u[i]) {
      if i > 0 { assert u[i] == v[i - 1]; }
    }
  }

  lemma {:induction false} EncodeCons(u: Words, v: Words, n: nat)
    requires 0 < n <= |u| && u == [u[0]] + v && AllScalars(u, n)
    ensures AllScalars(v, n - 1) && Encode(u, n) == EncodeChar(u[0]) + Encode(v, n - 1)
  {
    TailScalars(u, v, n);
    hide EncodeChar, Scalar, Encode, AllScalars;
    EncodeLast(u, n);
    if n == 1 {
      EncodeNone(u);
      EncodeNone(v);
      assert [] + EncodeChar(u[0]) == EncodeChar(u[0]) + [];
    } else {
      FewerScalars(u, n);
      EncodeCons(u, v, n - 1);
      EncodeLast(v, n - 1);
      Associate(EncodeChar(u[0]), Encode(v, n - 2), EncodeChar(v[n - 2]));
    }
  }

  lemma TailScalars(u: Words, v: Words, n: nat)
    requires 0 < n <= |u| && u == [u[0]] + v && AllScalars(u, n)
    ensures |v| == |u| - 1 && AllScalars(v, n - 1) && Scalar(u[0])
    ensures n > 1 ==> v[n - 2] == u[n - 1]
  {
    hide Scalar;
    assert forall i :: 0 <= i < |v| ==> v[i] == u[i + 1];
  }

  lemma FewerScalars(u: Words, n: nat)
    requires 0 < n <= |u| && AllScalars(u, n)
    ensures AllScalars(u, n - 1)
  {}

  lemma EncodeLast(u: Words, n: nat)
    requires 0 < n <= |u| && AllScalars(u, n)
    ensures AllScalars(u, n - 1) && Scalar(u[n - 1]) && Encode(u, n) == Encode(u, n - 1) + EncodeChar(u[n - 1])
  {}

  lemma EncodeNone(u: Words)
    ensures AllScalars(u, 0) && Encode(u, 0) == []
  {}

  lemma EncodeDecode(s: Octets)
    requires WellFormed(s, 0)
    ensures var u := Decode(s, 0).value;
            AllScalars(u, |u|) && Encode(u, |u|) == s
  {
    EncodeDecodeFrom(s, 0);
    assert s[0..] == s;
  }
}
