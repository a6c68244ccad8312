/** The conversion loops of src/unicode_transcoding.cpp, proved against `Transcoding`. */
module TranscodingImpl {
  import opened Basics
  import opened Utf8
  import opened Transcoding

  // ---------------------------------------------------------------- words of eight bytes

  function Load32(a: bv8, b: bv8, c: bv8, d: bv8): bv32 {
    (a as bv32) | ((b as bv32) << 8) | ((c as bv32) << 16) | ((d as bv32) << 24)
  }

  function Join64(low: bv32, high: bv32): bv64 {
    (low as bv64) | ((high as bv64) << 32)
  }

  /** Eight bytes as one little-endian word. */
  function Load64(s: Octets, p: nat): bv64
    requires p + 8 <= |s|
  {
    Join64(Load32(s[p], s[p + 1], s[p + 2], s[p + 3]), Load32(s[p + 4], s[p + 5], s[p + 6], s[p + 7]))
  }

  predicate Ascii(s: Octets, p: nat, n: nat)
    requires p + n <= |s|
  {
    forall i :: p <= i < p + n ==> s[i] < 0x80
  }

  predicate Ascii4(w: bv32) { w & 0x8080_8080 == 0 }
  predicate Ascii8(v: bv64) { v & 0x8080_8080_8080_8080 == 0 }

  lemma FourAscii(a: bv8, b: bv8, c: bv8, d: bv8)
    ensures Ascii4(Load32(a, b, c, d)) <==> a < 0x80 && b < 0x80 && c < 0x80 && d < 0x80
  {}

  lemma JoinAscii(low: bv32, high: bv32)
    ensures Ascii8(Join64(low, high)) <==> Ascii4(low) && Ascii4(high)
  {}

  lemma EitherAscii(v1: bv64, v2: bv64)
    ensures Ascii8(v1 | v2) <==> Ascii8(v1) && Ascii8(v2)
  {}

  lemma EightAscii(s: Octets, p: nat)
    requires p + 8 <= |s|
    ensures Ascii8(Load64(s, p)) <==> Ascii(s, p, 8)
  {
    FourAscii(s[p], s[p + 1], s[p + 2], s[p + 3]);
    FourAscii(s[p + 4], s[p + 5], s[p + 6], s[p + 7]);
    JoinAscii(Load32(s[p], s[p + 1], s[p + 2], s[p + 3]), Load32(s[p + 4], s[p + 5], s[p + 6], s[p + 7]));
    hide Load32, Join64, Ascii4, Ascii8;
    if Ascii8(Load64(s, p)) {
      forall i | p <= i < p + 8 ensures s[i] < 0x80 {
        assert i == p || i == p + 1 || i == p + 2 || i == p + 3 || i == p + 4 || i == p + 5 || i == p + 6 || i == p + 7;
      }
    }
  }

  /** The test of sixteen bytes at once. */
  method SixteenAscii(data: Octets, pos: nat) returns (ascii: bool)
    requires pos + 16 <= |data|
    ensures ascii <==> Ascii(data, pos, 16)
  {
    var v1, v2 := Load64(data, pos), Load64(data, pos + 8);
    ascii := (v1 | v2) & 0x8080_8080_8080_8080 == 0;
    assert ascii == Ascii8(v1 | v2);
    EitherAscii(v1, v2);
    EightAscii(data, pos);
    EightAscii(data, pos + 8);
    hide Load64, Ascii8;
  }

  // ---------------------------------------------------------------- utf8_to_utf32

  /** One character after the ASCII fast path: its length, 0 if malformed, and its code point. */
  method DecodeChar(data: Octets, pos: nat) returns (n: nat, c: bv32)
    requires pos < |data|
    ensures n == CharLength(data, pos)
    ensures n > 0 ==> c == CodePoint(data, pos)
  {
    var leading := data[pos];
    LeadClasses(leading);
    LeadRanges(leading);
    n, c := 0, 0;
    if leading < 0x80 {
      return 1, leading as bv32;
    } else if leading & 0xE0 == 0xC0 {
      if pos + 1 >= |data| { return; }
      c := Two(leading, data[pos + 1]);
      CheckTwo(leading, data[pos + 1]);
      hide Two;
      if data[pos + 1] & 0xC0 != 0x80 { return; }
      if c < 0x80 || 0x7FF < c { return; }
      n := 2;
    } else if leading & 0xF0 == 0xE0 {
      if pos + 2 >= |data| { return; }
      c := Three(leading, data[pos + 1], data[pos + 2]);
      CheckThree(leading, data[pos + 1], data[pos + 2]);
      hide Three;
      if data[pos + 1] & 0xC0 != 0x80 { return; }
      if data[pos + 2] & 0xC0 != 0x80 { return; }
      if c < 0x800 || 0xFFFF < c || (0xD7FF < c && c < 0xE000) { return; }
      n := 3;
    } else if leading & 0xF8 == 0xF0 {
      if pos + 3 >= |data| { return; }
      c := Four(leading, data[pos + 1], data[pos + 2], data[pos + 3]);
      CheckFour(leading, data[pos + 1], data[pos + 2], data[pos + 3]);
      hide Four;
      if data[pos + 1] & 0xC0 != 0x80 { return; }
      if data[pos + 2] & 0xC0 != 0x80 { return; }
      if data[pos + 3] & 0xC0 != 0x80 { return; }
      if c <= 0xFFFF || 0x10FFFF < c { return; }
      n := 4;
    }
  }

  lemma LeadRanges(b: bv8)
    ensures 0xC0 <= b <= 0xDF ==> !(b <= 0x7F) && !(0xE0 <= b) && (0xC2 <= b || b < 0xC2)
    ensures 0xE0 <= b <= 0xEF ==> !(b <= 0x7F) && !(b <= 0xDF) && !(0xF0 <= b)
    ensures 0xF0 <= b <= 0xF7 ==> !(b <= 0x7F) && !(b <= 0xDF) && !(b <= 0xEF)
    ensures b <= 0x7F || (0xC0 <= b <= 0xDF) || (0xE0 <= b <= 0xEF) || (0xF0 <= b <= 0xF7) || (0x80 <= b <= 0xBF) ||
        b >= 0xF8
    ensures (0x80 <= b <= 0xBF) || b >= 0xF8 ==>
        !(b <= 0x7F) && !(0xC2 <= b <= 0xDF) && !(0xE0 <= b <= 0xEF) && !(0xF0 <= b <= 0xF4)
  {}

  /** What the loop has done and what is left to do make up the whole. */
  ghost predicate Progress(data: Octets, pos: nat, done: Words) {
    && pos <= |data| && |done| == Leads(data, pos)
    && Decode(data, 0) == Prepend(done, Decode(data, pos))
  }

  lemma ProgressStart(data: Octets)
    ensures Progress(data, 0, [])
  {
    PrependNothing(Decode(data, 0));
    assert Leads(data, 0) == 0;
    hide Decode, Prepend;
  }

  lemma PrependNothing(r: Option<Words>)
    ensures Prepend([], r) == r
  {
    if r.Some? { assert [] + r.value == r.value; }
  }

  lemma ProgressStep(data: Octets, pos: nat, done: Words)
    requires Progress(data, pos, done) && pos < |data| && CharLength(data, pos) > 0
    ensures Progress(data, pos + CharLength(data, pos), done + [CodePoint(data, pos)])
    ensures |done| < Leads(data, |data|)
  {
    hide CharLength, CodePoint;
    CharLeads(data, pos);
    LeadsMonotone(data, pos + CharLength(data, pos), |data|);
    DecodeStep(data, pos);
    hide Decode, Leads, Prepend;
    PrependTwice(done, [CodePoint(data, pos)], Decode(data, pos + CharLength(data, pos)));
  }

  lemma ProgressEnd(data: Octets, done: Words)
    requires Progress(data, |data|, done)
    ensures Decode(data, 0) == Some(done)
  {
    assert done + [] == done;
  }

  lemma ProgressFails(data: Octets, pos: nat, done: Words)
    requires Progress(data, pos, done) && pos < |data| && CharLength(data, pos) == 0
    ensures Decode(data, 0) == None
  {}

  lemma AsciiChar(data: Octets, pos: nat)
    requires pos < |data| && data[pos] < 0x80
    ensures CharLength(data, pos) == 1 && CodePoint(data, pos) == data[pos] as bv32
  {
    LeadClasses(data[pos]);
  }

  /** Returns the number of code points written, 0 if `data` is malformed. The output needs room
      for `utf32_length_from_utf8` code points, and nothing beyond that is ever written. */
  method Utf8ToUtf32(data: Octets, output: array<bv32>) returns (size: nat)
    requires output.Length >= Leads(data, |data|)
    modifies output
    ensures match Decode(data, 0)
            case Some(u) => size == |u| <= output.Length && output[..size] == u
            case None => size == 0
    ensures forall i :: Leads(data, |data|) <= i < output.Length ==> output[i] == old(output[i])
  {
    hide Progress, CharLength, CodePoint, Decode, Leads, Ascii;
    var room := output.Length;
    var pos: nat, n: nat := 0, 0;
    ProgressStart(data);
    assert output[..0] == [];
    while pos < |data|
      invariant n <= room == output.Length && pos <= |data|
      invariant Progress(data, pos, output[..n])
      invariant forall i :: Leads(data, |data|) <= i < output.Length ==> output[i] == old(output[i])
      decreases |data| - pos
    {
      var block := false;
      if pos + 16 <= |data| {
        block := SixteenAscii(data, pos);
      }
      if block {
        var final := pos + 16;
        while pos < final
          invariant n <= room == output.Length && final - 16 <= pos <= final <= |data|
          invariant Ascii(data, final - 16, 16)
          invariant Progress(data, pos, output[..n])
          invariant forall i :: Leads(data, |data|) <= i < output.Length ==> output[i] == old(output[i])
          decreases final - pos
        {
          AsciiAt(data, final - 16, pos);
          AsciiChar(data, pos);
          ProgressStep(data, pos, output[..n]);
          AppendTo(output, n, data[pos] as bv32);
          n := n + 1;
          pos := pos + 1;
        }
      } else {
        var length, c := DecodeChar(data, pos);
        if length == 0 {
          ProgressFails(data, pos, output[..n]);
          return 0;
        }
        ProgressStep(data, pos, output[..n]);
        AppendTo(output, n, c);
        n := n + 1;
        pos := pos + length;
      }
    }
    ProgressEnd(data, output[..n]);
    size := n;
  }

  lemma AsciiAt(data: Octets, p: nat, i: nat)
    requires p <= i < p + 16 <= |data| && Ascii(data, p, 16)
    ensures data[i] < 0x80
  {}

  /** `*utf32_output++ = c` */
  method AppendTo<T>(output: array<T>, n: nat, c: T)
    requires n < output.Length
    modifies output
    ensures output[..n + 1] == old(output[..n]) + [c]
    ensures forall i :: 0 <= i < output.Length && i != n ==> output[i] == old(output[i])
  {
    output[n] := c;
  }

  // ---------------------------------------------------------------- lengths

  method Utf8LengthFromUtf32(buf: Words) returns (counter: nat)
    ensures counter == Sizes(buf, |buf|)
  {
    hide Size, Above;
    counter := 0;
    for i := 0 to |buf|
      invariant counter == Sizes(buf, i)
    {
      SizeByTests(buf[i]);
      counter := counter + 1;
      counter := counter + Above(buf[i], 0x7F);
      counter := counter + Above(buf[i], 0x7FF);
      counter := counter + Above(buf[i], 0xFFFF);
    }
  }

  /** `static_cast<size_t>(c > bound)` */
  function Above(c: bv32, bound: bv32): nat {
    if c > bound then 1 else 0
  }

  lemma SizeByTests(c: bv32)
    ensures Size(c) == 1 + Above(c, 0x7F) + Above(c, 0x7FF) + Above(c, 0xFFFF)
  {}

  /** Continuation bytes are the ones that are at most -65 as signed bytes. */
  method Utf32LengthFromUtf8(buf: Octets) returns (count: nat)
    ensures count == Leads(buf, |buf|)
  {
    count := 0;
    for i := 0 to |buf|
      invariant count == Leads(buf, i)
    {
      SignedTest(buf[i]);
      if SignedGreater(buf[i], 0xBF) { count := count + 1; }
    }
  }

  /** Comparison of two's complement bytes. */
  predicate SignedGreater(a: bv8, b: bv8) {
    (a ^ 0x80) > (b ^ 0x80)
  }

  lemma SignedTest(b: bv8)
    ensures SignedGreater(b, 0xBF) <==> !Tail(b)
  {}

  // ---------------------------------------------------------------- utf32_to_utf8

  /** The test of two words at once. */
  method TwoAscii(buf: Words, pos: nat) returns (ascii: bool)
    requires pos + 2 <= |buf|
    ensures ascii <==> buf[pos] < 0x80 && buf[pos + 1] < 0x80
  {
    hide Join64, AsciiPair;
    PairAscii(buf[pos], buf[pos + 1]);
    ascii := AsciiPair(Join64(buf[pos], buf[pos + 1]));
  }

  predicate AsciiPair(v: bv64) { v & 0xFFFF_FF80_FFFF_FF80 == 0 }

  lemma PairAscii(a: bv32, b: bv32)
    ensures AsciiPair(Join64(a, b)) <==> a < 0x80 && b < 0x80
  {
    HalfAscii(a);
    HalfAscii(b);
    JoinHalves(a, b);
    hide AsciiPair, Join64, AsciiHalf;
  }

  predicate AsciiHalf(w: bv32) { w & 0xFFFF_FF80 == 0 }

  lemma HalfAscii(w: bv32)
    ensures AsciiHalf(w) <==> w < 0x80
  {}

  lemma JoinHalves(a: bv32, b: bv32)
    ensures AsciiPair(Join64(a, b)) <==> AsciiHalf(a) && AsciiHalf(b)
  {}

  lemma WordClasses(w: bv32)
    ensures w & 0xFFFF_FF80 == 0 <==> w < 0x80
    ensures w & 0xFFFF_F800 == 0 <==> w < 0x800
    ensures w & 0xFFFF_0000 == 0 <==> w < 0x1_0000
  {}

  /** The bytes of one word; none if it is no scalar value. */
  method EncodeWord(word: bv32) returns (s: Octets)
    ensures s == if Scalar(word) then EncodeChar(word) else []
  {
    WordClasses(word);
    s := [];
    if word & 0xFFFF_FF80 == 0 {
      s := [Octet(word)];
    } else if word & 0xFFFF_F800 == 0 {
      s := [Lead2(word), Low6(word)];
    } else if word & 0xFFFF_0000 == 0 {
      if word >= 0xD800 && word <= 0xDFFF { return; }
      s := [Lead3(word), Mid6(word), Low6(word)];
    } else {
      if word > 0x10_FFFF { return; }
      s := [Lead4(word), High6(word), Mid6(word), Low6(word)];
    }
  }

  ghost predicate Encoded(buf: Words, pos: nat, done: Octets) {
    pos <= |buf| && AllScalars(buf, pos) && done == Encode(buf, pos) && |done| == Sizes(buf, pos)
  }

  lemma EncodedStep(buf: Words, pos: nat, done: Octets)
    requires Encoded(buf, pos, done) && pos < |buf| && Scalar(buf[pos])
    ensures Encoded(buf, pos + 1, done + EncodeChar(buf[pos]))
    ensures |done| + |EncodeChar(buf[pos])| <= Sizes(buf, |buf|)
  {
    SizeOfChar(buf[pos]);
    hide EncodeChar, Scalar, Size;
    SizesMonotone(buf, pos + 1, |buf|);
  }

  lemma EncodedStart(buf: Words)
    ensures Encoded(buf, 0, [])
  {}

  lemma EncodedEnd(buf: Words, done: Octets)
    requires Encoded(buf, |buf|, done)
    ensures AllScalars(buf, |buf|) && done == Encode(buf, |buf|)
  {}

  lemma NotAllScalars(buf: Words, pos: nat)
    requires pos < |buf| && !Scalar(buf[pos])
    ensures !AllScalars(buf, |buf|)
  {}

  lemma AsciiWord(w: bv32)
    requires w < 0x80
    ensures Scalar(w) && EncodeChar(w) == [Octet(w)]
  {}

  /** Returns the number of bytes written, 0 if some word is no scalar value. The output needs room
      for `utf8_length_from_utf32` bytes, and nothing beyond that is ever written. */
  method Utf32ToUtf8(buf: Words, output: array<bv8>) returns (size: nat)
    requires output.Length >= Sizes(buf, |buf|)
    modifies output
    ensures if AllScalars(buf, |buf|) then size == |Encode(buf, |buf|)| <= output.Length &&
        output[..size] == Encode(buf, |buf|)
            else size == 0
    ensures forall i :: Sizes(buf, |buf|) <= i < output.Length ==> output[i] == old(output[i])
  {
    hide Encoded, Encode, EncodeChar, Sizes, Scalar, AllScalars;
    var pos: nat, n: nat := 0, 0;
    EncodedStart(buf);
    assert output[..0] == [];
    while pos < |buf|
      invariant n <= output.Length && pos <= |buf|
      invariant Encoded(buf, pos, output[..n])
      invariant forall i :: Sizes(buf, |buf|) <= i < output.Length ==> output[i] == old(output[i])
      decreases |buf| - pos
    {
      var pair := false;
      if pos + 2 <= |buf| {
        pair := TwoAscii(buf, pos);
      }
      if pair {
        AsciiWord(buf[pos]);
        EncodedStep(buf, pos, output[..n]);
        AppendTo(output, n, Octet(buf[pos]));
        AsciiWord(buf[pos + 1]);
        EncodedStep(buf, pos + 1, output[..n + 1]);
        AppendTo(output, n + 1, Octet(buf[pos + 1]));
        n := n + 2;
        pos := pos + 2;
      } else {
        var s := EncodeWord(buf[pos]);
        if s == [] {
          NotAllScalars(buf, pos);
          return 0;
        }
        EncodedStep(buf, pos, output[..n]);
        AppendAll(output, n, s);
        n := n + |s|;
        pos := pos + 1;
      }
    }
    EncodedEnd(buf, output[..n]);
    size := n;
  }

  /** The one to four stores of a character. */
  method AppendAll(output: array<bv8>, n: nat, s: Octets)
    requires n + |s| <= output.Length
    modifies output
    ensures output[..n + |s|] == old(output[..n]) + s
    ensures forall i :: n + |s| <= i < output.Length ==> output[i] == old(output[i])
  {
    for k := 0 to |s|
      invariant output[..n + k] == old(output[..n]) + s[..k]
      invariant forall i :: n + k <= i < output.Length ==> output[i] == old(output[i])
    {
      output[n + k] := s[k];
    }
  }
}
