/** UTF-8 as RFC 3629 defines it: the grammar of section 4 and the bit layout of section 3. */
module Utf8 {
  type Octets = seq<bv8>
  type Words = seq<bv32>

  // ---------------------------------------------------------------- grammar (section 4)

  predicate Tail(b: bv8) { 0x80 <= b <= 0xBF }

  predicate Second3(b0: bv8, b1: bv8) {
    if b0 == 0xE0 then 0xA0 <= b1 <= 0xBF
    else if b0 == 0xED then 0x80 <= b1 <= 0x9F
    else Tail(b1)
  }

  predicate Second4(b0: bv8, b1: bv8) {
    if b0 == 0xF0 then 0x90 <= b1 <= 0xBF
    else if b0 == 0xF4 then 0x80 <= b1 <= 0x8F
    else Tail(b1)
  }

  /** Length of the UTF8-char that starts at `p`, 0 if none does. */
  function CharLength(s: Octets, p: nat): (n: nat)
    requires p < |s|
    ensures n <= 4 && p + n <= |s|
  {
    var b := s[p];
    if b <= 0x7F then 1
    else if 0xC2 <= b <= 0xDF then
      if p + 1 < |s| && Tail(s[p + 1]) then 2 else 0
    else if 0xE0 <= b <= 0xEF then
      if p + 2 < |s| && Second3(b, s[p + 1]) && Tail(s[p + 2]) then 3 else 0
    else if 0xF0 <= b <= 0xF4 then
      if p + 3 < |s| && Second4(b, s[p + 1]) && Tail(s[p + 2]) && Tail(s[p + 3]) then 4 else 0
    else 0
  }

  /** From `p` on, `s` is a sequence of UTF8-chars. */
  predicate WellFormed(s: Octets, p: nat)
    requires p <= |s|
    decreases |s| - p
  {
    p == |s| || (CharLength(s, p) > 0 && WellFormed(s, p + CharLength(s, p)))
  }

  // ---------------------------------------------------------------- bit layout (section 3)

  function Two(b0: bv8, b1: bv8): bv32 {
    (((b0 as bv32) & 0x1F) << 6) | ((b1 as bv32) & 0x3F)
  }

  function Three(b0: bv8, b1: bv8, b2: bv8): bv32 {
    (((b0 as bv32) & 0x0F) << 12) | (((b1 as bv32) & 0x3F) << 6) | ((b2 as bv32) & 0x3F)
  }

  function Four(b0: bv8, b1: bv8, b2: bv8, b3: bv8): bv32 {
    (((b0 as bv32) & 0x07) << 18) | (((b1 as bv32) & 0x3F) << 12) | (((b2 as bv32) & 0x3F) << 6) | ((b3 as bv32) & 0x3F)
  }

  predicate Scalar(c: bv32) {
    c <= 0x10FFFF && !(0xD800 <= c <= 0xDFFF)
  }

  function Octet(c: bv32): bv8
    requires c <= 0xFF
  {
    c as bv8
  }

  function Lead2(c: bv32): bv8 requires c < 0x800 { Octet((c >> 6) | 0xC0) }
  function Lead3(c: bv32): bv8 requires c < 0x1_0000 { Octet((c >> 12) | 0xE0) }
  function Lead4(c: bv32): bv8 requires c < 0x20_0000 { Octet((c >> 18) | 0xF0) }
  function Low6(c: bv32): bv8 { Octet((c & 0x3F) | 0x80) }
  function Mid6(c: bv32): bv8 { Octet(((c >> 6) & 0x3F) | 0x80) }
  function High6(c: bv32): bv8 { Octet(((c >> 12) & 0x3F) | 0x80) }

  /** The UTF8-char of a code point. */
  function EncodeChar(c: bv32): (s: Octets)
    requires Scalar(c)
    ensures 1 <= |s| <= 4
  {
    if c < 0x80 then [Octet(c)]
    else if c < 0x800 then [Lead2(c), Low6(c)]
    else if c < 0x1_0000 then [Lead3(c), Mid6(c), Low6(c)]
    else [Lead4(c), High6(c), Mid6(c), Low6(c)]
  }

  function CodePoint(s: Octets, p: nat): bv32
    requires p < |s| && CharLength(s, p) > 0
  {
    match CharLength(s, p)
    case 1 => s[p] as bv32
    case 2 => Two(s[p], s[p + 1])
    case 3 => Three(s[p], s[p + 1], s[p + 2])
    case _ => Four(s[p], s[p + 1], s[p + 2], s[p + 3])
  }

  // ---------------------------------------------------------------- one character

  lemma One(c: bv32)
    requires c < 0x80
    ensures Octet(c) <= 0x7F && Octet(c) as bv32 == c
  {}

  lemma EncodeTwo(c: bv32)
    requires 0x80 <= c < 0x800
    ensures 0xC2 <= Lead2(c) <= 0xDF && Tail(Low6(c)) && Two(Lead2(c), Low6(c)) == c
  {}

  lemma EncodeThree(c: bv32)
    requires 0x800 <= c < 0x1_0000 && Scalar(c)
    ensures 0xE0 <= Lead3(c) <= 0xEF && Second3(Lead3(c), Mid6(c)) && Tail(Low6(c))
    ensures Three(Lead3(c), Mid6(c), Low6(c)) == c
  {
    TailsAreTails(c);
    SecondOfThree(c);
    hide Lead3, Mid6, Low6, Three, Second3, Tail;
    ThreeInverse(c);
  }

  lemma ThreeInverse(c: bv32)
    requires c < 0x1_0000
    ensures Three(Lead3(c), Mid6(c), Low6(c)) == c
  {}

  lemma TailsAreTails(c: bv32)
    ensures Tail(Low6(c)) && Tail(Mid6(c)) && Tail(High6(c))
  {}

  lemma SecondOfThree(c: bv32)
    requires 0x800 <= c < 0x1_0000 && Scalar(c)
    ensures 0xE0 <= Lead3(c) <= 0xEF && Second3(Lead3(c), Mid6(c))
  {
    assert 0x80 <= Mid6(c) <= 0xBF;
    assert Lead3(c) == 0xE0 ==> Mid6(c) >= 0xA0;
    assert Lead3(c) == 0xED ==> Mid6(c) <= 0x9F;
  }

  lemma EncodeFour(c: bv32)
    requires 0x1_0000 <= c <= 0x10_FFFF
    ensures 0xF0 <= Lead4(c) <= 0xF4 && Second4(Lead4(c), High6(c)) && Tail(Mid6(c)) && Tail(Low6(c))
    ensures Four(Lead4(c), High6(c), Mid6(c), Low6(c)) == c
  {
    TailsAreTails(c);
    SecondOfFour(c);
    hide Lead4, High6, Mid6, Low6, Four, Second4, Tail;
    FourInverse(c);
  }

  lemma FourInverse(c: bv32)
    requires c < 0x20_0000
    ensures Four(Lead4(c), High6(c), Mid6(c), Low6(c)) == c
  {}

  lemma SecondOfFour(c: bv32)
    requires 0x1_0000 <= c <= 0x10_FFFF
    ensures 0xF0 <= Lead4(c) <= 0xF4 && Second4(Lead4(c), High6(c))
  {
    assert 0x80 <= High6(c) <= 0xBF;
    assert Lead4(c) == 0xF0 ==> High6(c) >= 0x90;
    assert Lead4(c) == 0xF4 ==> High6(c) <= 0x8F;
  }

  lemma DecodeTwo(b0: bv8, b1: bv8)
    requires 0xC2 <= b0 <= 0xDF && Tail(b1)
    ensures 0x80 <= Two(b0, b1) < 0x800 && Lead2(Two(b0, b1)) == b0 && Low6(Two(b0, b1)) == b1
  {}

  lemma DecodeThree(b0: bv8, b1: bv8, b2: bv8)
    requires 0xE0 <= b0 <= 0xEF && Second3(b0, b1) && Tail(b2)
    ensures var c := Three(b0, b1, b2);
            0x800 <= c < 0x1_0000 && Scalar(c) && Lead3(c) == b0 && Mid6(c) == b1 && Low6(c) == b2
  {}

  lemma DecodeFour(b0: bv8, b1: bv8, b2: bv8, b3: bv8)
    requires 0xF0 <= b0 <= 0xF4 && Second4(b0, b1) && Tail(b2) && Tail(b3)
    ensures var c := Four(b0, b1, b2, b3);
            0x1_0000 <= c <= 0x10_FFFF && Lead4(c) == b0 && High6(c) == b1 && Mid6(c) == b2 && Low6(c) == b3
  {}

  // ---------------------------------------------------------------- weights (section 3)

  /** A code point is the sum of its payloads, each byte worth 64 times the next. */
  lemma WeightsTwo(b0: bv8, b1: bv8)
    requires 0xC0 <= b0 <= 0xDF && Tail(b1)
    ensures Two(b0, b1) == ((b0 - 0xC0) as bv32 << 6) + (b1 - 0x80) as bv32
  {}

  lemma WeightsThree(b0: bv8, b1: bv8, b2: bv8)
    requires 0xE0 <= b0 <= 0xEF && Tail(b1) && Tail(b2)
    ensures Three(b0, b1, b2) == ((b0 - 0xE0) as bv32 << 12) + ((b1 - 0x80) as bv32 << 6) + (b2 - 0x80) as bv32
  {}

  lemma WeightsFour(b0: bv8, b1: bv8, b2: bv8, b3: bv8)
    requires 0xF0 <= b0 <= 0xF7 && Tail(b1) && Tail(b2) && Tail(b3)
    ensures Four(b0, b1, b2, b3) == ((b0 - 0xF0) as bv32 << 18) + ((b1 - 0x80) as bv32 << 12)
                                    + ((b2 - 0x80) as bv32 << 6) + (b3 - 0x80) as bv32
  {}

  /** Characters of the examples in section 7: U+0041, U+0391, U+2262, U+D55C, U+65E5 and U+233B4. */
  lemma Examples()
    ensures EncodeChar(0x41) == [0x41] && EncodeChar(0x391) == [0xCE, 0x91]
    ensures EncodeChar(0x2262) == [0xE2, 0x89, 0xA2] && EncodeChar(0xD55C) == [0xED, 0x95, 0x9C]
    ensures EncodeChar(0x65E5) == [0xE6, 0x97, 0xA5] && EncodeChar(0x2_33B4) == [0xF0, 0xA3, 0x8E, 0xB4]
  {
    assert Lead2(0x391) == 0xCE && Low6(0x391) == 0x91;
    assert Lead3(0x2262) == 0xE2 && Mid6(0x2262) == 0x89 && Low6(0x2262) == 0xA2;
    assert Lead3(0xD55C) == 0xED && Mid6(0xD55C) == 0x95 && Low6(0xD55C) == 0x9C;
    assert Lead3(0x65E5) == 0xE6 && Mid6(0x65E5) == 0x97 && Low6(0x65E5) == 0xA5;
    assert Lead4(0x2_33B4) == 0xF0 && High6(0x2_33B4) == 0xA3 && Mid6(0x2_33B4) == 0x8E && Low6(0x2_33B4) == 0xB4;
  }

  // ---------------------------------------------------------------- the checks of the source

  /** The three checks on a two-byte character amount to the grammar. */
  lemma CheckTwo(b0: bv8, b1: bv8)
    requires b0 & 0xE0 == 0xC0
    ensures (b1 & 0xC0 == 0x80 && !(Two(b0, b1) < 0x80 || 0x7FF < Two(b0, b1))) <==> (0xC2 <= b0 <= 0xDF && Tail(b1))
  {}

  lemma CheckThree(b0: bv8, b1: bv8, b2: bv8)
    requires b0 & 0xF0 == 0xE0
    ensures b1 & 0xC0 == 0x80 && b2 & 0xC0 == 0x80
            && !(Three(b0, b1, b2) < 0x800 || 0xFFFF < Three(b0, b1, b2)
                 || (0xD7FF < Three(b0, b1, b2) && Three(b0, b1, b2) < 0xE000))
       <==> 0xE0 <= b0 <= 0xEF && Second3(b0, b1) && Tail(b2)
  {}

  lemma CheckFour(b0: bv8, b1: bv8, b2: bv8, b3: bv8)
    requires b0 & 0xF8 == 0xF0
    ensures b1 & 0xC0 == 0x80 && b2 & 0xC0 == 0x80 && b3 & 0xC0 == 0x80
            && !(Four(b0, b1, b2, b3) <= 0xFFFF || 0x10FFFF < Four(b0, b1, b2, b3))
       <==> 0xF0 <= b0 <= 0xF4 && Second4(b0, b1) && Tail(b2) && Tail(b3)
  {}

  lemma LeadClasses(b: bv8)
    ensures b < 0x80 <==> b <= 0x7F
    ensures b & 0xE0 == 0xC0 <==> 0xC0 <= b <= 0xDF
    ensures b & 0xF0 == 0xE0 <==> 0xE0 <= b <= 0xEF
    ensures b & 0xF8 == 0xF0 <==> 0xF0 <= b <= 0xF7
    ensures b & 0xC0 == 0x80 <==> Tail(b)
  {}
}
