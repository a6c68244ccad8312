/** Shared vocabulary: optional values and the fixed-width integers of the C++ sources. */
module Basics {
  datatype Option<+T> = None | Some(value: T)

  /** `uint8_t`, as a mathematical integer. */
  type Byte = b: int | 0 <= b < 0x100

  /** `char32_t`: any 32-bit value, a code point or not. */
  type Char32 = c: int | 0 <= c < 0x1_0000_0000

  /** Signed and unsigned 32-bit arithmetic: leaving the range is a verification error. */
  newtype int32 = x: int | -0x8000_0000 <= x < 0x8000_0000
  newtype uint32 = x: int | 0 <= x < 0x1_0000_0000

  const INT32_MAX := 0x7FFF_FFFF

  /** Everything Unicode calls a scalar value: a code point that is no surrogate. */
  predicate IsScalar(c: Char32) {
    c <= 0x10FFFF && !(0xD800 <= c < 0xE000)
  }

  /** A `std::u32string`, usually of code points. */
  type Points = seq<nat>

  function InsertAt(out: Points, pos: nat, c: nat): (s: Points)
    requires pos <= |out|
    ensures |s| == |out| + 1
  {
    out[..pos] + [c] + out[pos..]
  }

  lemma Inserted(out: Points, pos: nat, c: nat, j: nat)
    requires pos <= |out| && j <= |out|
    ensures InsertAt(out, pos, c)[j] == if j < pos then out[j] else if j == pos then c else out[j - 1]
  {}

  lemma Associate<T>(a: seq<T>, b: seq<T>, c: seq<T>)
    ensures a + (b + c) == (a + b) + c
  {}

  lemma Associate4<T>(a: seq<T>, b: seq<T>, c: seq<T>, d: seq<T>)
    ensures (a + (b + c)) + d == a + (b + (c + d))
  {}

  lemma Associate5<T>(a: seq<T>, b: seq<T>, c: seq<T>, d: seq<T>, e: seq<T>)
    ensures (a + (b + (c + d))) + e == a + (b + (c + (d + e)))
  {}

  lemma MulMonotone(a: nat, b: nat, c: nat, d: nat)
    requires a <= b && c <= d
    ensures a * c <= b * d
  {
    assert a * c <= b * c;
    assert b * c <= b * d;
  }

  // ---------------------------------------------------------------- division

  lemma QuotientBound(d: nat, points: nat)
    requires points > 0
    ensures 0 <= d / points <= d
  {
    MulMonotone(1, points, d / points, d / points);
  }

  function Quot(a: nat, b: nat): (q: nat)
    requires b > 0
    ensures q <= a
  {
    QuotientBound(a, b);
    a / b
  }

  function Rem(a: nat, b: nat): (r: nat)
    requires b > 0
    ensures r < b
  {
    a % b
  }

  lemma NotSmall(d: int, f: nat)
    ensures d >= 1 ==> d * f >= f
    ensures d <= -1 ==> d * f + f <= 0
  {
    if d >= 1 {
      assert (d - 1) * f >= 0;
    } else if d <= -1 {
      assert (-1 - d) * f >= 0;
    }
  }

  lemma Quotient(r: nat, m: nat, f: nat)
    requires r < f
    ensures (r + m * f) / f == m && (r + m * f) % f == r
  {
    var x := r + m * f;
    var d := x / f - m;
    assert x == (x / f) * f + x % f;
    assert (x / f) * f == m * f + d * f;
    assert d * f == r - x % f;
    NotSmall(d, f);
  }
}
