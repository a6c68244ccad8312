/** Bit strings, least and most significant bit first. */
module Bits {
  import opened Basics

  type BitString = seq<bool>

  function Power2(n: nat): (p: nat)
    ensures p >= 1
  {
    if n == 0 then 1 else 2 * Power2(n - 1)
  }

  function Bit(b: bool): nat { if b then 1 else 0 }

  /** The number whose least significant bit is first. */
  function Value(s: BitString): (v: nat)
    ensures v < Power2(|s|)
  {
    if s == [] then 0 else Bit(s[0]) + 2 * Value(s[1..])
  }

  /** The low `n` bits of `v`, least significant first. */
  function LowBits(v: nat, n: nat): (s: BitString)
    ensures |s| == n
  {
    if n == 0 then [] else [v % 2 == 1] + LowBits(v / 2, n - 1)
  }

  lemma {:induction false} ValueOfLowBits(v: nat, n: nat)
    requires v < Power2(n)
    ensures Value(LowBits(v, n)) == v
  {
    if n > 0 { ValueOfLowBits(v / 2, n - 1); }
  }

  lemma {:induction false} LowBitsOfValue(s: BitString)
    ensures LowBits(Value(s), |s|) == s
  {
    if s != [] {
      LowBitsOfValue(s[1..]);
      assert Value(s) % 2 == Bit(s[0]) && Value(s) / 2 == Value(s[1..]);
      assert s == [s[0]] + s[1..];
    }
  }

  lemma {:induction false} ValueJoin(s: BitString, t: BitString)
    ensures Value(s + t) == Value(s) + Power2(|s|) * Value(t)
  {
    if s == [] {
      assert s + t == t;
    } else {
      ValueJoin(s[1..], t);
      assert (s + t)[0] == s[0] && (s + t)[1..] == s[1..] + t;
      assert Power2(|s|) == 2 * Power2(|s| - 1);
      Twice(Power2(|s| - 1), Value(t));
    }
  }

  lemma Twice(a: nat, b: nat)
    ensures 2 * (a * b) == (2 * a) * b
  {}

  /** The low `n` bits of `v`, most significant first, as Huffman codes are packed. */
  function HighBits(v: nat, n: nat): (s: BitString)
    ensures |s| == n
  {
    if n == 0 then [] else HighBits(v / 2, n - 1) + [v % 2 == 1]
  }

  /** The bits of a byte sequence, each byte least significant bit first. */
  function BitsOf(data: seq<Byte>): (s: BitString)
    ensures |s| == 8 * |data|
  {
    if data == [] then [] else LowBits(data[0], 8) + BitsOf(data[1..])
  }

  lemma {:induction false} BitsOfJoin(a: seq<Byte>, b: seq<Byte>)
    ensures BitsOf(a + b) == BitsOf(a) + BitsOf(b)
  {
    if a == [] {
      assert a + b == b;
    } else {
      hide LowBits;
      BitsOfJoin(a[1..], b);
      assert (a + b)[0] == a[0] && (a + b)[1..] == a[1..] + b;
      Associate(LowBits(a[0], 8), BitsOf(a[1..]), BitsOf(b));
    }
  }

  /** The next `n` bits as a number, and what follows them. */
  function Take(s: BitString, n: nat): (r: Option<(nat, BitString)>)
    ensures r.Some? ==> |r.value.1| == |s| - n && r.value.0 < Power2(n)
  {
    if |s| < n then None else Some((Value(s[..n]), s[n..]))
  }

  lemma TakeLowBits(v: nat, n: nat, rest: BitString)
    requires v < Power2(n)
    ensures Take(LowBits(v, n) + rest, n) == Some((v, rest))
  {
    var s := LowBits(v, n) + rest;
    assert s[..n] == LowBits(v, n) && s[n..] == rest;
    ValueOfLowBits(v, n);
  }
}
