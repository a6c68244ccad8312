/** The bit reader of src/raw_inflate.hpp: an accumulator of up to 23 bits refilled bytewise. */
module BitReading {
  import opened Basics
  import opened Bits

  const UINT32_MAX := 0xFFFF_FFFF

  // ---------------------------------------------------------------- accumulator arithmetic

  /** `acc & ((1u << n) - 1)` */
  function Masked(acc: nat, n: nat): (r: nat)
    ensures r < Power2(n)
  {
    Rem(acc, Power2(n))
  }

  /** `acc >> n` */
  function Shifted(acc: nat, n: nat): (r: nat) {
    Quot(acc, Power2(n))
  }

  lemma {:induction false} LowBitsSplit(v: nat, n: nat, m: nat)
    requires n <= m
    ensures LowBits(v, m) == LowBits(Masked(v, n), n) + LowBits(Shifted(v, n), m - n)
    decreases n
  {
    if n > 0 {
      LowBitsSplit(v / 2, n - 1, m - 1);
      MaskShift(v, n);
    }
  }

  /** Masking and shifting, one bit at a time. */
  lemma MaskShift(v: nat, n: nat)
    requires n > 0
    ensures Shifted(v, n) == Shifted(v / 2, n - 1)
    ensures Masked(v, n) % 2 == v % 2 && Masked(v, n) / 2 == Masked(v / 2, n - 1)
  {
    DivideTwice(v, Power2(n - 1));
  }

  lemma DivideTwice(v: nat, p: nat)
    requires p > 0
    ensures v / (2 * p) == (v / 2) / p
    ensures (v % (2 * p)) % 2 == v % 2 && (v % (2 * p)) / 2 == (v / 2) % p
  {
    var h, b := v / 2, v % 2;
    var q, r := h / p, h % p;
    assert v == 2 * (p * q + r) + b;
    assert 2 * (p * q) == q * (2 * p);
    Quotient(2 * r + b, q, 2 * p);
  }

  /** Adding a byte above the bits already held. */
  lemma Refill(acc: nat, bits: nat, b: Byte)
    requires acc < Power2(bits)
    ensures LowBits(Refilled(acc, bits, b), bits + 8) == LowBits(acc, bits) + LowBits(b, 8)
    ensures Refilled(acc, bits, b) < Power2(bits + 8)
  {
    hide Power2, LowBits;
    Quotient(acc, b, Power2(bits));
    LowBitsSplit(Refilled(acc, bits, b), bits, bits + 8);
    EightTimes(bits);
    MulMonotone(b, 255, Power2(bits), Power2(bits));
  }

  /** `acc | uint32_t(b) << bits`: the two have no bit in common, so `|` adds. */
  function Refilled(acc: nat, bits: nat, b: Byte): nat {
    acc + b * Power2(bits)
  }

  lemma EightTimes(n: nat)
    ensures Power2(n + 8) == 256 * Power2(n)
  {
    assert Power2(n + 2) == 4 * Power2(n);
    assert Power2(n + 4) == 4 * Power2(n + 2);
    assert Power2(n + 6) == 4 * Power2(n + 4);
    assert Power2(n + 8) == 4 * Power2(n + 6);
  }

  /** Taking `n` of the bits held. */
  lemma Extract(acc: nat, bits: nat, n: nat, more: BitString)
    requires n <= bits && acc < Power2(bits)
    ensures Shifted(acc, n) < Power2(bits - n)
    ensures Take(LowBits(acc, bits) + more, n) == Some((Masked(acc, n), LowBits(Shifted(acc, n), bits - n) + more))
  {
    hide Power2, LowBits, Take, Masked, Shifted;
    LowBitsSplit(acc, n, bits);
    Associate(LowBits(Masked(acc, n), n), LowBits(Shifted(acc, n), bits - n), more);
    TakeLowBits(Masked(acc, n), n, LowBits(Shifted(acc, n), bits - n) + more);
    Quotients(acc, n, bits);
  }

  lemma {:induction false} Quotients(v: nat, n: nat, m: nat)
    requires n <= m && v < Power2(m)
    ensures Shifted(v, n) < Power2(m - n)
    decreases n
  {
    if n > 0 {
      Quotients(v / 2, n - 1, m - 1);
      MaskShift(v, n);
    }
  }

  // ---------------------------------------------------------------- the reader

  class BitReader {
    const data: seq<Byte>
    var p: nat
    var acc: nat
    var bits: nat

    ghost predicate Valid()
      reads this
    {
      p <= |data| && bits < 24 && acc < Power2(bits)
    }

    /** The unread bits. */
    ghost function Rest(): (s: BitString)
      requires Valid()
      reads this
      ensures |s| == bits + 8 * (|data| - p)
    {
      LowBits(acc, bits) + BitsOf(data[p..])
    }

    constructor (data: seq<Byte>)
      ensures Valid() && bits == 0 && Rest() == BitsOf(data) && this.data == data
    {
      this.data := data;
      p, acc, bits := 0, 0, 0;
      new;
      assert data[0..] == data;
      assert [] + BitsOf(data) == BitsOf(data);
    }

    method Ensure(n: nat) returns (ok: bool)
      requires Valid() && (bits < 8 || n <= bits) && n <= 16
      modifies this
      ensures Valid() && Rest() == old(Rest())
      ensures old(bits) >= n ==> bits == old(bits)
      ensures ok <==> |Rest()| >= n
      ensures ok && old(bits) < n ==> n <= bits < n + 8
      ensures if ok then n <= bits else bits < n
    {
      hide LowBits, BitsOf, Power2, Refilled, Masked, Shifted, Take;
      while bits < n
        invariant Valid() && Rest() == old(Rest())
        invariant bits < n + 8 || bits == old(bits)
        decreases |data| - p
      {
        if p >= |data| { return false; }
        var b := data[p];
        Refill(acc, bits, b);
        NextByte(data, p);
        Associate(LowBits(acc, bits), LowBits(b, 8), BitsOf(data[p + 1..]));
        acc := Refilled(acc, bits, b);
        bits := bits + 8;
        p := p + 1;
      }
      ok := true;
    }

    method Get(n: nat) returns (v: nat)
      requires Valid() && (bits < 8 || n <= bits) && n <= 16
      modifies this
      ensures Valid()
      ensures match Take(old(Rest()), n)
              case None => v == UINT32_MAX && Rest() == old(Rest()) && bits < n
              case Some((x, rest)) =>
                && v == x && Rest() == rest
                && bits < (if old(bits) < n then 8 else old(bits) - n + 1)
    {
      hide LowBits, BitsOf, Power2, Refilled, Masked, Shifted, Take;
      var ok := Ensure(n);
      if !ok { return UINT32_MAX; }
      Extract(acc, bits, n, BitsOf(data[p..]));
      v, acc := Masked(acc, n), Shifted(acc, n);
      bits := bits - n;
    }

    /** Drops the bits up to the next byte boundary. */
    method AlignByte()
      requires Valid() && bits < 8
      modifies this
      ensures Valid() && bits == 0
      ensures Rest() == old(Rest()[|Rest()| % 8..]) == BitsOf(data[p..])
      ensures p == old(p)
    {
      hide LowBits, BitsOf, Power2, Refilled, Masked, Shifted, Take;
      Extract(acc, bits, bits, BitsOf(data[p..]));
      TakeAll(old(Rest()), bits);
      assert Power2(0) == 1 by { One(); }
      acc := Shifted(acc, bits % 8);
      bits := bits - bits % 8;
      NoLowBits(acc);
      assert [] + BitsOf(data[p..]) == BitsOf(data[p..]);
    }
  }

  lemma NextByte(data: seq<Byte>, p: nat)
    requires p < |data|
    ensures BitsOf(data[p..]) == LowBits(data[p], 8) + BitsOf(data[p + 1..])
  {
    assert data[p..][1..] == data[p + 1..];
  }

  lemma TakeAll(s: BitString, n: nat)
    requires n <= |s|
    ensures Take(s, n).Some? && Take(s, n).value.1 == s[n..]
  {}

  lemma One()
    ensures Power2(0) == 1
  {}

  lemma NoLowBits(v: nat)
    ensures LowBits(v, 0) == []
  {}
}
