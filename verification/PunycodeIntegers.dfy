/** Bias adaptation and generalised variable-length integers, the arithmetic of
    src/punycode.cpp (sections 3.3 and 6.1 of RFC 3492). */
module PunycodeIntegers {
  import opened Basics

  const BASE := 36
  const TMIN := 1
  const TMAX := 26
  const SKEW := 38
  const DAMP := 700
  const INITIAL_BIAS := 72
  const INITIAL_N := 128
  const DELIMITER: Byte := 45 // '-'

  // ---------------------------------------------------------------- digits and bias

  /** Value of a base-36 digit, -1 for any other byte; upper case is not accepted. */
  function DigitValue(c: Byte): (d: int)
    ensures -1 <= d < BASE
  {
    if 97 <= c <= 122 then c - 97
    else if 48 <= c <= 57 then c - 48 + 26
    else -1
  }

  function DigitChar(d: nat): (c: Byte)
    requires d < BASE
    ensures DigitValue(c) == d
    ensures c < 0x80 && c != DELIMITER
  {
    if d < 26 then d + 97 else d + 22
  }

  function Threshold(k: nat, bias: nat): (t: nat)
    ensures TMIN <= t <= TMAX
  {
    if k <= bias then TMIN else if k >= bias + TMAX then TMAX else k - bias
  }

  function AdaptLoop(d: nat, k: nat): nat {
    if d > ((BASE - TMIN) * TMAX) / 2 then AdaptLoop(d / (BASE - TMIN), k + BASE)
    else k + ((BASE - TMIN + 1) * d) / (d + SKEW)
  }

  /** Bias adaptation, section 6.1 of RFC 3492. */
  function Adapt(delta: nat, points: nat, first: bool): nat
    requires points > 0
  {
    var d := if first then delta / DAMP else delta / 2;
    AdaptLoop(d + Quot(d, points), 0)
  }

  /** Largest bias `Adapt` can return for a 31-bit delta. */
  const MAX_BIAS := 198

  lemma AdaptLoopBound(d: nat, k: nat)
    requires k == 0 && d <= INT32_MAX
    ensures AdaptLoop(d, k) <= MAX_BIAS
  {
    var d1 := d / 35; var d2 := d1 / 35; var d3 := d2 / 35; var d4 := d3 / 35; var d5 := d4 / 35;
    assert d5 <= 40;
    LastStep(d, 0); LastStep(d1, 36); LastStep(d2, 72); LastStep(d3, 108); LastStep(d4, 144); LastStep(d5, 180);
  }

  lemma LastStep(d: nat, k: nat)
    ensures d <= 455 ==> AdaptLoop(d, k) <= k + 33
    ensures d <= 40 ==> AdaptLoop(d, k) <= k + 18
    ensures d > 455 ==> AdaptLoop(d, k) == AdaptLoop(d / 35, k + 36)
  {
    Ratio(36 * d, d + 38, if d <= 40 then 19 else 34);
  }

  lemma Ratio(a: nat, b: nat, c: nat)
    requires b > 0
    ensures a < c * b ==> a / b < c
  {
    if a / b >= c {
      MulMonotone(c, a / b, b, b);
    }
  }

  lemma AdaptBound(delta: nat, points: nat, first: bool)
    requires points > 0 && delta <= INT32_MAX
    ensures Adapt(delta, points, first) <= MAX_BIAS
  {
    var d := if first then delta / DAMP else delta / 2;
    AdaptLoopBound(d + Quot(d, points), 0);
  }

  // ---------------------------------------------------------------- variable-length integers

  /** A digit that continues a number, and what is left to write after it. */
  function LowDigit(q: nat, t: nat): (digit: nat)
    requires t <= q && TMIN <= t <= TMAX
    ensures t <= digit < BASE
  {
    t + (q - t) % (BASE - t)
  }

  function Remaining(q: nat, t: nat): (more: nat)
    requires t <= q && TMIN <= t <= TMAX
    ensures more < q
    ensures q == LowDigit(q, t) + more * (BASE - t)
  {
    var more := (q - t) / (BASE - t);
    assert more <= q - t;
    more
  }

  /** Generalised variable-length integer for `q`, section 3.3 of RFC 3492. */
  function VarInt(q: nat, k: nat, bias: nat): (digits: seq<Byte>)
    ensures forall j :: 0 <= j < |digits| ==> DigitValue(digits[j]) >= 0
    ensures |digits| > 0
    decreases q
  {
    var t := Threshold(k, bias);
    if q < t then [DigitChar(q)]
    else [DigitChar(LowDigit(q, t))] + VarInt(Remaining(q, t), k + BASE, bias)
  }

  function Sum(i: nat, digit: nat, w: nat): (s: nat)
    ensures s == i + digit * w >= i
  {
    MulMonotone(0, digit, 0, w);
    i + digit * w
  }

  /** The digit loop of the decoder: adds one variable-length integer, scaled by `w`, to `i`.
      Returns the new `i` and the unread input; None if a byte is no digit, the input ends, or
      the sum or the next weight leaves 31 bits. */
  function ReadVarInt(input: seq<Byte>, i: nat, w: nat, k: nat, bias: nat): (r: Option<(nat, seq<Byte>)>)
    requires w > 0
    ensures r.Some? ==> i <= r.value.0 && |r.value.1| < |input|
    decreases |input|
  {
    if input == [] then None
    else
      var digit := DigitValue(input[0]);
      if digit < 0 || i + digit * w > INT32_MAX then None
      else
        var i' := Sum(i, digit, w);
        var t := Threshold(k, bias);
        if digit < t then Some((i', input[1..]))
        else if w * (BASE - t) > INT32_MAX then None
        else ReadVarInt(input[1..], i', w * (BASE - t), k + BASE, bias)
  }

  /** The guard `digit > room / w` is exactly the overflow test `digit * w > room`. */
  lemma Scaled(digit: int, w: nat, room: int)
    requires w > 0 && digit >= 0
    ensures digit * w >= 0
    ensures digit <= room / w <==> digit * w <= room
  {
    if digit <= room / w {
      assert digit * w <= (room / w) * w;
    } else {
      assert digit >= room / w + 1;
      assert digit * w >= (room / w + 1) * w;
    }
  }

  /** The weight at position `k` is a product of one factor in 10..35 per earlier digit. */
  ghost predicate WeightInRange(w: nat, k: nat) {
    w > 0 && k >= BASE && k % BASE == 0 && Power(10, k / BASE - 1) <= w <= Power(35, k / BASE - 1)
  }

  ghost function Power(b: nat, e: int): nat {
    if e <= 0 then 1 else b * Power(b, e - 1)
  }

  lemma NextWeight(w: nat, k: nat, t: nat)
    requires WeightInRange(w, k) && TMIN <= t <= TMAX
    ensures WeightInRange(w * (BASE - t), k + BASE)
  {
    var e := k / BASE - 1;
    assert (k + BASE) / BASE - 1 == e + 1;
    var f := BASE - t;
    assert 10 <= f <= 35;
    assert w * f >= Power(10, e) * 10 by { MulMonotone(Power(10, e), w, 10, f); }
    assert w * f <= Power(35, e) * 35 by { MulMonotone(w, Power(35, e), f, 35); }
  }

  lemma PowerMonotone(b: nat, e: nat, f: nat)
    requires b >= 1 && e <= f
    ensures Power(b, e) <= Power(b, f)
    decreases f
  {
    if e < f {
      PowerMonotone(b, e, f - 1);
      MulMonotone(1, b, Power(b, f - 1), Power(b, f - 1));
    }
  }

  /** No weight below 2^31 belongs to an eleventh digit. */
  lemma WeightBoundsDigits(w: nat, k: nat)
    requires WeightInRange(w, k) && w <= INT32_MAX
    ensures k <= 10 * BASE
  {
    TenTo10();
    if k > 10 * BASE {
      PowerMonotone(10, 10, k / BASE - 1);
    }
  }

  lemma TenTo10()
    ensures Power(10, 10) == 10000000000
  {
    assert Power(10, 2) == 100;
    assert Power(10, 4) == 10000;
    assert Power(10, 6) == 1000000;
    assert Power(10, 8) == 100000000;
  }

  /** The second overflow guard of the digit loop never rejects anything: a digit that
      passed the first guard and continues the number leaves room for the next weight. */
  lemma SecondGuardNeverFires(digit: nat, w: nat, k: nat, bias: nat)
    requires WeightInRange(w, k) && bias <= MAX_BIAS
    requires Threshold(k, bias) <= digit && digit * w <= INT32_MAX
    ensures w * (BASE - Threshold(k, bias)) <= INT32_MAX
  {
    var t := Threshold(k, bias);
    if t >= 18 {
      MulMonotone(w, w, BASE - t, digit);
    } else {
      assert k / BASE - 1 <= 4;
      PowerMonotone(35, if k / BASE - 1 < 0 then 0 else k / BASE - 1, 4);
      assert Power(35, 4) == 1500625 by { assert Power(35, 2) == 1225; }
      MulMonotone(w, 1500625, BASE - t, 35);
    }
  }

  /** One step of the digit loop that does not fail. */
  lemma ReadStep(input: seq<Byte>, i: nat, w: nat, k: nat, bias: nat)
    requires w > 0 && ReadVarInt(input, i, w, k, bias).Some?
    ensures input != [] && DigitValue(input[0]) >= 0
    ensures var digit, t := DigitValue(input[0]), Threshold(k, bias);
            && 0 <= digit * w <= INT32_MAX - i
            && (digit < t ==> ReadVarInt(input, i, w, k, bias) == Some((i + digit * w, input[1..])))
            && (digit >= t ==>
                  && 0 < w * (BASE - t) <= INT32_MAX
                  && ReadVarInt(input, i, w, k, bias)
                     == ReadVarInt(input[1..], i + digit * w, w * (BASE - t), k + BASE, bias))
  {
    var digit, t := DigitValue(input[0]), Threshold(k, bias);
    MulMonotone(1, w, 1, BASE - t);
  }

  lemma {:induction false} ReadInRange(input: seq<Byte>, i: nat, w: nat, k: nat, bias: nat)
    requires w > 0 && ReadVarInt(input, i, w, k, bias).Some?
    ensures ReadVarInt(input, i, w, k, bias).value.0 <= INT32_MAX
    decreases |input|
  {
    ReadStep(input, i, w, k, bias);
    var digit, t := DigitValue(input[0]), Threshold(k, bias);
    if digit >= t {
      ReadInRange(input[1..], i + digit * w, w * (BASE - t), k + BASE, bias);
    }
  }

  /** Reading back what `VarInt` wrote returns the number and leaves what follows untouched. */
  lemma {:induction false} ReadWritten(q: nat, i: nat, w: nat, k: nat, bias: nat, rest: seq<Byte>)
    requires WeightInRange(w, k) && bias <= MAX_BIAS
    requires i + q * w <= INT32_MAX
    ensures ReadVarInt(VarInt(q, k, bias) + rest, i, w, k, bias) == Some((i + q * w, rest))
    decreases q
  {
    var t := Threshold(k, bias);
    var input := VarInt(q, k, bias) + rest;
    if q < t {
      assert input == [DigitChar(q)] + rest;
    } else {
      var digit, more := LowDigit(q, t), Remaining(q, t);
      Distribute(digit, more, BASE - t, w);
      SecondGuardNeverFires(digit, w, k, bias);
      NextWeight(w, k, t);
      assert input == [DigitChar(digit)] + (VarInt(more, k + BASE, bias) + rest);
      ReadWritten(more, i + digit * w, w * (BASE - t), k + BASE, bias, rest);
    }
  }

  lemma Distribute(digit: nat, more: nat, f: nat, w: nat)
    ensures (digit + more * f) * w == digit * w + more * (w * f)
    ensures digit * w >= 0 && more * (w * f) >= 0
  {
    assert (digit + more * f) * w == digit * w + (more * f) * w;
    assert (more * f) * w == more * (f * w);
  }

  /** Variable-length integers are unique: whatever is read as `q` is what `VarInt` writes for `q`. */
  lemma {:induction false} WrittenRead(input: seq<Byte>, i: nat, w: nat, k: nat, bias: nat, i': nat, rest: seq<Byte>)
    returns (q: nat)
    requires w > 0 && ReadVarInt(input, i, w, k, bias) == Some((i', rest))
    ensures i' == i + q * w
    ensures input == VarInt(q, k, bias) + rest
    decreases |input|
  {
    ReadStep(input, i, w, k, bias);
    var digit, t := DigitValue(input[0]), Threshold(k, bias);
    DigitCharInverse(input[0]);
    assert input == [DigitChar(digit)] + input[1..];
    if digit < t {
      q := digit;
    } else {
      var more := WrittenRead(input[1..], i + digit * w, w * (BASE - t), k + BASE, bias, i', rest);
      q := Written(input, i, w, k, bias, i', rest, digit, more);
    }
  }

  lemma Written(input: seq<Byte>, i: nat, w: nat, k: nat, bias: nat, i': nat, rest: seq<Byte>, digit: nat, more: nat)
    returns (q: nat)
    requires Threshold(k, bias) <= digit < BASE
    requires i' == i + digit * w + more * (w * (BASE - Threshold(k, bias)))
    requires input == [DigitChar(digit)] + (VarInt(more, k + BASE, bias) + rest)
    ensures i' == i + q * w
    ensures input == VarInt(q, k, bias) + rest
  {
    var f := BASE - Threshold(k, bias);
    Distribute(digit, more, f, w);
    VarIntCons(digit, more, k, bias);
    q := digit + more * f;
    assert input == ([DigitChar(digit)] + VarInt(more, k + BASE, bias)) + rest;
  }

  lemma VarIntCons(digit: nat, more: nat, k: nat, bias: nat)
    requires Threshold(k, bias) <= digit < BASE
    ensures var q := digit + more * (BASE - Threshold(k, bias));
            q >= 0 && VarInt(q, k, bias) == [DigitChar(digit)] + VarInt(more, k + BASE, bias)
  {
    SplitUnique(digit, more, Threshold(k, bias));
  }

  lemma SplitUnique(digit: nat, more: nat, t: nat)
    requires TMIN <= t <= TMAX && t <= digit < BASE
    ensures var q := digit + more * (BASE - t);
            t <= q && LowDigit(q, t) == digit && Remaining(q, t) == more
  {
    var f := BASE - t;
    assert more * f >= 0;
    Quotient(digit - t, more, f);
  }

  lemma DigitCharInverse(c: Byte)
    requires DigitValue(c) >= 0
    ensures DigitChar(DigitValue(c)) == c
  {}

  /** One integer takes at most ten digits, so the digit loop runs a bounded number of times. */
  lemma {:induction false} DigitsBounded(input: seq<Byte>, i: nat, w: nat, k: nat, bias: nat)
    requires WeightInRange(w, k) && w <= INT32_MAX
    requires ReadVarInt(input, i, w, k, bias).Some?
    ensures |input| - |ReadVarInt(input, i, w, k, bias).value.1| <= 11 - k / BASE
    decreases |input|
  {
    WeightBoundsDigits(w, k);
    var t := Threshold(k, bias);
    ReadStep(input, i, w, k, bias);
    if DigitValue(input[0]) >= t {
      NextWeight(w, k, t);
      DigitsBounded(input[1..], i + DigitValue(input[0]) * w, w * (BASE - t), k + BASE, bias);
    }
  }
}
