/** The loops of src/punycode.cpp over 32-bit integers, proved against the functions of
    `Punycode`. Every `int32` operation below is checked not to leave the range of `int32_t`. */
module PunycodeImpl {
  import opened Basics
  import opened PunycodeIntegers
  import opened Punycode

  // ---------------------------------------------------------------- bias and deltas

  lemma {:induction false} AdaptLoopAtLeast(d: nat, k: nat)
    ensures AdaptLoop(d, k) >= k
    decreases d
  {
    if d > 455 { AdaptLoopAtLeast(d / 35, k + BASE); }
  }

  method AdaptBias(delta: int32, points: int32, first: bool) returns (bias: int32)
    requires delta >= 0 && points > 0
    ensures bias as int == Adapt(delta as int, points as int, first) <= MAX_BIAS
  {
    AdaptBound(delta as int, points as int, first);
    var d := delta;
    if first { d := d / 700; } else { d := d / 2; }
    QuotientBound(d as int, points as int);
    d := d + d / points;
    var k: int32 := 0;
    while d > ((36 - 1) * 26) / 2
      invariant d >= 0 && k >= 0
      invariant AdaptLoop(d as int, k as int) == Adapt(delta as int, points as int, first)
    {
      AdaptLoopAtLeast(d as int, k as int);
      d := d / (36 - 1);
      k := k + 36;
    }
    AdaptLoopAtLeast(d as int, k as int);
    bias := k + ((36 - 1 + 1) * d) / (d + 38);
  }

  method ThresholdFor(k: int32, bias: int32) returns (t: int32)
    requires 0 <= k && 0 <= bias as int <= MAX_BIAS
    ensures t as int == Threshold(k as int, bias as int)
  {
    t := if k <= bias then 1 else if k >= bias + 26 then 26 else k - bias;
  }

  /** Adds a digit of weight `w` to `i` unless the sum leaves 31 bits. */
  method AddDigit(i: int32, digit: int32, w: int32) returns (ok: bool, i': int32)
    requires i >= 0 && digit >= 0 && w > 0
    ensures ok <==> i as int + digit as int * w as int <= INT32_MAX
    ensures ok ==> i' as int == Sum(i as int, digit as int, w as int)
  {
    Scaled(digit as int, w as int, INT32_MAX - i as int);
    if digit > (0x7fffffff - i) / w { return false, i; }
    return true, i + digit * w;
  }

  method GrowWeight(w: int32, t: int32) returns (ok: bool, w': int32)
    requires w > 0 && TMIN <= t as int <= TMAX
    ensures ok <==> w as int * (BASE - t as int) <= INT32_MAX
    ensures ok ==> w' as int == w as int * (BASE - t as int)
  {
    Scaled(w as int, BASE - t as int, INT32_MAX);
    if w > 0x7fffffff / (36 - t) { return false, w; }
    return true, w * (36 - t);
  }

  /** The digit loop shared by `punycode_to_utf32` and `verify_punycode`. */
  method ReadDelta(input: seq<Byte>, i: int32, bias: int32) returns (ok: bool, i': int32, rest: seq<Byte>)
    requires 0 <= i && 0 <= bias as int <= MAX_BIAS
    ensures ok <==> ReadVarInt(input, i as int, 1, BASE, bias as int).Some?
    ensures ok ==> ReadVarInt(input, i as int, 1, BASE, bias as int) == Some((i' as int, rest)) && i <= i'
  {
    hide Power;
    rest, i' := input, i;
    var w: int32 := 1;
    var k: int32 := 36;
    FirstWeight();
    while true
      invariant 0 <= i <= i' && 0 < w && 0 < k
      invariant WeightInRange(w as int, k as int)
      invariant ReadVarInt(input, i as int, 1, BASE, bias as int)
             == ReadVarInt(rest, i' as int, w as int, k as int, bias as int)
      decreases |rest|
    {
      if rest == [] { return false, i', rest; }
      var digit := DigitValue(rest[0]) as int32;
      if digit < 0 { return false, i', rest; }
      var inRange;
      inRange, i' := AddDigit(i', digit, w);
      if !inRange { return false, i', rest; }
      rest := rest[1..];
      var t := ThresholdFor(k, bias);
      if digit < t { return true, i', rest; }
      WeightBoundsDigits(w as int, k as int);
      NextWeight(w as int, k as int, t as int);
      inRange, w := GrowWeight(w, t);
      if !inRange { return false, i', rest; }
      k := k + 36;
    }
  }

  lemma FirstWeight()
    ensures WeightInRange(1, BASE)
  {}

  /** The code point and position an index denotes, or failure. */
  method Place(n: uint32, i: int32, length: int32) returns (ok: bool, n': uint32, pos: int32)
    requires n as int <= INT32_MAX && i >= 0 && length > 0
    ensures ok <==> Advance(n as int, i as int, length as int).Some?
    ensures ok ==> Advance(n as int, i as int, length as int) == Some((n' as int, pos as int))
  {
    QuotientBound(i as int, length as int);
    if i / length > (0x7fffffff - n) as int32 { return false, n, i; }
    n' := n + (i / length) as uint32;
    pos := i % length;
    ok := !(n' < 0x80);
  }

  // ---------------------------------------------------------------- decoder

  /** Copies the part of the payload before its last delimiter. */
  method CopyBasic(input: seq<Byte>, end: nat) returns (ok: bool, out: Points)
    requires end <= |input|
    ensures ok <==> AllBasic(input[..end])
    ensures ok ==> out == input[..end]
  {
    out := [];
    for j := 0 to end
      invariant out == input[..j] && AllBasic(out)
    {
      if input[j] >= 0x80 {
        assert input[..end][j] == input[j];
        return false, out;
      }
      out := out + [input[j]];
    }
    return true, out;
  }

  /** Moves the basic code points of the payload to the output. */
  method TakeBasic(input: seq<Byte>) returns (ok: bool, out: Points, rest: seq<Byte>)
    ensures ok <==> AllBasic(Split(input).0)
    ensures ok ==> (out, rest) == Split(input)
    ensures ok ==> |out| + |rest| <= |input|
  {
    var endOfAscii := LastDelimiter(input);
    if endOfAscii > 0 {
      ok, out := CopyBasic(input, endOfAscii);
      rest := input[endOfAscii + 1..];
    } else {
      ok, out, rest := true, [], input;
    }
  }

  method PunycodeToUtf32(input: seq<Byte>) returns (ok: bool, out: Points)
    requires |input| < INT32_MAX
    ensures ok <==> Decode(input).Some?
    ensures ok ==> Decode(input) == Some(out)
  {
    hide Advance, Adapt, ReadVarInt, DecodeFrom, InsertAt, AllBasic, Split, HasAcePrefix;
    var writtenOut: int32 := 0;
    var n: uint32 := 128;
    var i: int32 := 0;
    var bias: int32 := 72;
    var ok0, rest;
    ok0, out, rest := TakeBasic(input);
    if !ok0 { return false, out; }
    writtenOut := |out| as int32;
    ghost var decoded := DecodeFrom(out, INITIAL_N, 0, INITIAL_BIAS, rest);
    while rest != []
      invariant writtenOut as int == |out| && |out| + |rest| <= |input|
      invariant 0 <= i as int <= |out| && n as int <= INT32_MAX && 0 <= bias as int <= MAX_BIAS
      invariant decoded == DecodeFrom(out, n as int, i as int, bias as int, rest)
      decreases |rest|
    {
      DecodeStep(out, n as int, i as int, bias as int, rest);
      var oldI := i;
      var ok1;
      ok1, i, rest := ReadDelta(rest, i, bias);
      if !ok1 { return false, out; }
      bias := AdaptBias(i - oldI, writtenOut + 1, oldI == 0);
      var ok2;
      ok2, n, i := Place(n, i, writtenOut + 1);
      if !ok2 { return false, out; }
      out := InsertAt(out, i as int, n as int);
      writtenOut := writtenOut + 1;
      i := i + 1;
    }
    DecodeStep(out, n as int, i as int, bias as int, rest);
    return !HasAcePrefix(out), out;
  }

  // ---------------------------------------------------------------- verifier

  /** `first4` holds the first four entries of `out`. */
  ghost predicate Mirrors(first4: seq<uint32>, out: Points) {
    |first4| == 4 && forall j :: 0 <= j < 4 && j < |out| ==> first4[j] as int == out[j]
  }

  /** The payload the verifier decodes: unlike the decoder it drops a delimiter at index 0. */
  function Verified(input: seq<Byte>): seq<Byte> {
    if LastDelimiter(input) == 0 then input[1..] else input
  }

  lemma SplitVerified(input: seq<Byte>)
    ensures Split(Verified(input)) == if LastDelimiter(input) >= 0
                                      then (input[..LastDelimiter(input)], input[LastDelimiter(input) + 1..])
                                      else ([], input)
  {
    if LastDelimiter(input) == 0 {
      var rest := input[1..];
      assert forall j :: 0 <= j < |rest| ==> rest[j] == input[j + 1];
    }
  }

  /** Puts `n` at `pos` among the first four entries and shifts later ones up. */
  method ShiftIn(first4: array<uint32>, pos: nat, n: uint32, ghost out: Points)
    requires first4.Length == 4 && pos <= |out| && Mirrors(first4[..], out)
    modifies first4
    ensures Mirrors(first4[..], InsertAt(out, pos, n as int))
  {
    ghost var s := InsertAt(out, pos, n as int);
    if pos < 4 {
      var j := 3;
      while j > pos
        invariant pos <= j <= 3
        invariant forall k :: 0 <= k <= j && k < |out| ==> first4[k] as int == out[k]
        invariant forall k :: j < k < 4 && k < |s| ==> first4[k] as int == s[k]
      {
        if j < |s| { Inserted(out, pos, n as int, j); }
        first4[j] := first4[j - 1];
        j := j - 1;
      }
      first4[pos] := n;
    }
    forall k | 0 <= k < 4 && k < |s| ensures first4[k] as int == s[k] {
      Inserted(out, pos, n as int, k);
    }
  }

  method TakeFirst4(input: seq<Byte>, end: nat, first4: array<uint32>) returns (ok: bool)
    requires end <= |input| && first4.Length == 4
    modifies first4
    ensures ok <==> AllBasic(input[..end])
    ensures ok ==> Mirrors(first4[..], input[..end])
  {
    for j := 0 to end
      invariant AllBasic(input[..j]) && Mirrors(first4[..], input[..j])
    {
      if input[j] >= 0x80 {
        assert input[..end][j] == input[j];
        return false;
      }
      assert input[..j + 1] == input[..j] + [input[j]];
      if j < 4 { first4[j] := input[j] as uint32; }
    }
    return true;
  }

  /** Consumes the basic code points and their delimiter, wherever it is. */
  method StartVerify(input: seq<Byte>, first4: array<uint32>)
    returns (ok: bool, writtenOut: nat, rest: seq<Byte>, ghost out: Points)
    requires first4.Length == 4
    modifies first4
    ensures ok <==> AllBasic(Split(Verified(input)).0)
    ensures ok ==> (out, rest) == Split(Verified(input)) && writtenOut == |out| && |out| + |rest| <= |input|
    ensures ok ==> Mirrors(first4[..], out)
  {
    SplitVerified(input);
    var endOfAscii := LastDelimiter(input);
    if endOfAscii >= 0 {
      ok := TakeFirst4(input, endOfAscii, first4);
      writtenOut, rest, out := endOfAscii, input[endOfAscii + 1..], input[..endOfAscii];
    } else {
      ok, writtenOut, rest, out := true, 0, input, [];
    }
  }

  /** Accepts exactly what the decoder accepts, keeping only four slots, except that a payload
      whose last delimiter is at index 0 is judged without that delimiter. */
  method VerifyPunycode(input: seq<Byte>) returns (ok: bool)
    requires |input| < INT32_MAX
    ensures ok <==> Decode(Verified(input)).Some?
  {
    hide Advance, Adapt, ReadVarInt, DecodeFrom, InsertAt, AllBasic, Verified, Split, Mirrors, HasAcePrefix;
    var first4 := new uint32[4](_ => 0);
    var n: uint32 := 128;
    var i: int32 := 0;
    var bias: int32 := 72;
    var ok0, writtenOut, rest;
    ghost var out: Points;
    ok0, writtenOut, rest, out := StartVerify(input, first4);
    if !ok0 { return false; }
    ghost var decoded := DecodeFrom(out, INITIAL_N, 0, INITIAL_BIAS, rest);
    while rest != []
      invariant writtenOut == |out| && |out| + |rest| <= |input|
      invariant 0 <= i as int <= |out| && n as int <= INT32_MAX && 0 <= bias as int <= MAX_BIAS
      invariant decoded == DecodeFrom(out, n as int, i as int, bias as int, rest)
      invariant Mirrors(first4[..], out)
      decreases |rest|
    {
      DecodeStep(out, n as int, i as int, bias as int, rest);
      var oldI := i;
      var ok1;
      ok1, i, rest := ReadDelta(rest, i, bias);
      if !ok1 { return false; }
      bias := AdaptBias(i - oldI, (writtenOut + 1) as int32, oldI == 0);
      var ok2;
      ok2, n, i := Place(n, i, (writtenOut + 1) as int32);
      if !ok2 { return false; }
      ShiftIn(first4, i as int, n, out);
      out := InsertAt(out, i as int, n as int);
      writtenOut := writtenOut + 1;
      i := i + 1;
    }
    DecodeStep(out, n as int, i as int, bias as int, rest);
    AceInFirst4(first4[..], out);
    ok := !(writtenOut >= 4 && first4[0] == 120 && first4[1] == 110 && first4[2] == 45 && first4[3] == 45);
  }

  lemma AceInFirst4(first4: seq<uint32>, out: Points)
    requires Mirrors(first4, out)
    ensures |first4| == 4
    ensures HasAcePrefix(out) <==>
            |out| >= 4 && first4[0] == 120 && first4[1] == 110 && first4[2] == 45 && first4[3] == 45
  {}

  /** The verifier's answer is the decoder's for every payload, unless its last delimiter is at
      index 0 and what follows decodes. */
  lemma VerifierAgrees(input: seq<Byte>)
    ensures (Decode(Verified(input)).Some? <==> Decode(input).Some?)
            <==> !(LastDelimiter(input) == 0 && Decode(input[1..]).Some?)
    ensures LastDelimiter(input) != 0 ==> (Decode(Verified(input)).Some? <==> Decode(input).Some?)
  {
    if LastDelimiter(input) == 0 { LeadingDelimiterRejected(input); }
  }

  /** The decoder rejects every payload whose last delimiter is at index 0. */
  lemma LeadingDelimiterRejected(input: seq<Byte>)
    requires LastDelimiter(input) == 0
    ensures Decode(input) == None
  {
    assert ReadVarInt(input, 0, 1, BASE, INITIAL_BIAS) == None;
    assert DecodeFrom([], INITIAL_N, 0, INITIAL_BIAS, input) == None;
  }

  /** The payload "-a": the verifier accepts it, the decoder does not. */
  lemma VerifierAcceptsMore()
    ensures Decode(Verified([DELIMITER, 97])).Some? && Decode([DELIMITER, 97]) == None
  {
    assert LastDelimiterBefore([DELIMITER, 97], 1) == 0;
    LeadingDelimiterRejected([DELIMITER, 97]);
    var rest: seq<Byte> := [97];
    assert Verified([DELIMITER, 97]) == rest;
    assert LastDelimiter(rest) == -1;
    assert DigitValue(97) == 0;
    assert ReadVarInt(rest, 0, 1, BASE, INITIAL_BIAS) == Some((0, []));
    assert Advance(INITIAL_N, 0, 1) == Some((128, 0));
    DecodeStep([], INITIAL_N, 0, INITIAL_BIAS, rest);
  }
}
