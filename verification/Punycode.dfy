/** The Punycode coder of src/punycode.cpp as functions, and the theorems about them.
    `PunycodeImpl` proves the loops of the source against these functions. */
module Punycode {
  import opened Basics
  import opened PunycodeIntegers

  // ---------------------------------------------------------------- the decoder

  /** Splits the sum of index and delta into a code point and a position in an output that is
      to have the given length; None if the code point does not fit 31 bits. */
  function Advance(n: nat, i: nat, length: nat): (r: Option<(nat, nat)>)
    requires length > 0 && n <= INT32_MAX
    ensures r.Some? ==> n <= r.value.0 <= INT32_MAX && r.value.1 < length
  {
    if Quot(i, length) > INT32_MAX - n || n + Quot(i, length) < 0x80 then None
    else Some((n + Quot(i, length), Rem(i, length)))
  }

  /** The main loop of the decoder, from output `out`, counters `n` and `i`, and a bias. */
  function DecodeFrom(out: Points, n: nat, i: nat, bias: nat, input: seq<Byte>): (r: Option<Points>)
    requires n <= INT32_MAX
    decreases |input|
  {
    if input == [] then Some(out)
    else
      match ReadVarInt(input, i, 1, BASE, bias)
      case None => None
      case Some((i', rest)) =>
        match Advance(n, i', |out| + 1)
        case None => None
        case Some((n', pos)) =>
          DecodeFrom(InsertAt(out, pos, n'), n', pos + 1, Adapt(i' - i, |out| + 1, i == 0), rest)
  }

  /** Position of the last delimiter, or -1. */
  function LastDelimiter(input: seq<Byte>): (p: int)
    ensures -1 <= p < |input|
    ensures p >= 0 ==> input[p] == DELIMITER
    ensures forall j :: p < j < |input| ==> input[j] != DELIMITER
  {
    LastDelimiterBefore(input, |input|)
  }

  function LastDelimiterBefore(input: seq<Byte>, end: nat): (p: int)
    requires end <= |input|
    ensures -1 <= p < end
    ensures p >= 0 ==> input[p] == DELIMITER
    ensures forall j :: p < j < end ==> input[j] != DELIMITER
  {
    if end == 0 then -1
    else if input[end - 1] == DELIMITER then end - 1
    else LastDelimiterBefore(input, end - 1)
  }

  predicate AllBasic(s: seq<int>) {
    forall j :: 0 <= j < |s| ==> s[j] < 0x80
  }

  /** `xn--`, the prefix of a doubly encoded label. */
  predicate HasAcePrefix(s: seq<int>) {
    |s| >= 4 && s[0] == 120 && s[1] == 110 && s[2] == 45 && s[3] == 45
  }

  /** Basic code points of a payload and what follows them. A delimiter at index 0 belongs
      to the encoded part. */
  function Split(input: seq<Byte>): (r: (seq<Byte>, seq<Byte>)) {
    var p := LastDelimiter(input);
    if p > 0 then (input[..p], input[p + 1..]) else ([], input)
  }

  /** All of `punycode_to_utf32`, for an output that is empty on entry. */
  function Decode(input: seq<Byte>): Option<Points> {
    var (basic, encoded) := Split(input);
    if !AllBasic(basic) then None
    else
      match DecodeFrom(basic, INITIAL_N, 0, INITIAL_BIAS, encoded)
      case None => None
      case Some(s) => if HasAcePrefix(s) then None else Some(s)
  }

  // ---------------------------------------------------------------- decoder state as a function of its output

  /** The largest code point of `s`, at least 128: the decoder's `n` once it has produced `s`. */
  function Top(s: Points): (n: nat)
    ensures n >= INITIAL_N
  {
    TopOfPrefix(s, |s|)
  }

  function TopOfPrefix(s: Points, length: nat): (n: nat)
    requires length <= |s|
    ensures n >= INITIAL_N
  {
    if length == 0 then INITIAL_N
    else
      var n := TopOfPrefix(s, length - 1);
      if s[length - 1] > n then s[length - 1] else n
  }

  /** One past the last position of `n` in `s`, or 0. */
  function End(s: Points, n: nat): nat {
    EndInPrefix(s, n, |s|)
  }

  function EndInPrefix(s: Points, n: nat, length: nat): (e: nat)
    requires length <= |s|
    ensures e <= length
  {
    if length == 0 then 0
    else if s[length - 1] == n then length
    else EndInPrefix(s, n, length - 1)
  }

  lemma TopIsMaximum(s: Points)
    ensures forall j :: 0 <= j < |s| ==> s[j] <= Top(s)
    ensures Top(s) == INITIAL_N || exists j :: 0 <= j < |s| && s[j] == Top(s)
  {
    TopOfPrefixIsMaximum(s, |s|);
  }

  lemma {:induction false} TopOfPrefixIsMaximum(s: Points, length: nat)
    requires length <= |s|
    ensures var n := TopOfPrefix(s, length);
            && (forall j :: 0 <= j < length ==> s[j] <= n)
            && (n == INITIAL_N || exists j :: 0 <= j < length && s[j] == n)
  {
    if length > 0 {
      TopOfPrefixIsMaximum(s, length - 1);
    }
  }

  lemma EndIsLast(s: Points, n: nat)
    ensures End(s, n) > 0 ==> s[End(s, n) - 1] == n
    ensures forall j :: End(s, n) <= j < |s| ==> s[j] != n
  {
    EndInPrefixIsLast(s, n, |s|);
  }

  lemma {:induction false} EndInPrefixIsLast(s: Points, n: nat, length: nat)
    requires length <= |s|
    ensures var e := EndInPrefix(s, n, length);
            && (e > 0 ==> s[e - 1] == n)
            && (forall j :: e <= j < length ==> s[j] != n)
  {
    if length > 0 { EndInPrefixIsLast(s, n, length - 1); }
  }

  lemma TopUnique(s: Points, n: nat, at: nat)
    requires forall j :: 0 <= j < |s| ==> s[j] <= n
    requires at < |s| && s[at] == n && n >= INITIAL_N
    ensures Top(s) == n
  {
    TopIsMaximum(s);
  }

  lemma EndUnique(s: Points, n: nat, at: nat)
    requires at < |s| && s[at] == n
    requires forall j :: at < j < |s| ==> s[j] != n
    ensures End(s, n) == at + 1
  {
    EndIsLast(s, n);
  }

  /** One past the last position of the largest extended code point, or 0 if there is none:
      the decoder's `i`. */
  function Index(s: Points): (i: nat)
    ensures i <= |s|
  {
    End(s, Top(s))
  }

  /** The decoder's `i` is 0 exactly as long as only basic code points were produced, so its
      test `oldi == 0` and the encoder's `h == b` single out the same delta. */
  lemma IndexZero(s: Points)
    ensures Index(s) == 0 <==> AllBasic(s)
  {
    TopIsMaximum(s);
    EndIsLast(s, Top(s));
    if Index(s) > 0 {
      assert s[Index(s) - 1] >= 0x80;
    } else {
      assert Top(s) == INITIAL_N;
      assert forall j :: 0 <= j < |s| ==> s[j] <= INITIAL_N && s[j] != INITIAL_N;
    }
  }

  /** `s` without the last occurrence of its largest code point: the decoder's output one
      insertion earlier. */
  function Earlier(s: Points): (p: Points)
    requires Index(s) > 0
    ensures |p| == |s| - 1
  {
    var e := Index(s);
    s[..e - 1] + s[e..]
  }

  /** How many <n,i> states lie between two states of equal output length. */
  function Distance(n: int, i: int, n': int, pos: int, length: int): int {
    (n' - n) * length + pos - i
  }

  /** The delta that takes the decoder from `Earlier(s)` to `s`. */
  function Delta(s: Points): (delta: int)
    requires Index(s) > 0
  {
    var p := Earlier(s);
    Distance(Top(p), Index(p), Top(s), Index(s) - 1, |s|)
  }

  function BiasAfter(s: Points): nat {
    if Index(s) == 0 then INITIAL_BIAS
    else
      DeltaNatural(s);
      Adapt(Delta(s), |s|, Index(Earlier(s)) == 0)
  }

  lemma InsertTop(out: Points, pos: nat, c: nat)
    requires pos <= |out| && c >= Top(out)
    ensures Top(InsertAt(out, pos, c)) == c
  {
    var s := InsertAt(out, pos, c);
    TopIsMaximum(out);
    forall j | 0 <= j < |s| ensures s[j] <= c { Inserted(out, pos, c, j); }
    TopUnique(s, c, pos);
  }

  lemma InsertEnd(out: Points, pos: nat, c: nat)
    requires End(out, c) <= pos <= |out|
    ensures End(InsertAt(out, pos, c), c) == pos + 1
  {
    var s := InsertAt(out, pos, c);
    EndIsLast(out, c);
    forall j | pos < j < |s| ensures s[j] != c { Inserted(out, pos, c, j); }
    EndUnique(s, c, pos);
  }

  lemma EndAbove(s: Points, n: nat)
    requires n > Top(s)
    ensures End(s, n) == 0
  {
    TopIsMaximum(s);
    EndIsLast(s, n);
  }

  /** Inserting a code point at or after the current state yields a state from which one can
      tell what was inserted, and where. */
  lemma InsertState(out: Points, pos: nat, c: nat)
    requires pos <= |out|
    requires c > Top(out) || (c == Top(out) && pos >= Index(out))
    ensures var s := InsertAt(out, pos, c);
            && Top(s) == c && Index(s) == pos + 1
            && Earlier(s) == out
            && Delta(s) == Distance(Top(out), Index(out), c, pos, |out| + 1)
  {
    var s := InsertAt(out, pos, c);
    if c > Top(out) { EndAbove(out, c); }
    InsertTop(out, pos, c);
    InsertEnd(out, pos, c);
    assert s[..pos] + s[pos + 1..] == out;
  }

  /** Conversely every string with an extended code point is one insertion after `Earlier`. */
  lemma EarlierState(s: Points)
    requires Index(s) > 0
    ensures var p, pos := Earlier(s), Index(s) - 1;
            && InsertAt(p, pos, Top(s)) == s
            && (Top(s) > Top(p) || (Top(s) == Top(p) && pos >= Index(p)))
  {
    var p, pos, n := Earlier(s), Index(s) - 1, Top(s);
    TopIsMaximum(s);
    EndIsLast(s, n);
    assert p[..pos] == s[..pos] && p[pos..] == s[pos + 1..];
    TopIsMaximum(p);
    EndIsLast(p, n);
    forall j | 0 <= j < |p| ensures p[j] <= n && (j >= pos ==> p[j] != n) {
      assert p[j] == s[if j < pos then j else j + 1];
    }
  }

  lemma DeltaNatural(s: Points)
    requires Index(s) > 0
    ensures Delta(s) >= 0
  {
    EarlierState(s);
    var p := Earlier(s);
    DistanceNatural(Top(p), Index(p), Top(s), Index(s) - 1, |s|);
  }

  lemma DistanceNatural(n: nat, i: nat, n': nat, pos: nat, length: nat)
    requires n' > n || (n' == n && pos >= i)
    requires i < length && pos < length
    ensures Distance(n, i, n', pos, length) >= 0
  {
    if n' > n { MulMonotone(1, n' - n, length, length); }
  }

  // ---------------------------------------------------------------- the encoder

  /** The basic code points of `s`, in order. */
  function Basic(s: Points): seq<Byte> {
    BasicFrom(s, 0)
  }

  function BasicFrom(s: Points, from: nat): (b: seq<Byte>)
    requires from <= |s|
    ensures AllBasic(b)
    decreases |s| - from
  {
    if from == |s| then [] else IfBasic(s[from]) + BasicFrom(s, from + 1)
  }

  function IfBasic(c: nat): (b: seq<Byte>)
    ensures AllBasic(b)
  {
    if c < 0x80 then [c] else []
  }

  /** The variable-length integers for all extended code points of `s`, lowest first;
      None if a delta exceeds 31 bits. */
  function EncodeTail(s: Points): (r: Option<seq<Byte>>)
    decreases |s|
  {
    if Index(s) == 0 then Some([])
    else
      var p := Earlier(s);
      DeltaNatural(s);
      match EncodeTail(p)
      case None => None
      case Some(t) => if Delta(s) > INT32_MAX then None else Some(t + VarInt(Delta(s), BASE, BiasAfter(p)))
  }

  predicate AllScalar(s: Points) {
    forall j :: 0 <= j < |s| ==> s[j] <= 0x10FFFF && IsScalar(s[j])
  }

  /** Basic code points, a delimiter if there are any, and the variable-length integers. */
  function Join(basic: seq<Byte>, tail: seq<Byte>): seq<Byte> {
    basic + (if basic == [] then [] else [DELIMITER]) + tail
  }

  /** All of `utf32_to_punycode`. */
  function Encode(s: Points): Option<seq<Byte>> {
    if !AllScalar(s) then None
    else
      match EncodeTail(s)
      case None => None
      case Some(t) => Some(Join(Basic(s), t))
  }

  // ---------------------------------------------------------------- decode after encode

  /** For every extended code point of `s`, from the lowest up, the step to it from the one
      before, in whole rounds over the output plus the position, fits 31 bits. */
  predicate Decodable(s: Points)
    decreases |s|
  {
    Index(s) > 0 ==>
      && Decodable(Earlier(s))
      && (Top(s) - Top(Earlier(s))) * |s| + Index(s) - 1 <= INT32_MAX
  }

  /** Without its extended code points, `s` is what the encoder copies first. */
  ghost function BasicPoints(s: Points): Points
    decreases |s|
  {
    if Index(s) == 0 then s else BasicPoints(Earlier(s))
  }

  lemma FlatPosition(n: nat, i: nat, n': nat, pos: nat, length: nat)
    requires n <= n' <= INT32_MAX && n' >= 0x80 && pos < length
    ensures var sum := i + Distance(n, i, n', pos, length);
            sum >= 0 && Advance(n, sum, length) == Some((n', pos))
  {
    Quotient(pos, n' - n, length);
  }

  /** One turn of the decoder's main loop. */
  lemma DecodeStep(out: Points, n: nat, i: nat, bias: nat, input: seq<Byte>)
    requires n <= INT32_MAX
    ensures input == [] ==> DecodeFrom(out, n, i, bias, input) == Some(out)
    ensures input != [] ==>
              match ReadVarInt(input, i, 1, BASE, bias)
              case None => DecodeFrom(out, n, i, bias, input) == None
              case Some((i', rest)) =>
                match Advance(n, i', |out| + 1)
                case None => DecodeFrom(out, n, i, bias, input) == None
                case Some((n', pos)) =>
                  DecodeFrom(out, n, i, bias, input)
                  == DecodeFrom(InsertAt(out, pos, n'), n', pos + 1, Adapt(i' - i, |out| + 1, i == 0), rest)
  {
    hide Advance, Adapt, ReadVarInt;
  }

  /** A round of the decoder that reads a delta and inserts `n'` at `pos`. */
  lemma DecodeRound(out: Points, n: nat, i: nat, bias: nat, input: seq<Byte>,
                    i': nat, rest: seq<Byte>, n': nat, pos: nat)
    requires n <= n' <= INT32_MAX && n' >= 0x80 && pos <= |out|
    requires ReadVarInt(input, i, 1, BASE, bias) == Some((i', rest))
    requires Advance(n, i', |out| + 1) == Some((n', pos))
    ensures i <= i'
    ensures DecodeFrom(out, n, i, bias, input)
            == DecodeFrom(InsertAt(out, pos, n'), n', pos + 1, Adapt(i' - i, |out| + 1, i == 0), rest)
  {
    hide Advance, Adapt, ReadVarInt, DecodeFrom;
    DecodeStep(out, n, i, bias, input);
  }

  /** One round of the decoder on the delta of `s` takes it from `Earlier(s)` to `s`. */
  lemma DecodeOneDelta(s: Points, rest: seq<Byte>)
    requires Index(s) > 0 && Index(Earlier(s)) + Delta(s) <= INT32_MAX && Top(s) <= INT32_MAX
    requires Delta(s) >= 0 && BiasAfter(Earlier(s)) <= MAX_BIAS
    ensures var p := Earlier(s);
            Top(p) <= INT32_MAX
            && DecodeFrom(p, Top(p), Index(p), BiasAfter(p), VarInt(Delta(s), BASE, BiasAfter(p)) + rest)
               == DecodeFrom(s, Top(s), Index(s), BiasAfter(s), rest)
  {
    hide Advance, Adapt, VarInt, ReadVarInt, DecodeFrom, Top;
    var p, pos, delta := Earlier(s), Index(s) - 1, Delta(s);
    EarlierState(s);
    FlatPosition(Top(p), Index(p), Top(s), pos, |s|);
    assert WeightInRange(1, BASE);
    ReadWritten(delta, Index(p), 1, BASE, BiasAfter(p), rest);
    DecodeRound(p, Top(p), Index(p), BiasAfter(p), VarInt(delta, BASE, BiasAfter(p)) + rest,
                Index(p) + delta, rest, Top(s), pos);
  }

  lemma BiasBound(s: Points)
    requires Index(s) > 0 ==> 0 <= Delta(s) <= INT32_MAX
    ensures BiasAfter(s) <= MAX_BIAS
  {
    if Index(s) > 0 {
      AdaptBound(Delta(s), |s|, Index(Earlier(s)) == 0);
    }
  }

  /** Decoding an encoded tail rebuilds the string, insertion by insertion. */
  lemma {:induction false} DecodeEncodedTail(s: Points, rest: seq<Byte>)
    requires EncodeTail(s).Some? && Decodable(s) && Top(s) <= INT32_MAX
    ensures DecodeFrom(BasicPoints(s), INITIAL_N, 0, INITIAL_BIAS, EncodeTail(s).value + rest)
            == DecodeFrom(s, Top(s), Index(s), BiasAfter(s), rest)
    decreases |s|
  {
    if Index(s) == 0 {
      BasicTop(s);
      assert [] + rest == rest;
    } else {
      var p := Earlier(s);
      hide BiasAfter, VarInt, DecodeFrom, Top, Delta;
      DeltaNatural(s);
      EarlierState(s);
      var digits := VarInt(Delta(s), BASE, BiasAfter(p));
      DecodeEncodedTail(p, digits + rest);
      if Index(p) > 0 { DeltaNatural(p); }
      BiasBound(p);
      DecodeOneDelta(s, rest);
      Associate(EncodeTail(p).value, digits, rest);
    }
  }

  lemma BasicTop(s: Points)
    requires Index(s) == 0
    ensures Top(s) == INITIAL_N
  {
    TopIsMaximum(s);
    EndIsLast(s, Top(s));
  }

  /** A variable-length integer that would take `i` past 31 bits is rejected. */
  lemma {:induction false} ReadOverflow(q: nat, i: nat, w: nat, k: nat, bias: nat, rest: seq<Byte>)
    requires w > 0 && i + q * w > INT32_MAX
    ensures ReadVarInt(VarInt(q, k, bias) + rest, i, w, k, bias) == None
    decreases q
  {
    var t := Threshold(k, bias);
    var input := VarInt(q, k, bias) + rest;
    if q < t {
      assert input == [DigitChar(q)] + rest;
    } else {
      var digit, more := LowDigit(q, t), Remaining(q, t);
      assert input == [DigitChar(digit)] + (VarInt(more, k + BASE, bias) + rest);
      if ReadVarInt(input, i, w, k, bias).Some? {
        ReadStep(input, i, w, k, bias);
        Distribute(digit, more, BASE - t, w);
        ReadOverflow(more, i + digit * w, w * (BASE - t), k + BASE, bias, rest);
        assert false;
      }
    }
  }

  lemma RejectOneDelta(p: Points, delta: nat, rest: seq<Byte>)
    requires Top(p) <= INT32_MAX < Index(p) + delta
    ensures DecodeFrom(p, Top(p), Index(p), BiasAfter(p), VarInt(delta, BASE, BiasAfter(p)) + rest) == None
  {
    ReadOverflow(delta, Index(p), 1, BASE, BiasAfter(p), rest);
    assert VarInt(delta, BASE, BiasAfter(p)) + rest != [];
  }

  /** Whatever the encoder wrote for an undecodable string, the decoder rejects. */
  lemma {:induction false} RejectUndecodable(s: Points, rest: seq<Byte>)
    requires EncodeTail(s).Some? && !Decodable(s) && Top(s) <= INT32_MAX
    ensures DecodeFrom(BasicPoints(s), INITIAL_N, 0, INITIAL_BIAS, EncodeTail(s).value + rest) == None
    decreases |s|
  {
    var p := Earlier(s);
    DeltaNatural(s);
    EarlierState(s);
    var digits := VarInt(Delta(s), BASE, BiasAfter(p));
    assert EncodeTail(s).value + rest == EncodeTail(p).value + (digits + rest);
    if Decodable(p) {
      DecodeEncodedTail(p, digits + rest);
      RejectOneDelta(p, Delta(s), rest);
    } else {
      RejectUndecodable(p, digits + rest);
    }
  }

  lemma BasicStep(s: Points, from: nat)
    requires from < |s|
    ensures BasicFrom(s, from) == IfBasic(s[from]) + BasicFrom(s, from + 1)
  {}

  lemma BasicEnd(s: Points)
    ensures BasicFrom(s, |s|) == []
  {}

  lemma {:induction false} BasicSplit(a: Points, b: Points, from: nat)
    requires from <= |a|
    ensures BasicFrom(a + b, from) == BasicFrom(a, from) + Basic(b)
    decreases |a| - from
  {
    hide IfBasic, BasicFrom;
    if from == |a| {
      BasicShift(a, b, 0);
      BasicEnd(a);
    } else {
      BasicSplit(a, b, from + 1);
      BasicStep(a + b, from);
      BasicStep(a, from);
      Associate(IfBasic(a[from]), BasicFrom(a, from + 1), Basic(b));
    }
  }

  lemma {:induction false} BasicShift(a: Points, b: Points, j: nat)
    requires j <= |b|
    ensures BasicFrom(a + b, |a| + j) == BasicFrom(b, j)
    decreases |b| - j
  {
    hide IfBasic, BasicFrom;
    if j < |b| {
      BasicShift(a, b, j + 1);
      BasicStep(a + b, |a| + j);
      BasicStep(b, j);
    } else {
      BasicEnd(a + b);
      BasicEnd(b);
    }
  }

  lemma BasicSnoc(x: Points, c: nat)
    ensures Basic(x + [c]) == Basic(x) + IfBasic(c)
  {
    BasicSplit(x, [c], 0);
    assert BasicFrom([c], 1) == [];
    assert Basic([c]) == IfBasic([c][0]) + BasicFrom([c], 1);
  }

  lemma BasicUnchanged(out: Points, pos: nat, c: nat)
    requires pos <= |out| && c >= 0x80
    ensures Basic(InsertAt(out, pos, c)) == Basic(out)
  {
    var x, y := out[..pos], out[pos..];
    assert InsertAt(out, pos, c) == x + ([c] + y);
    assert out == x + y;
    BasicSplit(x, [c] + y, 0);
    BasicSplit(x, y, 0);
    BasicSkip(c, y);
  }

  lemma BasicSkip(c: nat, y: Points)
    requires c >= 0x80
    ensures Basic([c] + y) == Basic(y)
  {
    BasicShift([c], y, 0);
    assert ([c] + y)[0] == c;
  }

  lemma {:induction false} BasicOfBasic(s: Points, from: nat)
    requires from <= |s| && AllBasic(s)
    ensures BasicFrom(s, from) == s[from..]
    decreases |s| - from
  {
    if from < |s| { BasicOfBasic(s, from + 1); }
  }

  lemma {:induction false} BasicPointsAreBasic(s: Points)
    ensures BasicPoints(s) == Basic(s)
    decreases |s|
  {
    IndexZero(s);
    if Index(s) == 0 {
      BasicOfBasic(s, 0);
    } else {
      EarlierState(s);
      BasicUnchanged(Earlier(s), Index(s) - 1, Top(s));
      BasicPointsAreBasic(Earlier(s));
    }
  }

  lemma {:induction false} TailHasNoDelimiter(s: Points)
    requires EncodeTail(s).Some?
    ensures forall j :: 0 <= j < |EncodeTail(s).value| ==> DigitValue(EncodeTail(s).value[j]) >= 0
    decreases |s|
  {
    if Index(s) > 0 { TailHasNoDelimiter(Earlier(s)); }
  }

  /** The decoder splits a payload just where the encoder joined it. */
  lemma SplitJoined(basic: seq<Byte>, tail: seq<Byte>)
    requires forall j :: 0 <= j < |tail| ==> DigitValue(tail[j]) >= 0
    ensures Split(Join(basic, tail)) == (basic, tail)
  {
    var input := Join(basic, tail);
    var p := LastDelimiter(input);
    if basic == [] {
      assert input == tail;
      assert p == -1;
    } else {
      assert input[|basic|] == DELIMITER;
      assert input[|basic| + 1..] == tail && input[..|basic|] == basic;
      assert forall j :: |basic| < j < |input| ==> input[j] == tail[j - |basic| - 1];
      assert p == |basic|;
    }
  }

  lemma DecodeJoined(basic: seq<Byte>, tail: seq<Byte>)
    requires AllBasic(basic)
    requires forall j :: 0 <= j < |tail| ==> DigitValue(tail[j]) >= 0
    ensures Decode(Join(basic, tail))
            == match DecodeFrom(basic, INITIAL_N, 0, INITIAL_BIAS, tail)
               case None => None
               case Some(s) => if HasAcePrefix(s) then None else Some(s)
  {
    SplitJoined(basic, tail);
  }

  /** Decode undoes encode exactly on the decodable strings that do not begin with `xn--`. */
  lemma DecodeEncode(s: Points)
    requires Encode(s).Some?
    ensures Decode(Encode(s).value) == if Decodable(s) && !HasAcePrefix(s) then Some(s) else None
  {
    var tail := EncodeTail(s).value;
    TailHasNoDelimiter(s);
    DecodeJoined(Basic(s), tail);
    BasicPointsAreBasic(s);
    TopOfScalars(s);
    DecodeTail(s);
  }

  lemma DecodeTail(s: Points)
    requires EncodeTail(s).Some? && Top(s) <= 0x10FFFF
    ensures DecodeFrom(BasicPoints(s), INITIAL_N, 0, INITIAL_BIAS, EncodeTail(s).value)
            == if Decodable(s) then Some(s) else None
  {
    assert EncodeTail(s).value + [] == EncodeTail(s).value;
    if Decodable(s) {
      DecodeEncodedTail(s, []);
    } else {
      RejectUndecodable(s, []);
    }
  }

  lemma TopOfScalars(s: Points)
    requires AllScalar(s)
    ensures Top(s) <= 0x10FFFF
  {
    TopIsMaximum(s);
  }

  // ---------------------------------------------------------------- short strings, and long ones

  /** Strings of scalar values so short that every step over all code points fits 31 bits. */
  predicate Short(s: Points) {
    |s| * 0x110000 <= 0x8000_0000
  }

  lemma {:induction false} ShortStringsFit(s: Points)
    requires Short(s) && Top(s) <= 0x10FFFF
    ensures EncodeTail(s).Some? && Decodable(s)
    decreases |s|
  {
    if Index(s) > 0 {
      var p := Earlier(s);
      EarlierState(s);
      DeltaNatural(s);
      MulMonotone(Top(s) - Top(p), 0x10FF7F, |s|, |s|);
      ShortStringsFit(p);
    }
  }

  /** Every short string of scalar values encodes, and decoding the result returns it, except
      that a string beginning with `xn--` is refused. */
  lemma ShortRoundTrip(s: Points)
    requires AllScalar(s) && Short(s)
    ensures Encode(s).Some?
    ensures Decode(Encode(s).value) == if HasAcePrefix(s) then None else Some(s)
  {
    TopOfScalars(s);
    ShortStringsFit(s);
    DecodeEncode(s);
  }

  function Repeated(count: nat): Points {
    seq(count, _ => 0x80)
  }

  lemma {:induction false} RepeatedState(count: nat)
    ensures Top(Repeated(count)) == 0x80 && Index(Repeated(count)) == count
    ensures EncodeTail(Repeated(count)).Some?
  {
    if count > 0 {
      var p, s := Repeated(count - 1), Repeated(count);
      RepeatedState(count - 1);
      InsertState(p, count - 1, 0x80);
      assert s == InsertAt(p, count - 1, 0x80);
      assert Distance(0x80, count - 1, 0x80, count - 1, count) == 0;
      TailGrows(s, 0);
    }
  }

  /** Without a bound on the length the round trip fails: the encoder bounds each delta, the
      decoder the old index plus the delta. After 1999 copies of U+0080 the decoder's index is
      1999, and the delta to a following U+1062CD is within 1999 of the 31-bit limit. */
  lemma LongStringNotDecoded() returns (s: Points)
    ensures AllScalar(s) && Encode(s).Some? && !HasAcePrefix(s)
    ensures Decode(Encode(s).value) == None
  {
    s := LongString();
    DecodeEncode(s);
  }

  lemma LongString() returns (s: Points)
    ensures AllScalar(s) && EncodeTail(s).Some? && !HasAcePrefix(s) && !Decodable(s)
  {
    var p := Repeated(1999);
    RepeatedState(1999);
    InsertState(p, 1999, 0x1062CD);
    s := InsertAt(p, 1999, 0x1062CD);
    assert Distance(0x80, 1999, 0x1062CD, 1999, 2000) == 2147482000;
    TailGrows(s, 2147482000);
    forall j | 0 <= j < |s| ensures s[j] == 0x80 || s[j] == 0x1062CD { Inserted(p, 1999, 0x1062CD, j); }
  }

  // ---------------------------------------------------------------- encode after decode

  /** From any decoder state that the encoder would reach with output `prefix`, re-encoding
      what the decoder makes of `input` yields `prefix` followed by that very `input`. */
  lemma {:induction false} ReencodeFrom(out: Points, prefix: seq<Byte>, input: seq<Byte>, s: Points)
    requires EncodeTail(out) == Some(prefix) && Top(out) <= INT32_MAX
    requires DecodeFrom(out, Top(out), Index(out), BiasAfter(out), input) == Some(s)
    ensures EncodeTail(s) == Some(prefix + input)
    ensures Basic(s) == Basic(out)
    decreases |input|
  {
    if input == [] {
      assert prefix + input == prefix;
    } else {
      var out', rest := ReencodeRound(out, input);
      ReencodeFrom(out', EncodeTail(out').value, rest, s);
      assert prefix + input == EncodeTail(out').value + rest;
    }
  }

  /** Adding `delta` to the decoder state of `out` inserts a code point for which the encoder
      would write just that delta. */
  lemma NextState(out: Points, delta: nat) returns (n': nat, pos: nat)
    requires Top(out) <= INT32_MAX && Advance(Top(out), Index(out) + delta, |out| + 1).Some?
    ensures Advance(Top(out), Index(out) + delta, |out| + 1) == Some((n', pos))
    ensures pos <= |out| && n' >= Top(out)
    ensures var s := InsertAt(out, pos, n');
            && Top(s) == n' && Index(s) == pos + 1 && Earlier(s) == out && Delta(s) == delta
            && Basic(s) == Basic(out)
  {
    hide Top, Index, InsertAt, Earlier, Delta, Basic;
    var n, i, length := Top(out), Index(out), |out| + 1;
    n', pos := n + (i + delta) / length, (i + delta) % length;
    StatePosition(n, i, i + delta, length);
    InsertState(out, pos, n');
    BasicUnchanged(out, pos, n');
  }

  /** One round of the decoder inserts a code point, and the delta it read is what the encoder
      writes for that insertion. */
  lemma ReencodeRound(out: Points, input: seq<Byte>) returns (out': Points, rest: seq<Byte>)
    requires input != [] && EncodeTail(out).Some? && Top(out) <= INT32_MAX
    requires DecodeFrom(out, Top(out), Index(out), BiasAfter(out), input).Some?
    ensures |rest| < |input| && EncodeTail(out').Some?
    ensures EncodeTail(out).value + input == EncodeTail(out').value + rest
    ensures Basic(out') == Basic(out) && Top(out') <= INT32_MAX
    ensures DecodeFrom(out, Top(out), Index(out), BiasAfter(out), input)
            == DecodeFrom(out', Top(out'), Index(out'), BiasAfter(out'), rest)
  {
    hide Advance, Adapt, VarInt, ReadVarInt, DecodeFrom, Top, Index, Delta, Earlier, EncodeTail, Basic;
    var i, bias := Index(out), BiasAfter(out);
    DecodeStep(out, Top(out), i, bias, input);
    var read := ReadVarInt(input, i, 1, BASE, bias).value;
    rest := read.1;
    ReadInRange(input, i, 1, BASE, bias);
    var delta := WrittenRead(input, i, 1, BASE, bias, read.0, rest);
    assert read.0 == i + delta;
    var n', pos := NextState(out, delta);
    out' := InsertAt(out, pos, n');
    DecodeRound(out, Top(out), i, bias, input, read.0, rest, n', pos);
    TailGrows(out', delta);
    Associate(EncodeTail(out).value, VarInt(delta, BASE, bias), rest);
  }

  lemma TailGrows(s: Points, delta: nat)
    requires Index(s) > 0 && Delta(s) == delta <= INT32_MAX && EncodeTail(Earlier(s)).Some?
    ensures EncodeTail(s) == Some(EncodeTail(Earlier(s)).value + VarInt(delta, BASE, BiasAfter(Earlier(s))))
  {}

  lemma StatePosition(n: nat, i: nat, i': nat, length: nat)
    requires i <= i' && i < length
    ensures var n', pos := n + i' / length, i' % length;
            && (n' > n || (n' == n && pos >= i))
            && Distance(n, i, n', pos, length) == i' - i
  {
    assert i' == (i' / length) * length + i' % length;
    if i' / length == 0 { assert i' % length == i'; }
  }

  /** Every accepted payload of scalar values is the encoding of what it decodes to, byte for
      byte. */
  lemma EncodeDecode(input: seq<Byte>)
    requires Decode(input).Some? && AllScalar(Decode(input).value)
    ensures Encode(Decode(input).value) == Some(input)
  {
    hide DecodeFrom, EncodeTail, Basic, Join, Split;
    var (basic, encoded) := Split(input);
    ReencodeParts(basic, encoded, Decode(input).value);
    JoinSplit(input);
  }

  lemma JoinSplit(input: seq<Byte>)
    ensures Join(Split(input).0, Split(input).1) == input
  {
    hide LastDelimiterBefore;
    var p := LastDelimiter(input);
    if p > 0 {
      assert input == input[..p] + [input[p]] + input[p + 1..];
    }
  }

  lemma ReencodeParts(basic: seq<Byte>, encoded: seq<Byte>, s: Points)
    requires AllBasic(basic)
    requires DecodeFrom(basic, INITIAL_N, 0, INITIAL_BIAS, encoded) == Some(s)
    ensures Basic(s) == basic && EncodeTail(s) == Some(encoded)
  {
    IndexZero(basic);
    BasicTop(basic);
    ReencodeFrom(basic, [], encoded, s);
    BasicOfBasic(basic, 0);
    assert [] + encoded == encoded;
  }
}
