/** The loops of `utf32_to_punycode`, proved against `Punycode.Encode`. */
module PunycodeEncoder {
  import opened Basics
  import opened PunycodeIntegers
  import opened Punycode
  import opened PunycodeImpl

  // ---------------------------------------------------------------- what has been written so far

  /** The encoder works through code points in increasing order, and through equal ones from
      left to right: with counter `n` and scan position `j`, these are done. */
  predicate Done(c: nat, at: nat, n: nat, j: nat) {
    c < n || (c == n && at < j)
  }

  /** The done code points among the first `length` ones, in place order. */
  function DoneIn(s: Points, n: nat, j: nat, length: nat): (k: Points)
    requires length <= |s|
    ensures |k| <= length
  {
    if length == 0 then []
    else DoneIn(s, n, j, length - 1) + if Done(s[length - 1], length - 1, n, j) then [s[length - 1]] else []
  }

  /** What the decoder has produced when the encoder stands at (n, j). */
  function Written(s: Points, n: nat, j: nat): (w: Points)
    ensures |w| <= |s|
  {
    DoneIn(s, n, j, |s|)
  }

  /** Where the decoder would insert `n` when the encoder stands at (n, j). */
  function Position(s: Points, n: nat, j: nat): (p: nat)
    requires j <= |s|
    ensures p <= j
  {
    |DoneIn(s, n, j, j)|
  }

  lemma {:induction false} SameDone(s: Points, n: nat, j: nat, m: nat, k: nat, length: nat)
    requires length <= |s|
    requires forall t :: 0 <= t < length ==> (Done(s[t], t, n, j) <==> Done(s[t], t, m, k))
    ensures DoneIn(s, n, j, length) == DoneIn(s, m, k, length)
  {
    if length > 0 { SameDone(s, n, j, m, k, length - 1); }
  }

  /** Past the scan position only smaller code points are done. */
  lemma {:induction false} DoneSplit(s: Points, n: nat, j: nat, length: nat)
    requires j <= length <= |s|
    ensures var k, p := DoneIn(s, n, j, length), Position(s, n, j);
            && p <= |k| && k[..p] == DoneIn(s, n, j, j)
            && (forall t :: p <= t < |k| ==> k[t] < n)
    decreases length
  {
    if length > j {
      DoneSplit(s, n, j, length - 1);
    }
  }

  lemma {:induction false} DoneAtMost(s: Points, n: nat, j: nat, length: nat)
    requires length <= |s|
    ensures forall t :: 0 <= t < |DoneIn(s, n, j, length)| ==> DoneIn(s, n, j, length)[t] <= n
  {
    if length > 0 { DoneAtMost(s, n, j, length - 1); }
  }

  /** Nothing is missing exactly if everything is done. */
  lemma {:induction false} DoneAll(s: Points, n: nat, j: nat, length: nat)
    requires length <= |s|
    ensures |DoneIn(s, n, j, length)| == length <==> forall t :: 0 <= t < length ==> Done(s[t], t, n, j)
    ensures |DoneIn(s, n, j, length)| == length ==> DoneIn(s, n, j, length) == s[..length]
  {
    if length > 0 {
      DoneAll(s, n, j, length - 1);
      if |DoneIn(s, n, j, length)| == length {
        assert s[..length] == s[..length - 1] + [s[length - 1]];
      }
    }
  }

  lemma {:induction false} BasicAreDone(s: Points, n: nat, j: nat, length: nat)
    requires length <= |s| && n >= 0x80
    ensures Basic(DoneIn(s, n, j, length)) == Basic(s[..length])
    ensures n == 0x80 && j == 0 ==> DoneIn(s, n, j, length) == Basic(s[..length])
  {
    if length > 0 {
      hide Basic;
      BasicAreDone(s, n, j, length - 1);
      var c := s[length - 1];
      assert s[..length] == s[..length - 1] + [c];
      BasicSnoc(s[..length - 1], c);
      BasicSnoc(DoneIn(s, n, j, length - 1), c);
      assert DoneIn(s, n, j, length - 1) + [] == DoneIn(s, n, j, length - 1);
    } else {
      assert s[..0] == [];
    }
  }

  /** Scanning past a code point that is not due changes nothing. */
  lemma ScanOther(s: Points, n: nat, j: nat)
    requires j < |s| && s[j] != n
    ensures Written(s, n, j + 1) == Written(s, n, j)
    ensures Position(s, n, j + 1) == Position(s, n, j) + if s[j] < n then 1 else 0
  {
    SameDone(s, n, j, n, j + 1, |s|);
    SameDone(s, n, j, n, j + 1, j);
  }

  /** Scanning past an occurrence of `n` inserts it. */
  lemma ScanDue(s: Points, n: nat, j: nat)
    requires j < |s| && s[j] == n
    ensures Position(s, n, j) <= |Written(s, n, j)|
    ensures Written(s, n, j + 1) == InsertAt(Written(s, n, j), Position(s, n, j), n)
    ensures Position(s, n, j + 1) == Position(s, n, j) + 1
  {
    DoneSplit(s, n, j, |s|);
    InsertDue(s, n, j, |s|);
    SameDone(s, n, j, n, j + 1, j);
  }

  lemma {:induction false} InsertDue(s: Points, n: nat, j: nat, length: nat)
    requires j < length <= |s| && s[j] == n
    ensures var k, p := DoneIn(s, n, j, length), Position(s, n, j);
            p <= |k| && DoneIn(s, n, j + 1, length) == InsertAt(k, p, n)
    decreases length
  {
    DoneSplit(s, n, j, length);
    if length == j + 1 {
      SameDone(s, n, j, n, j + 1, j);
    } else {
      InsertDue(s, n, j, length - 1);
      DoneSplit(s, n, j, length - 1);
    }
  }

  /** Ending a pass and skipping to the next code point in use leave the work done as it is. */
  lemma NextPass(s: Points, n: nat)
    ensures Written(s, n, |s|) == Written(s, n + 1, 0)
    ensures Position(s, n, |s|) == |Written(s, n, |s|)| && Position(s, n + 1, 0) == 0
  {
    SameDone(s, n, |s|, n + 1, 0, |s|);
  }

  lemma Skip(s: Points, n: nat, m: nat)
    requires n <= m && forall t :: 0 <= t < |s| ==> !(n <= s[t] < m)
    ensures Written(s, n, 0) == Written(s, m, 0)
    ensures Position(s, n, 0) == 0 == Position(s, m, 0)
  {
    SameDone(s, n, 0, m, 0, |s|);
  }

  // ---------------------------------------------------------------- decoder state at (n, j)

  /** The decoder's counters at (n, j) are not ahead of the encoder's. */
  lemma Behind(s: Points, n: nat, j: nat)
    requires n >= INITIAL_N && j <= |s|
    ensures var w := Written(s, n, j);
            && Top(w) <= n
            && (Top(w) == n ==> Index(w) <= Position(s, n, j))
            && Position(s, n, j) <= |w|
  {
    var w := Written(s, n, j);
    DoneAtMost(s, n, j, |s|);
    DoneSplit(s, n, j, |s|);
    TopIsMaximum(w);
    EndIsLast(w, n);
  }

  /** The encoder's running delta at (n, j): the decoder states skipped since its last insertion. */
  ghost function Running(s: Points, n: nat, j: nat): int
    requires j <= |s|
  {
    var w := Written(s, n, j);
    Distance(Top(w), Index(w), n, Position(s, n, j), |w| + 1)
  }

  lemma RunningScan(s: Points, n: nat, j: nat)
    requires j < |s| && s[j] != n
    ensures Running(s, n, j + 1) == Running(s, n, j) + if s[j] < n then 1 else 0
  {
    hide Top, Index, Written, Position;
    ScanOther(s, n, j);
  }

  lemma RunningNextPass(s: Points, n: nat)
    ensures Running(s, n + 1, 0) == Running(s, n, |s|) + 1
  {
    hide Top, Index, Written, Position;
    NextPass(s, n);
    var w := Written(s, n, |s|);
    DistanceUp(Top(w), Index(w), n, n + 1, |w|, 0, |w| + 1);
  }

  lemma RunningSkip(s: Points, n: nat, m: nat)
    requires n <= m && forall t :: 0 <= t < |s| ==> !(n <= s[t] < m)
    ensures Running(s, m, 0) == Running(s, n, 0) + (m - n) * (|Written(s, n, 0)| + 1)
  {
    hide Top, Index, Written, Position;
    Skip(s, n, m);
    var w := Written(s, n, 0);
    DistanceUp(Top(w), Index(w), n, m, 0, 0, |w| + 1);
  }

  lemma DistanceUp(t: int, i: int, n: int, m: int, p: int, q: int, length: int)
    ensures Distance(t, i, m, q, length) == Distance(t, i, n, p, length) + (m - n) * length + q - p
  {
    assert (m - t) * length == (m - n) * length + (n - t) * length;
  }

  /** Inserting the due code point is the decoder step with the running delta. */
  lemma InsertionStep(s: Points, n: nat, j: nat)
    requires n >= INITIAL_N && j < |s| && s[j] == n
    ensures var w, w' := Written(s, n, j), Written(s, n, j + 1);
            && |w'| == |w| + 1
            && Index(w') > 0 && Earlier(w') == w && Delta(w') == Running(s, n, j)
            && Top(w') == n && Index(w') == Position(s, n, j) + 1
  {
    hide Top, Index, Written, Position, InsertAt, Earlier, Delta, Distance;
    ScanDue(s, n, j);
    Behind(s, n, j);
    InsertState(Written(s, n, j), Position(s, n, j), n);
  }

  lemma RunningInserted(s: Points, n: nat, j: nat)
    requires n >= INITIAL_N && j < |s| && s[j] == n
    ensures Running(s, n, j + 1) == 0
  {
    hide Top, Index, Written, Position;
    ScanDue(s, n, j);
    InsertionStep(s, n, j);
  }

  // ---------------------------------------------------------------- failure

  /** As long as something is missing, some later insertion starts from the work done now. */
  lemma {:induction false} NextInsertion(s: Points, n: nat, j: nat) returns (m: nat, k: nat)
    requires n >= INITIAL_N && j <= |s| && Written(s, n, j) != s
    ensures k < |s| && s[k] == m && (m > n || (m == n && k >= j))
    ensures Written(s, m, k) == Written(s, n, j)
  {
    DoneAll(s, n, j, |s|);
    assert s[..|s|] == s;
    m, k := FirstMissing(s, n, j, |s|);
    SameDone(s, n, j, m, k, |s|);
  }

  /** The first missing code point: lowest value, then leftmost. */
  lemma {:induction false} FirstMissing(s: Points, n: nat, j: nat, length: nat) returns (m: nat, k: nat)
    requires length <= |s| && exists t :: 0 <= t < length && !Done(s[t], t, n, j)
    ensures k < length && s[k] == m && !Done(m, k, n, j)
    ensures forall t :: 0 <= t < length && !Done(s[t], t, n, j) ==> m < s[t] || (m == s[t] && k <= t)
  {
    var last := length - 1;
    if t :| 0 <= t < last && !Done(s[t], t, n, j) {
      m, k := FirstMissing(s, n, j, last);
      if !Done(s[last], last, n, j) && s[last] < m {
        m, k := s[last], last;
      }
    } else {
      m, k := s[last], last;
    }
  }

  /** A string cannot be encoded if what is written of it at some point cannot. */
  lemma {:induction false} FailureIsFinal(s: Points, n: nat, j: nat)
    requires n >= INITIAL_N && j <= |s| && EncodeTail(Written(s, n, j)) == None
    ensures EncodeTail(s) == None
    decreases |s| - |Written(s, n, j)|
  {
    hide Delta, Top, Index, Earlier, Written, BiasAfter, VarInt;
    if Written(s, n, j) != s {
      var m, k := NextInsertion(s, n, j);
      InsertionStep(s, m, k);
      FailureIsFinal(s, m, k + 1);
    }
  }

  lemma PositionMonotone(s: Points, n: nat, j: nat, k: nat)
    requires j <= k <= |s| && Written(s, n, k) == Written(s, n, j)
    ensures Position(s, n, j) <= Position(s, n, k)
    decreases k - j
  {
    if j < k {
      DoneGrows(s, n, j, k);
    }
  }

  lemma {:induction false} DoneGrows(s: Points, n: nat, j: nat, k: nat)
    requires j <= k <= |s|
    ensures |DoneIn(s, n, j, j)| <= |DoneIn(s, n, k, k)|
    decreases k
  {
    if j < k {
      DoneGrows(s, n, j, k - 1);
      SameDone(s, n, k - 1, n, k, k - 1);
    }
  }

  /** The running delta never shrinks on the way to the next insertion. */
  lemma RunningGrows(s: Points, n: nat, j: nat, m: nat, k: nat)
    requires j <= |s| && k <= |s| && (m > n || (m == n && k >= j))
    requires Written(s, m, k) == Written(s, n, j)
    ensures Running(s, m, k) >= Running(s, n, j)
  {
    var w := Written(s, n, j);
    DoneSplit(s, n, j, |s|);
    DistanceUp(Top(w), Index(w), n, m, Position(s, n, j), Position(s, m, k), |w| + 1);
    if m == n {
      PositionMonotone(s, n, j, k);
    } else {
      MulMonotone(1, m - n, |w| + 1, |w| + 1);
    }
  }

  /** Once the running delta exceeds 31 bits, the next insertion fails for good. */
  lemma OverflowIsFinal(s: Points, n: nat, j: nat)
    requires n >= INITIAL_N && j <= |s| && Written(s, n, j) != s
    requires Running(s, n, j) > INT32_MAX
    ensures EncodeTail(s) == None
  {
    hide Top, Index, Earlier, Written, Running, Delta, BiasAfter, VarInt;
    var m, k := NextInsertion(s, n, j);
    RunningGrows(s, n, j, m, k);
    InsertionStep(s, m, k);
    assert EncodeTail(Written(s, m, k + 1)) == None;
    FailureIsFinal(s, m, k + 1);
  }

  /** After an insertion of `n`, the running delta of the pass counts positions only. */
  lemma RunningSmall(s: Points, n: nat, j: nat)
    requires j <= |s| && Top(Written(s, n, j)) == n
    ensures Running(s, n, j) <= j
  {}

  lemma TopWhenWritten(s: Points, n: nat, j: nat, at: nat)
    requires n >= INITIAL_N && at < j <= |s| && s[at] == n
    ensures Top(Written(s, n, j)) == n
  {
    Behind(s, n, j);
    DoneContains(s, n, j, at, |s|);
    TopIsMaximum(Written(s, n, j));
  }

  lemma {:induction false} DoneContains(s: Points, n: nat, j: nat, at: nat, length: nat)
    requires at < length <= |s| && Done(s[at], at, n, j)
    ensures s[at] in DoneIn(s, n, j, length)
  {
    if at < length - 1 { DoneContains(s, n, j, at, length - 1); }
  }

  // ---------------------------------------------------------------- the loops

  /** Writes one variable-length integer. */
  method AppendVarInt(out0: seq<Byte>, d: int32, bias: int32) returns (out: seq<Byte>)
    requires d >= 0 && 0 <= bias as int <= MAX_BIAS
    ensures out == out0 + VarInt(d as int, BASE, bias as int)
  {
    hide VarInt, Power, LowDigit, Remaining;
    out := out0;
    var q := d;
    var k: int32 := 36;
    DigitPositionFirst(d as int);
    while true
      invariant q >= 0 && k > 0 && DigitPosition(q as int, k as int)
      invariant out + VarInt(q as int, k as int, bias as int) == out0 + VarInt(d as int, BASE, bias as int)
      decreases q
    {
      DigitPositionBound(q as int, k as int);
      var t := ThresholdFor(k, bias);
      VarIntStep(q as int, k as int, bias as int);
      if q < t { break; }
      DigitPositionNext(q as int, k as int, t as int);
      SplitDigit(q, t);
      Associate(out, [DigitChar((t + (q - t) % (36 - t)) as int)],
                VarInt(((q - t) / (36 - t)) as int, k as int + BASE, bias as int));
      out := out + [DigitChar((t + (q - t) % (36 - t)) as int)];
      q := (q - t) / (36 - t);
      k := k + 36;
    }
    out := out + [DigitChar(q as int)];
  }

  lemma VarIntStep(q: nat, k: nat, bias: nat)
    ensures var t := Threshold(k, bias);
            VarInt(q, k, bias) == if q < t then [DigitChar(q)]
                                  else [DigitChar(LowDigit(q, t))] + VarInt(Remaining(q, t), k + BASE, bias)
  {}

  lemma SplitDigit(q: int32, t: int32)
    requires TMIN <= t as int <= TMAX && t <= q
    ensures 0 <= (q - t) / (36 - t) < q && ((q - t) / (36 - t)) as int == Remaining(q as int, t as int)
    ensures 0 <= (q - t) % (36 - t) < 36 - t && (t + (q - t) % (36 - t)) as int == LowDigit(q as int, t as int)
  {
    var a, b := q - t, 36 - t;
    QuotientBound(a as int, b as int);
    assert (a / b) as int == a as int / b as int;
    assert (a % b) as int == a as int % b as int;
  }

  /** Each digit divides the number by at least ten, so few are written. */
  ghost predicate DigitPosition(q: nat, k: nat) {
    k >= BASE && k % BASE == 0 && Power(10, k / BASE - 1) * q <= INT32_MAX
  }

  lemma DigitPositionFirst(q: nat)
    requires q <= INT32_MAX
    ensures DigitPosition(q, BASE)
  {}

  lemma DigitPositionBound(q: nat, k: nat)
    requires DigitPosition(q, k)
    ensures q > 0 ==> k <= 10 * BASE
  {
    TenTo10();
    if q > 0 && k > 10 * BASE {
      PowerMonotone(10, 10, k / BASE - 1);
      MulMonotone(Power(10, 10), Power(10, k / BASE - 1), 1, q);
    }
  }

  lemma DigitPositionNext(q: nat, k: nat, t: nat)
    requires DigitPosition(q, k) && TMIN <= t <= TMAX && t <= q
    ensures DigitPosition(Remaining(q, t), k + BASE)
  {
    var e, more := k / BASE - 1, Remaining(q, t);
    assert (k + BASE) / BASE - 1 == e + 1;
    MulMonotone(more, more, 10, BASE - t);
    assert 10 * more <= q;
    MulMonotone(Power(10, e), Power(10, e), 10 * more, q);
    assert Power(10, e + 1) * more == Power(10, e) * (10 * more) by {
      assert (10 * Power(10, e)) * more == Power(10, e) * (10 * more);
    }
  }

  /** The encoder at (n, j): what it wrote after `start` is the tail of what is done, and its
      variables describe the decoder at that point. */
  ghost predicate At(s: Points, n: nat, j: nat, d: int, bias: int, h: nat, first: bool, start: seq<Byte>,
      out: seq<Byte>)
    requires j <= |s|
  {
    var w := Written(s, n, j);
    && EncodeTail(w).Some? && out == start + EncodeTail(w).value
    && h == |w| && d == Running(s, n, j) && bias == BiasAfter(w) && (first <==> Index(w) == 0)
  }

  lemma AtScanned(s: Points, n: nat, j: nat, d: int, bias: int, h: nat, first: bool, start: seq<Byte>, out: seq<Byte>)
    requires j < |s| && s[j] != n && At(s, n, j, d, bias, h, first, start, out)
    ensures At(s, n, j + 1, if s[j] < n then d + 1 else d, bias, h, first, start, out)
  {
    hide Written, Running, Index, BiasAfter, EncodeTail;
    ScanOther(s, n, j);
    RunningScan(s, n, j);
  }

  lemma AtInserted(s: Points, n: nat, j: nat, d: int, bias: nat, h: nat, first: bool, start: seq<Byte>, out: seq<Byte>)
    requires n >= INITIAL_N && j < |s| && s[j] == n && At(s, n, j, d, bias, h, first, start, out)
    requires 0 <= d <= INT32_MAX
    ensures At(s, n, j + 1, 0, Adapt(d, h + 1, first), h + 1, false, start, out + VarInt(d, BASE, bias))
  {
    hide Written, Running, Index, EncodeTail, VarInt, Adapt, Top, Delta, Earlier;
    InsertionStep(s, n, j);
    RunningInserted(s, n, j);
    TailGrows(Written(s, n, j + 1), d);
    Associate(start, EncodeTail(Written(s, n, j)).value, VarInt(d, BASE, bias));
  }

  /** One pass over the input for code point `n`. */
  method EncodePass(s: Points, n: uint32, d0: int32, bias0: int32, h0: nat, b: nat, ghost start: seq<Byte>,
      out0: seq<Byte>)
    returns (ok: bool, d: int32, bias: int32, h: nat, out: seq<Byte>)
    requires |s| < INT32_MAX && b <= h0 <= |s|
    requires 0x80 <= n as int && d0 >= 0 && 0 <= bias0 as int <= MAX_BIAS
    requires n as int in s
    requires At(s, n as int, 0, d0 as int, bias0 as int, h0, h0 == b, start, out0)
    ensures !ok ==> EncodeTail(s) == None
    ensures ok ==> 0 <= d <= |s| as int32 && 0 <= bias as int <= MAX_BIAS && h0 < h <= |s|
    ensures ok ==> At(s, n as int, |s|, d as int, bias as int, h, h == b, start, out)
  {
    hide At, Adapt, VarInt, EncodeTail, Written;
    d, bias, h, out := d0, bias0, h0, out0;
    for j := 0 to |s|
      invariant 0 <= d && 0 <= bias as int <= MAX_BIAS
      invariant h0 <= h && (h == h0 || h > b)
      invariant At(s, n as int, j, d as int, bias as int, h, h == b, start, out)
      invariant n as int in s[..j] ==> h > h0
    {
      var c := s[j];
      assert s[..j + 1] == s[..j] + [c];
      AtMeans(s, n as int, j, d as int, bias as int, h, h == b, start, out);
      if c < n as int {
        if d == 0x7fffffff {
          ScanOverflow(s, n as int, j, d as int);
          return false, d, bias, h, out;
        }
        AtScanned(s, n as int, j, d as int, bias as int, h, h == b, start, out);
        d := d + 1;
      } else if c == n as int {
        AtInserted(s, n as int, j, d as int, bias as int, h, h == b, start, out);
        out := AppendVarInt(out, d, bias);
        AtRoom(s, n as int, j);
        bias := AdaptBias(d, (h + 1) as int32, h == b);
        d := 0;
        h := h + 1;
      } else {
        AtScanned(s, n as int, j, d as int, bias as int, h, h == b, start, out);
      }
    }
    AtMeans(s, n as int, |s|, d as int, bias as int, h, h == b, start, out);
    PassEnd(s, n as int);
    assert s[..|s|] == s;
    return true, d, bias, h, out;
  }

  lemma AtMeans(s: Points, n: nat, j: nat, d: int, bias: int, h: nat, first: bool, start: seq<Byte>, out: seq<Byte>)
    requires j <= |s| && At(s, n, j, d, bias, h, first, start, out)
    ensures d == Running(s, n, j) && h == |Written(s, n, j)| && h <= |s|
  {}

  /** Before an insertion something is missing. */
  lemma AtRoom(s: Points, n: nat, j: nat)
    requires j < |s| && s[j] == n
    ensures |Written(s, n, j)| < |s|
  {
    DoneAll(s, n, j, |s|);
    assert !Done(s[j], j, n, j);
  }

  /** If the count in a pass overflows, the string has no encoding. */
  lemma ScanOverflow(s: Points, n: nat, j: nat, d: int)
    requires n >= INITIAL_N && j < |s| < INT32_MAX && s[j] < n
    requires d == Running(s, n, j) == INT32_MAX && n in s
    ensures EncodeTail(s) == None
  {
    hide Running, Written, Top;
    RunningScan(s, n, j);
    if Written(s, n, j + 1) == s {
      Behind(s, n, j + 1);
      TopIsMaximum(s);
      RunningSmall(s, n, j + 1);
    } else {
      OverflowIsFinal(s, n, j + 1);
    }
  }

  lemma PassEnd(s: Points, n: nat)
    requires n >= INITIAL_N && n in s
    ensures Running(s, n, |s|) <= |s|
  {
    var at :| 0 <= at < |s| && s[at] == n;
    TopWhenWritten(s, n, |s|, at);
    RunningSmall(s, n, |s|);
  }

  /** The scan over the input before the passes: basic code points are copied, and a code point
      that is no scalar value ends the run. */
  method CopyBasicPoints(s: Points, prefix: seq<Byte>) returns (ok: bool, h: nat, out: seq<Byte>)
    ensures ok <==> AllScalar(s)
    ensures ok ==> out == prefix + Basic(s) && h == |Basic(s)|
  {
    hide Basic;
    h, out := 0, prefix;
    BasicOfNothing();
    for j := 0 to |s|
      invariant AllScalar(s[..j])
      invariant out == prefix + Basic(s[..j]) && h == |Basic(s[..j])|
    {
      var c := s[j];
      assert s[..j + 1] == s[..j] + [c];
      BasicSnoc(s[..j], c);
      if c < 0x80 {
        h := h + 1;
        out := out + [c];
      }
      if c > 0x10ffff || (c >= 0xd800 && c < 0xe000) { return false, h, out; }
    }
    assert s[..|s|] == s;
    return true, h, out;
  }

  lemma BasicOfNothing()
    ensures Basic([]) == []
  {}

  /** The smallest code point that is at least `n`. */
  method NextPoint(s: Points, n: uint32) returns (m: uint32)
    requires AllScalar(s) && exists j :: 0 <= j < |s| && s[j] >= n as int
    ensures m as int in s && m >= n && m as int <= 0x10FFFF
    ensures forall j :: 0 <= j < |s| ==> !(n as int <= s[j] < m as int)
  {
    m := 0x10FFFF;
    for j := 0 to |s|
      invariant m as int <= 0x10FFFF
      invariant m == 0x10FFFF || (m as int in s[..j] && m >= n)
      invariant forall t :: 0 <= t < j ==> !(n as int <= s[t] < m as int)
    {
      assert s[..j + 1] == s[..j] + [s[j]];
      if s[j] >= n as int && s[j] < m as int { m := s[j] as uint32; }
    }
    var j :| 0 <= j < |s| && s[j] >= n as int;
    assert s[j] <= 0x10FFFF && s[j] >= m as int;
    assert s[..|s|] == s;
  }

  lemma StartAt(s: Points, start: seq<Byte>)
    ensures At(s, INITIAL_N, 0, 0, INITIAL_BIAS, |Basic(s)|, true, start, start)
    ensures Written(s, INITIAL_N, 0) == Basic(s)
  {
    BasicAreDone(s, INITIAL_N, 0, |s|);
    assert s[..|s|] == s;
    var w := Written(s, INITIAL_N, 0);
    IndexZero(w);
    BasicTop(w);
  }

  /** The guard of the source before a pass. */
  method AddRounds(d: int32, m: uint32, n: uint32, h: nat) returns (ok: bool, d': int32)
    requires d >= 0 && m >= n
    ensures ok <==> d as int + (m - n) as int * (h + 1) <= INT32_MAX
    ensures ok ==> d' as int == d as int + (m - n) as int * (h + 1) && d' >= d
  {
    Scaled((m - n) as int, h + 1, INT32_MAX - d as int);
    if (m - n) as int > (0x7fffffff - d) as int / (h + 1) { return false, d; }
    return true, d + ((m - n) as int * (h + 1)) as int32;
  }

  lemma AtSkipped(s: Points, n: nat, m: nat, d: int, bias: int, h: nat, first: bool, start: seq<Byte>, out: seq<Byte>)
    requires n <= m && forall t :: 0 <= t < |s| ==> !(n <= s[t] < m)
    requires At(s, n, 0, d, bias, h, first, start, out)
    ensures At(s, m, 0, d + (m - n) * (h + 1), bias, h, first, start, out)
  {
    hide Written, Running;
    Skip(s, n, m);
    RunningSkip(s, n, m);
  }

  lemma AtNextPass(s: Points, n: nat, d: int, bias: int, h: nat, first: bool, start: seq<Byte>, out: seq<Byte>)
    requires At(s, n, |s|, d, bias, h, first, start, out)
    ensures At(s, n + 1, 0, d + 1, bias, h, first, start, out)
  {
    hide Written, Running;
    NextPass(s, n);
    RunningNextPass(s, n);
  }

  lemma MissingPoint(s: Points, n: nat)
    requires |Written(s, n, 0)| < |s|
    ensures exists j :: 0 <= j < |s| && s[j] >= n
  {
    DoneAll(s, n, 0, |s|);
  }

  lemma AllWritten(s: Points, n: nat, d: int, bias: int, h: nat, first: bool, start: seq<Byte>, out: seq<Byte>)
    requires At(s, n, 0, d, bias, h, first, start, out) && h == |s|
    ensures EncodeTail(s).Some? && out == start + EncodeTail(s).value
  {
    DoneAll(s, n, 0, |s|);
    assert s[..|s|] == s;
  }

  /** The guard before a pass rejects only strings without an encoding. */
  lemma RoundsOverflow(s: Points, n: nat, m: nat, d: int, h: nat)
    requires n >= INITIAL_N && h == |Written(s, n, 0)| < |s| && d == Running(s, n, 0)
    requires n <= m && forall t :: 0 <= t < |s| ==> !(n <= s[t] < m)
    requires d + (m - n) * (h + 1) > INT32_MAX
    ensures EncodeTail(s) == None
  {
    hide Written, Running;
    Skip(s, n, m);
    RunningSkip(s, n, m);
    OverflowIsFinal(s, m, 0);
  }

  /** Appends the encoding of `s` to `prefix`, as `utf32_to_punycode` appends to its output. */
  method Utf32ToPunycode(s: Points, prefix: seq<Byte>) returns (ok: bool, out: seq<Byte>)
    requires |s| < INT32_MAX
    ensures ok <==> Encode(s).Some?
    ensures ok ==> out == prefix + Encode(s).value
  {
    hide At, AllScalar, Basic, EncodeTail, Written, Running;
    var n: uint32 := 128;
    var d: int32 := 0;
    var bias: int32 := 72;
    var h;
    ok, h, out := CopyBasicPoints(s, prefix);
    if !ok { return false, out; }
    var b := h;
    if b > 0 { out := out + [DELIMITER]; }
    ghost var start := out;
    StartAt(s, start);
    while h < |s|
      invariant 0x80 <= n as int <= 0x110000 && d >= 0 && 0 <= bias as int <= MAX_BIAS && b <= h <= |s|
      invariant At(s, n as int, 0, d as int, bias as int, h, h == b, start, out)
      decreases |s| - h
    {
      AtMeans(s, n as int, 0, d as int, bias as int, h, h == b, start, out);
      MissingPoint(s, n as int);
      var m := NextPoint(s, n);
      ghost var d0 := d;
      ok, d := AddRounds(d, m, n, h);
      if !ok {
        RoundsOverflow(s, n as int, m as int, d0 as int, h);
        return false, out;
      }
      AtSkipped(s, n as int, m as int, d0 as int, bias as int, h, h == b, start, out);
      n := m;
      ok, d, bias, h, out := EncodePass(s, n, d, bias, h, b, start, out);
      if !ok { return false, out; }
      AtNextPass(s, n as int, d as int, bias as int, h, h == b, start, out);
      d := d + 1;
      n := n + 1;
    }
    AllWritten(s, n as int, d as int, bias as int, h, h == b, start, out);
    Associate(prefix, if b > 0 then Basic(s) + [DELIMITER] else Basic(s), EncodeTail(s).value);
    return true, out;
  }
}
