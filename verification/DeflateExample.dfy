/** The fixed codes as section 3.2.6 of RFC 1951 prints them, and a dynamic block given as bytes. */
module DeflateExample {
  import opened Basics
  import opened Bits
  import opened HuffmanCodes
  import opened Deflate
  import opened DeflateEncoding
  import opened DeflateStream

  // ---------------------------------------------------------------- counting codes

  /** No symbol from `a` to `b` has length `l`. */
  lemma {:induction false} NoneOf(lens: Lengths, l: nat, a: nat, b: nat)
    requires a <= b <= |lens| && forall i :: a <= i < b ==> lens[i] != l
    ensures |SymbolsBelow(lens, l, b)| == |SymbolsBelow(lens, l, a)|
    decreases b
  {
    if a < b { NoneOf(lens, l, a, b - 1); }
  }

  /** All of them have. */
  lemma {:induction false} AllOf(lens: Lengths, l: nat, a: nat, b: nat)
    requires a <= b <= |lens| && forall i :: a <= i < b ==> lens[i] == l
    ensures |SymbolsBelow(lens, l, b)| == |SymbolsBelow(lens, l, a)| + (b - a)
    decreases b
  {
    if a < b { AllOf(lens, l, a, b - 1); }
  }

  lemma NoneAtAll(lens: Lengths, l: nat)
    requires l == 0 || forall i :: 0 <= i < |lens| ==> lens[i] != l
    ensures Count(lens, l) == 0
  {
    if l > 0 { NoneOf(lens, l, 0, |lens|); }
  }

  lemma NextFirst(lens: Lengths, l: nat)
    ensures FirstCode(lens, 0) == 0 && FirstCode(lens, l + 1) == 2 * (FirstCode(lens, l) + Count(lens, l))
  {}

  // ---------------------------------------------------------------- the fixed codes

  lemma FixedCounts()
    ensures var f := FixedLit();
            && Count(f, 7) == 24 && Count(f, 8) == 152
            && forall s :: 0 <= s < 288 ==>
                 |SymbolsBelow(f, f[s], s)| == if s < 144 then s else if s < 256 then s - 144
                                               else if s < 280 then s - 256 else s - 136
  {
    FixedRuns();
    var f := FixedLit();
    hide FixedLit, SymbolsBelow;
    NothingBelow(f);
    NoneOf(f, 7, 0, 256);
    AllOf(f, 7, 256, 280);
    NoneOf(f, 7, 280, 288);
    AllOf(f, 8, 0, 144);
    NoneOf(f, 8, 144, 280);
    AllOf(f, 8, 280, 288);
    NoneOf(f, 9, 0, 144);
    forall s | 0 <= s < 288
      ensures |SymbolsBelow(f, f[s], s)| == if s < 144 then s else if s < 256 then s - 144
                                            else if s < 280 then s - 256 else s - 136
    {
      if s < 144 { AllOf(f, 8, 0, s); }
      else if s < 256 { AllOf(f, 9, 144, s); }
      else if s < 280 { AllOf(f, 7, 256, s); }
      else { AllOf(f, 8, 280, s); }
    }
  }

  lemma NothingBelow(lens: Lengths)
    ensures forall l :: |SymbolsBelow(lens, l, 0)| == 0
  {}

  /** The table of section 3.2.6: codes 00110000 to 10111111, 110010000 to 111111111, 0000000 to
      0010111, and 11000000 to 11000111. */
  lemma FixedCodes(s: nat)
    requires s < 288
    ensures |FixedLit()| == 288
    ensures Code(FixedLit(), s) == if s < 144 then 0x30 + s else if s < 256 then 0x190 + (s - 144)
                                   else if s < 280 then s - 256 else 0xC0 + (s - 280)
    ensures FixedLit()[s] == if s < 144 then 8 else if s < 256 then 9 else if s < 280 then 7 else 8
  {
    FixedRuns();
    FixedCounts();
    var f := FixedLit();
    hide FixedLit, SymbolsBelow, FirstCode, Count;
    NextFirst(f, 0);
    for l := 0 to 7
      invariant FirstCode(f, l) == 0
    {
      NextFirst(f, l);
      NoneAtAll(f, l);
    }
    NextFirst(f, 7);
    NextFirst(f, 8);
  }

  /** Distance codes are 5-bit codes for themselves. */
  lemma FixedDistanceCodes(s: nat)
    requires s < 32
    ensures |FixedDist()| == 32 && FixedDist()[s] == 5 && Code(FixedDist(), s) == s
  {
    FixedRuns();
    var f := FixedDist();
    hide FixedDist, SymbolsBelow, FirstCode, Count;
    NothingBelow(f);
    AllOf(f, 5, 0, s);
    NextFirst(f, 0);
    for l := 0 to 5
      invariant FirstCode(f, l) == 0
    {
      NextFirst(f, l);
      NoneAtAll(f, l);
    }
  }

  // ---------------------------------------------------------------- a dynamic block

  function Stream(): (data: Bytes)
    ensures |data| == 14
  {
    [0x0D, 0xC0, 0x81, 0x00, 0x00, 0x00, 0x00, 0x80, 0x20, 0xD6, 0xFC, 0x25, 0x3E, 0x0B]
  }

  /** Symbols 97, 256 and 257 have codes 0, 10 and 11. */
  function Lit(): (r: Lengths)
    ensures |r| == 258
    ensures forall i :: 0 <= i < 258 ==> r[i] == if i == 97 then 1 else if i >= 256 then 2 else 0
  {
    Run(0, 97) + [1] + Run(0, 158) + [2, 2]
  }

  /** Symbols 18, 1 and 2 have codes 0, 10 and 11. */
  function Cl(): (r: Lengths)
    ensures |r| == 19
    ensures forall i :: 0 <= i < 19 ==> r[i] == if i == 18 then 1 else if i == 1 || i == 2 then 2 else 0
  {
    [0, 2, 2] + Run(0, 15) + [1]
  }

  function Ops(): (r: seq<LengthOp>)
    ensures |r| == 7
  {
    [ManyZeros(86), OneLength(1), ManyZeros(127), ManyZeros(9), OneLength(2), OneLength(2), OneLength(1)]
  }

  function Example(): Header {
    Header(Lit(), [1], Sent(258, 1, Cl(), 18, Ops()))
  }

  function Tokens(): (ts: seq<Token>)
    ensures |ts| == 2
  {
    [Literal(97), Match(0, 0, 0, 0)]
  }

  lemma ExampleKraft()
    ensures Kraft(Lit()) && Kraft(Cl()) && Kraft([1])
  {
    LitSum();
    ClKraft();
    OneSum();
    LargePowers();
    hide Lit, Cl, KraftSumBelow, Power2;
  }

  lemma LitSum()
    ensures KraftSumBelow(Lit(), 258) == 0x8000
  {
    LargePowers();
    HalfPower();
    hide Lit, KraftSumBelow, Power2;
    NothingSummed(Lit());
    ZerosAdd(Lit(), 0, 97);
    OneLengthAdds(Lit(), 97);
    ZerosAdd(Lit(), 98, 256);
    OneLengthAdds(Lit(), 256);
    OneLengthAdds(Lit(), 257);
  }

  lemma ClKraft()
    ensures KraftSumBelow(Cl(), 19) == 0x8000
  {
    LargePowers();
    HalfPower();
    hide Cl, KraftSumBelow, Power2;
    NothingSummed(Cl());
    OneLengthAdds(Cl(), 0);
    OneLengthAdds(Cl(), 1);
    OneLengthAdds(Cl(), 2);
    ZerosAdd(Cl(), 3, 18);
    OneLengthAdds(Cl(), 18);
  }

  lemma OneSum()
    ensures KraftSumBelow([1], 1) == 0x4000
  {
    HalfPower();
    hide KraftSumBelow, Power2;
    NothingSummed([1]);
    OneLengthAdds([1], 0);
  }

  lemma HalfPower()
    ensures Power2(14) == 0x4000 && Power2(13) == 0x2000
  {
    SmallPowers();
  }

  lemma {:induction false} ZerosAdd(lens: Lengths, a: nat, b: nat)
    requires a <= b <= |lens| && forall i :: a <= i < b ==> lens[i] == 0
    ensures KraftSumBelow(lens, b) == KraftSumBelow(lens, a)
    decreases b
  {
    if a < b { ZerosAdd(lens, a, b - 1); }
  }

  lemma OneLengthAdds(lens: Lengths, i: nat)
    requires i < |lens| && lens[i] <= MAXBITS
    ensures KraftSumBelow(lens, i + 1) == KraftSumBelow(lens, i) + if lens[i] > 0 then Power2(15 - lens[i]) else 0
  {}

  /** Codes of a table with one code of length 1 and two of length 2. */
  lemma ThreeCodes(lens: Lengths, a: nat, b: nat, c: nat)
    requires a < |lens| && b < c < |lens| && a != b && a != c
    requires forall i :: 0 <= i < |lens| ==> lens[i] == if i == a then 1 else if i == b || i == c then 2 else 0
    ensures Code(lens, a) == 0 && Code(lens, b) == 2 && Code(lens, c) == 3
  {
    hide SymbolsBelow, FirstCode, Count;
    NothingBelow(lens);
    NoneOf(lens, 1, 0, a);
    AllOf(lens, 1, a, a + 1);
    NoneOf(lens, 1, a + 1, |lens|);
    NoneOf(lens, 2, 0, b);
    AllOf(lens, 2, b, b + 1);
    NoneOf(lens, 2, b + 1, c);
    CountIs(lens, 1);
    CountIs(lens, 0);
    NextFirst(lens, 0);
    NextFirst(lens, 1);
  }

  lemma CountIs(lens: Lengths, l: nat)
    ensures Count(lens, l) == if l == 0 then 0 else |SymbolsBelow(lens, l, |lens|)|
  {}

  // Bit strings by their values.

  lemma SameValue(s: BitString, t: BitString)
    requires |s| == |t| && Value(s) == Value(t)
    ensures s == t
  {
    LowBitsOfValue(s);
    LowBitsOfValue(t);
  }

  /** The value of `n` low bits followed by `rest`. */
  lemma ValueThen(v: nat, n: nat, rest: BitString)
    requires v < Power2(n)
    ensures Value(LowBits(v, n) + rest) == v + Power2(n) * Value(rest)
    ensures |LowBits(v, n) + rest| == n + |rest|
  {
    ValueJoin(LowBits(v, n), rest);
    ValueOfLowBits(v, n);
  }

  /** Codes 0, 10 and 11 as bits. */
  lemma CodeText(lens: Lengths, s: nat)
    requires s < |lens|
    requires if lens[s] == 1 then Code(lens, s) == 0 else lens[s] == 2 && 2 <= Code(lens, s) <= 3
    ensures CodeBits(lens, s) == if lens[s] == 1 then [false] else [true, Code(lens, s) == 3]
  {
    hide Code;
    assert HighBits(1, 1) == [true];
  }

  lemma SmallValues()
    ensures Value([]) == 0 && Value([false]) == 0 && Value([true, false]) == 1 && Value([true, true]) == 3
  {
    assert [true, false][1..] == [false] && [true, true][1..] == [true] && [false][1..] == [] && [true][1..] == [];
    assert Value([true]) == 1;
  }

  /** The value of a code followed by `rest`. */
  lemma CodeValue(lens: Lengths, s: nat, rest: BitString)
    requires s < |lens|
    requires if lens[s] == 1 then Code(lens, s) == 0 else lens[s] == 2 && 2 <= Code(lens, s) <= 3
    ensures Value(CodeBits(lens, s) + rest) == if lens[s] == 1 then 2 * Value(rest)
                                               else if Code(lens, s) == 2 then 1 + 4 * Value(rest)
                                               else 3 + 4 * Value(rest)
    ensures |CodeBits(lens, s) + rest| == lens[s] + |rest|
  {
    CodeText(lens, s);
    SmallValues();
    SmallPowers();
    hide Code, CodeBits, Value, Power2;
    ValueJoin(CodeBits(lens, s), rest);
  }

  lemma ClCodes()
    ensures Code(Cl(), 18) == 0 && Code(Cl(), 1) == 2 && Code(Cl(), 2) == 3
  {
    hide Code, Cl;
    ThreeCodes(Cl(), 18, 1, 2);
  }

  lemma LitCodes()
    ensures Code(Lit(), 97) == 0 && Code(Lit(), 256) == 2 && Code(Lit(), 257) == 3 && Code([1], 0) == 0
  {
    var one: Lengths := [1];
    NothingBelow(one);
    hide Lit, FirstCode, SymbolsBelow;
    NextFirst(one, 0);
    CountIs(one, 0);
    assert Code(Lit(), 97) == 0 && Code(Lit(), 256) == 2 && Code(Lit(), 257) == 3 by {
      hide Code;
      ThreeCodes(Lit(), 97, 256, 257);
    }
  }

  lemma ExampleOps()
    ensures OpsOk(Cl(), Ops()) && Transmits(Cl(), 259, [], Ops())
    ensures Spelled(Cl(), 259, [], Ops()) == Lit() + [1]
  {
    var s := Ops();
    var a := [] + Run(0, 97);
    var b := a + [1];
    var c := b + Run(0, 138);
    var d := c + Run(0, 20);
    var e := d + [2];
    var f := e + [2];
    var g := f + [1];
    assert |a| == 97 && |b| == 98 && |c| == 236 && |d| == 256 && |e| == 257 && |f| == 258 && |g| == 259;
    assert g == Lit() + [1];
    hide Run, Lit;
    SpelledNone(Cl(), 259, g);
    SpelledStep(Cl(), 259, f, s, 6);
    SpelledStep(Cl(), 259, e, s, 5);
    SpelledStep(Cl(), 259, d, s, 4);
    SpelledStep(Cl(), 259, c, s, 3);
    SpelledStep(Cl(), 259, b, s, 2);
    SpelledStep(Cl(), 259, a, s, 1);
    SpelledStep(Cl(), 259, [], s, 0);
    assert s[0..] == s && s[7..] == [];
    TransmitsOk(Cl(), 259, [], s);
  }

  lemma SpelledNone(cl: Lengths, n: nat, lens: Lengths)
    requires |lens| >= n
    ensures Transmits(cl, n, lens, []) && Spelled(cl, n, lens, []) == lens
  {}

  lemma SpelledStep(cl: Lengths, n: nat, lens: Lengths, ops: seq<LengthOp>, k: nat)
    requires |lens| < n && k < |ops| && OpOk(cl, ops[k]) && !ops[k].Repeat?
    requires Transmits(cl, n, lens + OpLengths(lens, ops[k]), ops[k + 1..])
    ensures Transmits(cl, n, lens, ops[k..])
    ensures Spelled(cl, n, lens, ops[k..]) == Spelled(cl, n, lens + OpLengths(lens, ops[k]), ops[k + 1..])
  {
    hide OpLengths, OpOk;
    assert ops[k..][0] == ops[k] && ops[k..][1..] == ops[k + 1..];
  }

  lemma ExampleSent()
    ensures SentOk(Example().sent) && HeaderShape(Example())
    ensures Kraft(Example().sent.cl) && Kraft(Example().lit) && Kraft(Example().dist)
  {
    ExampleOps();
    ExampleKraft();
    hide Transmits, Spelled, Kraft;
    forall s | 0 <= s < 19 ensures Cl()[s] < 8 {}
    forall i | 18 <= i < 19 ensures Cl()[SymbolAtPlace(i)] == 0 {}
    hide Cl, Lit, Ops;
  }

  /** The code length at place `i`, in front of the others, whose value is `w`. */
  lemma ClStep(i: nat, v: nat, w: nat)
    requires i < 18 && v == if i == 2 then 1 else if i == 15 || i == 17 then 2 else 0
    requires |ClBits(Cl(), i + 1, 18)| == 3 * (17 - i) && Value(ClBits(Cl(), i + 1, 18)) == w
    ensures |ClBits(Cl(), i, 18)| == 3 * (18 - i) && Value(ClBits(Cl(), i, 18)) == v + 8 * w
  {
    assert Cl()[SymbolAtPlace(i)] == v;
    hide LowBits, Value, Cl;
    SmallPowers();
    ValueThen(v, 3, ClBits(Cl(), i + 1, 18));
  }

  /** The 18 code lengths of the code length code: zero but for symbols 18, 2 and 1. */
  lemma ClSum()
    ensures |ClBits(Cl(), 0, 18)| == 54 && Value(ClBits(Cl(), 0, 18)) == 0x10_4000_0000_0040
  {
    NoClBits();
    hide ClBits, Value, Cl;
    ClStep(17, 2, 0);
    ClStep(16, 0, 2);
    ClStep(15, 2, 0x10);
    ClStep(14, 0, 0x82);
    ClStep(13, 0, 0x410);
    ClStep(12, 0, 0x2080);
    ClStep(11, 0, 0x10400);
    ClStep(10, 0, 0x82000);
    ClStep(9, 0, 0x410000);
    ClStep(8, 0, 0x2080000);
    ClStep(7, 0, 0x10400000);
    ClStep(6, 0, 0x82000000);
    ClStep(5, 0, 0x410000000);
    ClStep(4, 0, 0x2080000000);
    ClStep(3, 0, 0x10400000000);
    ClStep(2, 1, 0x82000000000);
    ClStep(1, 0, 0x410000000001);
    ClStep(0, 0, 0x2080000000008);
  }

  lemma NoClBits()
    ensures ClBits(Cl(), 18, 18) == [] && Value([]) == 0
  {}

  lemma NoValue()
    ensures Value([]) == 0
  {}

  /** The bits of the operations from `k` on: `n` bits of value `w`. */
  ghost predicate OpsSum(k: nat, w: nat, n: nat)
    requires k <= 7
  {
    OpsOk(Cl(), Ops()[k..]) && Value(OpsBits(Cl(), Ops()[k..])) == w && |OpsBits(Cl(), Ops()[k..])| == n
  }

  lemma ZerosStep(k: nat, v: nat, w: nat, n: nat)
    requires k < 7 && OpsSum(k + 1, w, n) && OpsOk(Cl(), Ops()[k..]) && Ops()[k] == ManyZeros(v) && v < 128
    ensures OpsSum(k, 2 * (v + 128 * w), n + 8)
  {
    hide LowBits, CodeBits, Value, Ops, Code, Cl;
    var op, more := ManyZeros(v), OpsBits(Cl(), Ops()[k + 1..]);
    assert Ops()[k..][0] == op && Ops()[k..][1..] == Ops()[k + 1..];
    ClCodes();
    SmallPowers();
    CodeValue(Cl(), 18, OpExtra(op) + more);
    ValueThen(v, 7, more);
  }

  lemma OneStep(k: nat, l: nat, w: nat, n: nat)
    requires k < 7 && OpsSum(k + 1, w, n) && OpsOk(Cl(), Ops()[k..]) && Ops()[k] == OneLength(l) && 1 <= l <= 2
    ensures OpsSum(k, 2 * l - 1 + 4 * w, n + 2)
  {
    hide LowBits, CodeBits, Value, Ops, Code, Cl;
    var op, more := OneLength(l), OpsBits(Cl(), Ops()[k + 1..]);
    assert Ops()[k..][0] == op && Ops()[k..][1..] == Ops()[k + 1..];
    ClCodes();
    CodeValue(Cl(), l, OpExtra(op) + more);
    assert OpExtra(op) + more == more;
  }

  lemma {:induction false} OpsOkRest(cl: Lengths, ops: seq<LengthOp>, k: nat)
    requires OpsOk(cl, ops) && k <= |ops|
    ensures OpsOk(cl, ops[k..])
  {
    if k == 0 {
      assert ops[0..] == ops;
    } else {
      OpsOkRest(cl, ops[1..], k - 1);
      assert ops[1..][k - 1..] == ops[k..];
    }
  }

  lemma OpsRest(k: nat)
    requires OpsOk(Cl(), Ops()) && k <= 7
    ensures OpsOk(Cl(), Ops()[k..])
  {
    hide OpsOk;
    OpsOkRest(Cl(), Ops(), k);
  }

  lemma OpsValue()
    requires OpsOk(Cl(), Ops())
    ensures |OpsBits(Cl(), Ops())| == 32 && Value(OpsBits(Cl(), Ops())) == 0x7C4B_F9AC
  {
    OpsAre();
    NoOps();
    OpsEnd();
    hide OpsSum, OpsBits, Value, OpsOk, Ops, Cl;
    OpsRest(6);
    OneStep(6, 1, 0, 0);
    OpsRest(5);
    OneStep(5, 2, 1, 2);
    OpsRest(4);
    OneStep(4, 2, 7, 4);
    OpsRest(3);
    ZerosStep(3, 9, 31, 6);
    OpsRest(2);
    ZerosStep(2, 127, 7954, 14);
    OpsRest(1);
    OneStep(1, 1, 2036478, 22);
    OpsRest(0);
    ZerosStep(0, 86, 8145913, 24);
    OpsAll();
  }

  lemma OpsEnd()
    ensures OpsSum(7, 0, 0)
  {
    assert Ops()[7..] == [];
  }

  lemma OpsAll()
    requires OpsSum(0, 0x7C4B_F9AC, 32)
    ensures OpsOk(Cl(), Ops()) && |OpsBits(Cl(), Ops())| == 32 && Value(OpsBits(Cl(), Ops())) == 0x7C4B_F9AC
  {
    hide OpsOk, OpsBits, Value;
    assert Ops()[0..] == Ops();
  }

  lemma OpsAre()
    ensures Ops()[0] == ManyZeros(86) && Ops()[1] == OneLength(1) && Ops()[2] == ManyZeros(127)
    ensures Ops()[3] == ManyZeros(9) && Ops()[4] == OneLength(2) && Ops()[5] == OneLength(2) && Ops()[6] == OneLength(1)
  {}

  lemma NoOps()
    ensures OpsBits(Cl(), []) == [] && Value([]) == 0
  {}

  lemma ExampleCodes()
    ensures CodeBits(Lit(), 97) == [false] && CodeBits([1], 0) == [false]
    ensures CodeBits(Lit(), 257) == [true, true] && CodeBits(Lit(), 256) == [true, false]
  {
    LitCodes();
    hide Lit, Code;
    CodeText(Lit(), 97);
    CodeText([1], 0);
    CodeText(Lit(), 256);
    CodeText(Lit(), 257);
  }

  /** The literal a, a match of length 3 and distance 1, the end of the block: 0, 11, 0, 10. */
  lemma ExampleTokens()
    ensures TokensOk(Lit(), [1], Tokens()) && Used(Lit(), 256) && InReach([], Tokens())
    ensures Expand([], Tokens()) == [97, 97, 97, 97]
    ensures TokensBits(Lit(), [1], Tokens()) == [false, true, true, false, true, false]
  {
    ExampleCodes();
    SmallPowers();
    ExampleMatch();
    hide Lit, CodeBits, InReach, Expand, Power2;
    var d: Lengths := [1];
    assert Tokens()[1..] == [Match(0, 0, 0, 0)] && Tokens()[1..][1..] == [];
    assert LowBits(0, 0) == [];
    assert TokensOk(Lit(), d, Tokens()) && TokensOk(Lit(), d, Tokens()[1..]) && TokensOk(Lit(), d, []);
    assert TokenBits(Lit(), d, Tokens()[1]) == [true, true, false];
    assert TokensBits(Lit(), d, []) == [true, false];
    assert TokensBits(Lit(), d, Tokens()[1..]) == [true, true, false] + [true, false];
    assert TokensBits(Lit(), d, Tokens()) == [false] + ([true, true, false] + [true, false]);
  }

  lemma ReachEnd(out: Bytes)
    ensures InReach(out, []) && Expand(out, []) == out
  {}

  lemma ReachLiteral(out: Bytes, b: Byte, more: seq<Token>)
    requires InReach(out + [b], more)
    ensures InReach(out, [Literal(b)] + more) && Expand(out, [Literal(b)] + more) == Expand(out + [b], more)
  {
    assert ([Literal(b)] + more)[1..] == more;
  }

  lemma ReachMatch(out: Bytes, t: Token, more: seq<Token>)
    requires t.Match? && t.lc <= 28 && t.dc <= 29 && MatchDistance(t) <= |out|
    requires InReach(CopyMatch(out, MatchDistance(t), MatchLength(t)), more)
    ensures InReach(out, [t] + more)
    ensures Expand(out, [t] + more) == Expand(CopyMatch(out, MatchDistance(t), MatchLength(t)), more)
  {
    hide CopyMatch;
    assert ([t] + more)[1..] == more;
  }

  lemma ExampleMatch()
    ensures InReach([], Tokens()) && Expand([], Tokens()) == [97, 97, 97, 97]
  {
    hide InReach, Expand, CopyMatch;
    var out: Bytes := [] + [97];
    var t := Match(0, 0, 0, 0);
    MatchOfThree(out, t);
    ReachEnd(CopyMatch(out, 1, 3));
    ReachMatch(out, t, []);
    assert [t] + [] == [t];
    ReachLiteral([], 97, [t]);
    assert Tokens() == [Literal(97)] + [t];
  }

  lemma CopyStep(out: Bytes, n: nat, b: Byte)
    requires out != [] && out[|out| - 1] == b && n > 0
    ensures CopyMatch(out, 1, n) == CopyMatch(out + [b], 1, n - 1) && CopyMatch(out, 1, 0) == out
  {}

  lemma MatchOfThree(out: Bytes, t: Token)
    requires out == [97] && t == Match(0, 0, 0, 0)
    ensures MatchDistance(t) == 1 && MatchLength(t) == 3 && CopyMatch(out, 1, 3) == [97, 97, 97, 97]
  {
    hide CopyMatch;
    var two: Bytes := out + [97];
    var three: Bytes := two + [97];
    CopyStep(out, 3, 97);
    CopyStep(two, 2, 97);
    CopyStep(three, 1, 97);
    CopyStep(three + [97], 1, 97);
  }

  function Block1(): Block { Dynamic(Example(), Tokens()) }

  lemma OneBlock(b: Block)
    requires BlockFits(3, [], b)
    ensures StreamFits(0, [], [b]) && ExpandBlocks(0, [], [b]) == ExpandBlock(3, [], b)
  {
    hide BlockShape, Proper;
  }

  lemma ExampleBlock()
    requires HeaderShape(Example()) && Used(Lit(), 256) && TokensOk(Lit(), [1], Tokens()) && InReach([], Tokens())
    requires Kraft(Example().sent.cl) && Kraft(Example().lit) && Kraft(Example().dist)
    ensures BlockFits(3, [], Block1()) && ExpandBlock(3, [], Block1()) == Expand([], Tokens())
  {
    hide HeaderShape, Kraft, TokensOk, InReach, Expand, Lit, Ops, Cl, Tokens;
  }

  lemma ExampleFits()
    ensures BlockFits(3, [], Block1()) && StreamFits(0, [], [Block1()])
    ensures ExpandBlocks(0, [], [Block1()]) == [97, 97, 97, 97]
  {
    ExampleSent();
    ExampleTokens();
    hide HeaderShape, Kraft, TokensOk, InReach, Expand, Lit, Ops, Cl, Tokens, StreamFits, ExpandBlocks;
    ExampleBlock();
    OneBlock(Block1());
  }

  lemma HeaderValue()
    requires SentOk(Example().sent)
    ensures |SentBits(Example().sent)| == 100
    ensures Value(SentBits(Example().sent))
         == 1 + 32 * (32 * (14 + 16 * (0x10_4000_0000_0040 + 0x40_0000_0000_0000 * 0x7C4B_F9AC)))
  {
    ExampleOps();
    SmallPowers();
    ClSum();
    OpsValue();
    hide LowBits, Value, ClBits, OpsBits, Transmits, Spelled, Kraft, Cl, Ops;
    var cl, ops := ClBits(Cl(), 0, 18), OpsBits(Cl(), Ops());
    ValueJoin(cl, ops);
    PowerFor54();
    ValueThen(14, 4, cl + ops);
    ValueThen(0, 5, LowBits(14, 4) + (cl + ops));
    ValueThen(1, 5, LowBits(0, 5) + (LowBits(14, 4) + (cl + ops)));
  }

  lemma PowerFor54()
    ensures Power2(54) == 0x40_0000_0000_0000 && Power2(100) == 0x10_0000_0000_0000_0000_0000_0000
  {
    SmallPowers();
    hide Power2;
    PowerSplit(13, 13);
    PowerSplit(26, 26);
    PowerSplit(52, 2);
    PowerSplit(26, 20);
    PowerSplit(10, 10);
    PowerSplit(54, 46);
  }

  lemma TokenValue()
    ensures Value([false, true, true, false, true, false]) == 22 && Value([false, false, false]) == 0
  {
    var a: BitString := [false, true, true, false, true, false];
    assert a[1..] == [true, true, false, true, false] && a[1..][1..] == [true, false, true, false];
    assert a[1..][1..][1..] == [false, true, false] && a[1..][1..][1..][1..] == [true, false];
    assert [true, false][1..] == [false] && [false][1..] == [];
    assert Value([true, false]) == 1;
    assert Value([false, true, false]) == 2;
    assert Value([true, false, true, false]) == 5;
    assert Value([true, true, false, true, false]) == 11;
    var p: BitString := [false, false, false];
    assert p[1..] == [false, false] && p[1..][1..] == [false];
    assert Value([false, false]) == 0;
  }

  lemma BodyIs(head: BitString, tokens: BitString)
    requires SentOk(Example().sent) && BlockFits(3, [], Block1()) && StreamFits(0, [], [Block1()])
    requires head == SentBits(Example().sent)
    requires TokensOk(Lit(), [1], Tokens()) && Used(Lit(), 256) && tokens == TokensBits(Lit(), [1], Tokens())
    ensures BodyBits(3, [], Block1()) == head + tokens
    ensures StreamBits(0, [], [Block1()]) == LowBits(1, 1) + (LowBits(2, 2) + (head + tokens))
  {
    hide SentBits, TokensBits, LowBits, SentOk, TokensOk, InReach, Lit;
  }

  lemma ByteThen(b: Byte, rest: Bytes)
    ensures Value(BitsOf([b] + rest)) == b + 256 * Value(BitsOf(rest)) && |BitsOf([b] + rest)| == 8 + |BitsOf(rest)|
  {
    assert ([b] + rest)[0] == b && ([b] + rest)[1..] == rest;
    SmallPowers();
    hide LowBits, Value;
    ValueThen(b, 8, BitsOf(rest));
  }

  /** The value of the bytes from place `k` on, least significant first. */
  function Number(data: Bytes, k: nat): nat
    requires k <= |data|
    decreases |data| - k
  {
    if k == |data| then 0 else data[k] + 256 * Number(data, k + 1)
  }

  lemma {:induction false} BytesValue(data: Bytes, k: nat)
    requires k <= |data|
    ensures Value(BitsOf(data[k..])) == Number(data, k) && |BitsOf(data[k..])| == 8 * (|data| - k)
    decreases |data| - k
  {
    if k == |data| {
      NoValue();
    } else {
      hide BitsOf, Value;
      BytesValue(data, k + 1);
      ByteThen(data[k], data[k + 1..]);
      assert data[k..] == [data[k]] + data[k + 1..];
    }
  }

  lemma NumberFrom(data: Bytes, k: nat, b: Byte, w: nat)
    requires k < |data| && data[k] == b && Number(data, k + 1) == w
    ensures Number(data, k) == b + 256 * w
  {}

  lemma StreamBytes(data: Bytes)
    requires data == Stream()
    ensures data[0] == 0x0D && data[1] == 0xC0 && data[2] == 0x81 && data[3] == 0 && data[4] == 0
    ensures data[5] == 0 && data[6] == 0 && data[7] == 0x80 && data[8] == 0x20 && data[9] == 0xD6
    ensures data[10] == 0xFC && data[11] == 0x25 && data[12] == 0x3E && data[13] == 0x0B
  {}

  lemma StreamNumber()
    ensures Number(Stream(), 0) == 0x0B3E_25FC_D620_8000_0000_0081_C00D
  {
    var data := Stream();
    StreamBytes(data);
    NoNumber(data);
    hide Number, Stream;
    NumberFrom(data, 13, 0x0B, 0);
    NumberFrom(data, 12, 0x3E, 0x0B);
    NumberFrom(data, 11, 0x25, 0x0B3E);
    NumberFrom(data, 10, 0xFC, 0x0B3E_25);
    NumberFrom(data, 9, 0xD6, 0x0B3E_25FC);
    NumberFrom(data, 8, 0x20, 0x0B3E_25FC_D6);
    NumberFrom(data, 7, 0x80, 0x0B3E_25FC_D620);
    NumberFrom(data, 6, 0, 0x0B3E_25FC_D620_80);
    NumberFrom(data, 5, 0, 0x0B3E_25FC_D620_8000);
    NumberFrom(data, 4, 0, 0x0B3E_25FC_D620_8000_00);
    NumberFrom(data, 3, 0, 0x0B3E_25FC_D620_8000_0000);
    NumberFrom(data, 2, 0x81, 0x0B3E_25FC_D620_8000_0000_00);
    NumberFrom(data, 1, 0xC0, 0x0B3E_25FC_D620_8000_0000_0081);
    NumberFrom(data, 0, 0x0D, 0x0B3E_25FC_D620_8000_0000_0081_C0);
  }

  lemma NoNumber(data: Bytes)
    ensures Number(data, |data|) == 0
  {}

  lemma StreamValue()
    requires StreamFits(0, [], [Block1()]) && SentOk(Example().sent)
    ensures var w := StreamBits(0, [], [Block1()]) + [false, false, false];
            |w| == 112 && w == BitsOf(Stream())
  {
    ExampleTokens();
    HeaderValue();
    PowerFor54();
    SmallPowers();
    var head, tokens := SentBits(Example().sent), TokensBits(Lit(), [1], Tokens());
    TokenValue();
    hide LowBits, SentBits, TokensBits, Value, Lit, Cl, Ops, BlockFits, Power2, Tokens;
    var body := head + tokens;
    BodyIs(head, tokens);
    ValueJoin(head, tokens);
    ValueThen(2, 2, body);
    ValueThen(1, 1, LowBits(2, 2) + body);
    var s := StreamBits(0, [], [Block1()]);
    assert s == LowBits(1, 1) + (LowBits(2, 2) + body);
    SameAsStream(s);
  }

  /** 109 bits with the right value and three zeros are the bits of the stream. */
  lemma SameAsStream(s: BitString)
    requires |s| == 109 && Value(s) == 0x0B3E_25FC_D620_8000_0000_0081_C00D
    ensures s + [false, false, false] == BitsOf(Stream())
  {
    TokenValue();
    StreamNumber();
    BytesValue(Stream(), 0);
    assert Stream()[0..] == Stream();
    hide Value, BitsOf, Stream, Number, Power2;
    var pad := [false, false, false];
    ValueJoin(s, pad);
    SameValue(s + pad, BitsOf(Stream()));
  }

  lemma OneBlockInflates(b: Block, cap: nat, src: Bytes, tail: BitString)
    requires StreamFits(0, [], [b]) && |ExpandBlocks(0, [], [b])| <= cap
    requires StreamBits(0, [], [b]) + tail == BitsOf(src)
    ensures InflateFrom([], cap, BitsOf(src)) == Done(ExpandBlocks(0, [], [b]))
  {
    hide StreamShape, StreamBits, ExpandBlocks, InflateFrom, BitsOf;
    InflateStream(0, [], [b], cap, tail);
  }

  /** The 14 bytes of a dynamic block, written out, inflate to "aaaa". */
  lemma DynamicExample(cap: nat)
    requires cap >= 4
    ensures InflateFrom([], cap, BitsOf(Stream())) == Done([97, 97, 97, 97])
  {
    hide StreamShape, StreamBits, ExpandBlocks, InflateFrom, BitsOf, Block1, BlockFits, Example, Tokens, Stream;
    ExampleSent();
    ExampleFits();
    StreamValue();
    OneBlockInflates(Block1(), cap, Stream(), [false, false, false]);
  }
}
