/** Canonical Huffman codes (section 3.2.2 of RFC 1951), and the decoder that walks them one bit
    at a time. */
module HuffmanCodes {
  import opened Basics
  import opened Bits

  const MAXBITS := 15

  /** Code lengths of the symbols 0, 1, 2, ...; length 0 means the symbol is not used. */
  type Lengths = seq<nat>

  predicate InRange(lens: Lengths) {
    forall s :: 0 <= s < |lens| ==> lens[s] <= MAXBITS
  }

  // ---------------------------------------------------------------- code assignment

  /** The symbols below `n` with code length `l`, in order. */
  function SymbolsBelow(lens: Lengths, l: nat, n: nat): (r: seq<nat>)
    requires n <= |lens|
    ensures |r| <= n
  {
    if n == 0 then []
    else SymbolsBelow(lens, l, n - 1) + if lens[n - 1] == l then [n - 1] else []
  }

  function Symbols(lens: Lengths, l: nat): seq<nat> {
    SymbolsBelow(lens, l, |lens|)
  }

  /** How many codes have length `l`; length 0 counts none. */
  function Count(lens: Lengths, l: nat): nat {
    if l == 0 then 0 else |Symbols(lens, l)|
  }

  /** The smallest code of length `l`. */
  function FirstCode(lens: Lengths, l: nat): nat {
    if l == 0 then 0 else 2 * (FirstCode(lens, l - 1) + Count(lens, l - 1))
  }

  /** The code of a symbol: consecutive values in symbol order within each length. */
  function Code(lens: Lengths, sym: nat): nat
    requires sym < |lens|
  {
    FirstCode(lens, lens[sym]) + |SymbolsBelow(lens, lens[sym], sym)|
  }

  /** The code as it stands in the stream, most significant bit first. */
  function CodeBits(lens: Lengths, sym: nat): (s: BitString)
    requires sym < |lens|
    ensures |s| == lens[sym]
  {
    HighBits(Code(lens, sym), lens[sym])
  }

  lemma {:induction false} SymbolRank(lens: Lengths, l: nat, sym: nat, n: nat)
    requires sym < n <= |lens| && lens[sym] == l
    ensures |SymbolsBelow(lens, l, sym)| < |SymbolsBelow(lens, l, n)|
    ensures SymbolsBelow(lens, l, n)[|SymbolsBelow(lens, l, sym)|] == sym
  {
    if sym < n - 1 { SymbolRank(lens, l, sym, n - 1); }
  }

  lemma {:induction false} RankSymbol(lens: Lengths, l: nat, r: nat, n: nat)
    requires n <= |lens| && r < |SymbolsBelow(lens, l, n)|
    ensures var sym := SymbolsBelow(lens, l, n)[r];
            sym < n && lens[sym] == l && |SymbolsBelow(lens, l, sym)| == r
  {
    if r < |SymbolsBelow(lens, l, n - 1)| { RankSymbol(lens, l, r, n - 1); }
  }

  // ---------------------------------------------------------------- Kraft's inequality

  /** Kraft's sum in units of 2^-15: each used symbol takes 2^(15 - length). */
  function KraftSum(lens: Lengths): nat {
    KraftSumBelow(lens, |lens|)
  }

  function KraftSumBelow(lens: Lengths, n: nat): nat
    requires n <= |lens|
  {
    if n == 0 then 0
    else KraftSumBelow(lens, n - 1) + if 0 < lens[n - 1] <= MAXBITS then Power2(MAXBITS - lens[n - 1]) else 0
  }

  predicate Kraft(lens: Lengths) {
    InRange(lens) && KraftSum(lens) <= Power2(MAXBITS)
  }

  /** What the codes of lengths 1 to `l` of the symbols below `n` take. */
  function Taken(lens: Lengths, l: nat, n: nat): nat
    requires l <= MAXBITS && n <= |lens|
  {
    if l == 0 then 0 else Taken(lens, l - 1, n) + |SymbolsBelow(lens, l, n)| * Power2(MAXBITS - l)
  }

  /** Adding a symbol adds its share. */
  lemma {:induction false} TakenMore(lens: Lengths, l: nat, n: nat)
    requires l <= MAXBITS && 0 < n <= |lens|
    ensures Taken(lens, l, n) == Taken(lens, l, n - 1) +
              if 0 < lens[n - 1] <= l then Power2(MAXBITS - lens[n - 1]) else 0
  {
    if l > 0 {
      TakenMore(lens, l - 1, n);
      hide Power2;
      Doubled(0, |SymbolsBelow(lens, l, n - 1)|, Power2(MAXBITS - l));
    }
  }

  lemma {:induction false} TakenAll(lens: Lengths, n: nat)
    requires n <= |lens|
    ensures Taken(lens, MAXBITS, n) == KraftSumBelow(lens, n)
  {
    if n == 0 {
      TakenNone(lens, MAXBITS);
    } else {
      TakenAll(lens, n - 1);
      TakenMore(lens, MAXBITS, n);
    }
  }

  lemma {:induction false} TakenNone(lens: Lengths, l: nat)
    requires l <= MAXBITS
    ensures Taken(lens, l, 0) == 0
  {
    if l > 0 { TakenNone(lens, l - 1); }
  }

  /** The first code of a length, scaled to 15 bits, is what shorter codes take. */
  lemma {:induction false} FirstCodeTaken(lens: Lengths, l: nat)
    requires l <= MAXBITS
    ensures (FirstCode(lens, l) + Count(lens, l)) * Power2(MAXBITS - l) == Taken(lens, l, |lens|)
  {
    if l > 0 {
      FirstCodeTaken(lens, l - 1);
      var f, p := FirstCode(lens, l - 1) + Count(lens, l - 1), Power2(MAXBITS - l);
      assert Power2(MAXBITS - (l - 1)) == 2 * p;
      Doubled(f, Count(lens, l), p);
    } else {
      hide Power2;
      assert FirstCode(lens, 0) + Count(lens, 0) == 0;
    }
  }

  lemma Doubled(f: nat, c: nat, p: nat)
    ensures (2 * f + c) * p == f * (2 * p) + c * p
    ensures (c + 1) * p == c * p + p
  {
    assert (2 * f + c) * p == (2 * f) * p + c * p;
    assert (2 * f) * p == f * (2 * p);
  }

  lemma {:induction false} TakenMonotone(lens: Lengths, l: nat, m: nat)
    requires l <= m <= MAXBITS
    ensures Taken(lens, l, |lens|) <= Taken(lens, m, |lens|)
  {
    if l < m { TakenMonotone(lens, l, m - 1); }
  }

  lemma {:induction false} PowerSplit(a: nat, b: nat)
    ensures Power2(a) * Power2(b) == Power2(a + b)
  {
    if a > 0 {
      PowerSplit(a - 1, b);
      assert (2 * Power2(a - 1)) * Power2(b) == 2 * (Power2(a - 1) * Power2(b));
    }
  }

  /** Under Kraft's inequality the codes of each length fit that length. */
  lemma CodesFit(lens: Lengths, l: nat)
    requires Kraft(lens) && l <= MAXBITS
    ensures FirstCode(lens, l) + Count(lens, l) <= Power2(l)
  {
    hide Power2, FirstCode, Count, Taken, KraftSumBelow;
    var c, p := FirstCode(lens, l) + Count(lens, l), Power2(MAXBITS - l);
    FirstCodeTaken(lens, l);
    TakenMonotone(lens, l, MAXBITS);
    TakenAll(lens, |lens|);
    PowerSplit(l, MAXBITS - l);
    CancelFactor(c, Power2(l), p);
  }

  lemma CancelFactor(a: nat, b: nat, p: nat)
    requires p > 0 && a * p <= b * p
    ensures a <= b
  {
    Stretch(b, a, p);
  }

  lemma Stretch(b: nat, a: nat, p: nat)
    requires p > 0
    ensures b < a ==> b * p < a * p
  {
    if b < a {
      MulMonotone(b + 1, a, p, p);
      Doubled(0, b, p);
    }
  }

  // ---------------------------------------------------------------- decoding

  /** The largest code length in use. */
  function MaxBits(lens: Lengths): nat {
    MaxBitsBelow(lens, |lens|)
  }

  function MaxBitsBelow(lens: Lengths, n: nat): nat
    requires n <= |lens|
  {
    if n == 0 then 0
    else
      var m := MaxBitsBelow(lens, n - 1);
      if lens[n - 1] > m then lens[n - 1] else m
  }

  /** The decoder after `l` bits with running code `code`, no code matched so far. For any length
      table the running code is past all codes of the lengths read, so it never drops below the
      first code of the next length. */
  function Walk(lens: Lengths, code: nat, l: nat, bits: BitString): (r: Option<(nat, BitString)>)
    requires code >= FirstCode(lens, l) + Count(lens, l)
    ensures r.Some? ==> r.value.0 < |lens| && |r.value.1| < |bits|
    decreases |bits|
  {
    if l >= MaxBits(lens) || bits == [] then None
    else
      var code' := 2 * code + Bit(bits[0]);
      assert code' >= FirstCode(lens, l + 1);
      var index := code' - FirstCode(lens, l + 1);
      if index < Count(lens, l + 1) then
        RankSymbol(lens, l + 1, index, |lens|);
        Some((Symbols(lens, l + 1)[index], bits[1..]))
      else Walk(lens, code', l + 1, bits[1..])
  }

  /** Reads one symbol. */
  function ReadSymbol(lens: Lengths, bits: BitString): (r: Option<(nat, BitString)>)
    ensures r.Some? ==> r.value.0 < |lens| && |r.value.1| < |bits|
  {
    Walk(lens, 0, 0, bits)
  }

  /** `v` without its low `k` bits. */
  function Shift(v: nat, k: nat): nat {
    if k == 0 then v else Shift(v, k - 1) / 2
  }

  lemma {:induction false} ShiftHalf(v: nat, k: nat)
    ensures Shift(v / 2, k) == Shift(v, k + 1)
  {
    if k > 0 { ShiftHalf(v, k - 1); }
  }

  lemma {:induction false} ShiftAll(v: nat, k: nat)
    requires v < Power2(k)
    ensures Shift(v, k) == 0
  {
    if k > 0 {
      ShiftAll(v / 2, k - 1);
      ShiftHalf(v, k - 1);
    }
  }

  /** The first of the low `k` bits is the last bit of what lies above the other `k - 1`. */
  lemma {:induction false} HighBitsFirst(v: nat, k: nat)
    requires k > 0
    ensures HighBits(v, k) == [Shift(v, k - 1) % 2 == 1] + HighBits(v, k - 1)
  {
    if k > 1 {
      HighBitsFirst(v / 2, k - 1);
      ShiftHalf(v, k - 2);
      var b := [Shift(v, k - 1) % 2 == 1];
      assert HighBits(v, k) == (b + HighBits(v / 2, k - 2)) + [v % 2 == 1];
      Associate(b, HighBits(v / 2, k - 2), [v % 2 == 1]);
    }
  }

  lemma {:induction false} MaxBitsAtLeast(lens: Lengths, sym: nat, n: nat)
    requires sym < n <= |lens|
    ensures lens[sym] <= MaxBitsBelow(lens, n)
  {
    if sym < n - 1 { MaxBitsAtLeast(lens, sym, n - 1); }
  }

  /** A code that is at least the first of its length has only prefixes past all shorter codes. */
  lemma {:induction false} PrefixesAbove(lens: Lengths, v: nat, n: nat, k: nat)
    requires v >= FirstCode(lens, n) && 0 < k <= n
    ensures Shift(v, k) >= FirstCode(lens, n - k) + Count(lens, n - k)
  {
    if k > 1 { PrefixesAbove(lens, v, n, k - 1); }
  }

  lemma CodeRange(lens: Lengths, sym: nat)
    requires sym < |lens| && lens[sym] > 0
    ensures var n := lens[sym];
            && FirstCode(lens, n) <= Code(lens, sym) < FirstCode(lens, n) + Count(lens, n)
            && Symbols(lens, n)[Code(lens, sym) - FirstCode(lens, n)] == sym
  {
    SymbolRank(lens, lens[sym], sym, |lens|);
  }

  lemma {:induction false} WalkCode(lens: Lengths, sym: nat, k: nat, rest: BitString)
    requires sym < |lens| && 0 < k <= lens[sym]
    requires Shift(Code(lens, sym), k) >= FirstCode(lens, lens[sym] - k) + Count(lens, lens[sym] - k)
    ensures Walk(lens, Shift(Code(lens, sym), k), lens[sym] - k, HighBits(Code(lens, sym), k) + rest) ==
        Some((sym, rest))
    decreases k
  {
    hide FirstCode, Count, MaxBits, Code, HighBits, Power2;
    var v, n := Code(lens, sym), lens[sym];
    MaxBitsIs(lens, sym);
    HighBitsFirst(v, k);
    var bits := HighBits(v, k) + rest;
    assert bits[0] == (Shift(v, k - 1) % 2 == 1) && bits[1..] == HighBits(v, k - 1) + rest;
    CodeRange(lens, sym);
    assert 2 * Shift(v, k) + Bit(bits[0]) == Shift(v, k - 1);
    if k > 1 {
      PrefixesAbove(lens, v, n, k - 1);
      WalkCode(lens, sym, k - 1, rest);
    } else {
      NoBits(v, rest);
    }
  }

  lemma NoBits(v: nat, rest: BitString)
    ensures HighBits(v, 0) + rest == rest
  {}

  lemma MaxBitsIs(lens: Lengths, sym: nat)
    requires sym < |lens|
    ensures lens[sym] <= MaxBits(lens)
  {
    MaxBitsAtLeast(lens, sym, |lens|);
  }

  /** Under Kraft's inequality, reading the code of a symbol returns the symbol and consumes
      exactly its code, whatever follows. */
  lemma ReadCode(lens: Lengths, sym: nat, rest: BitString)
    requires Kraft(lens) && sym < |lens| && lens[sym] > 0
    ensures ReadSymbol(lens, CodeBits(lens, sym) + rest) == Some((sym, rest))
  {
    hide FirstCode, Count, Power2, Kraft, Walk, HighBits;
    var v, n := Code(lens, sym), lens[sym];
    LengthInRange(lens, sym);
    CodeRange(lens, sym);
    CodesFit(lens, n);
    ShiftAll(v, n);
    PrefixesAbove(lens, v, n, n);
    WalkCode(lens, sym, n, rest);
  }

  lemma LengthInRange(lens: Lengths, sym: nat)
    requires Kraft(lens) && sym < |lens|
    ensures lens[sym] <= MAXBITS
  {}

  /** No code is a prefix of another. */
  lemma PrefixFree(lens: Lengths, a: nat, b: nat)
    requires Kraft(lens) && a < |lens| && b < |lens| && a != b && lens[a] > 0 && lens[b] > 0
    ensures !(CodeBits(lens, a) <= CodeBits(lens, b))
  {
    hide Kraft, CodeBits, ReadSymbol;
    var x, y := CodeBits(lens, a), CodeBits(lens, b);
    if x <= y {
      ReadCode(lens, a, y[|x|..]);
      assert x + y[|x|..] == y == y + [];
      ReadCode(lens, b, []);
    }
  }

  /** Section 3.2.2: codes of one length rise with the symbols, and shorter codes stand before longer
      ones. */
  lemma CodesInOrder(lens: Lengths, a: nat, b: nat)
    requires a < |lens| && b < |lens| && 0 < lens[a] <= lens[b]
    ensures lens[a] == lens[b] && a < b ==> Code(lens, a) < Code(lens, b)
    ensures lens[a] < lens[b] ==> Code(lens, a) < Shift(Code(lens, b), lens[b] - lens[a])
  {
    hide FirstCode, Count, Shift;
    CodeRange(lens, a);
    CodeRange(lens, b);
    if lens[a] == lens[b] && a < b {
      SymbolRank(lens, lens[a], a, b);
    } else if lens[a] < lens[b] {
      PrefixesAbove(lens, Code(lens, b), lens[b], lens[b] - lens[a]);
    }
  }

  /** The example of section 3.2.2: the alphabet ABCDEFGH. */
  lemma StandardExample()
    ensures var lens: Lengths := [3, 3, 3, 3, 3, 2, 4, 4];
            && (forall s :: 0 <= s < 5 ==> Code(lens, s) == 2 + s)
            && Code(lens, 5) == 0 && Code(lens, 6) == 14 && Code(lens, 7) == 15
            && CodeBits(lens, 0) == [false, true, false] && CodeBits(lens, 7) == [true, true, true, true]
  {
    var lens: Lengths := [3, 3, 3, 3, 3, 2, 4, 4];
    ExampleSymbols(lens);
    hide SymbolsBelow;
    assert FirstCode(lens, 1) == 0;
    assert FirstCode(lens, 2) == 0;
    assert FirstCode(lens, 3) == 2;
    assert FirstCode(lens, 4) == 14;
    hide FirstCode;
    assert HighBits(2, 3) == HighBits(1, 2) + [false] == [false, true, false];
    assert HighBits(15, 4) == HighBits(7, 3) + [true] == [true, true, true, true];
  }

  lemma ExampleSymbols(lens: Lengths)
    requires lens == [3, 3, 3, 3, 3, 2, 4, 4]
    ensures Count(lens, 1) == 0 && Count(lens, 2) == 1 && Count(lens, 3) == 5
    ensures forall s :: 0 <= s < 5 ==> |SymbolsBelow(lens, 3, s)| == s
    ensures |SymbolsBelow(lens, 2, 5)| == 0 && |SymbolsBelow(lens, 4, 6)| == 0 && |SymbolsBelow(lens, 4, 7)| == 1
  {
    assert SymbolsBelow(lens, 3, 1) == [0] && SymbolsBelow(lens, 3, 2) == [0, 1];
    assert SymbolsBelow(lens, 3, 3) == [0, 1, 2] && SymbolsBelow(lens, 3, 4) == [0, 1, 2, 3];
    assert SymbolsBelow(lens, 3, 5) == [0, 1, 2, 3, 4] == SymbolsBelow(lens, 3, 6);
    assert SymbolsBelow(lens, 3, 8) == SymbolsBelow(lens, 3, 7) == SymbolsBelow(lens, 3, 6);
    assert SymbolsBelow(lens, 2, 2) == SymbolsBelow(lens, 2, 1) == [];
    assert SymbolsBelow(lens, 2, 5) == SymbolsBelow(lens, 2, 4) == SymbolsBelow(lens, 2, 3) == [];
    assert SymbolsBelow(lens, 2, 8) == SymbolsBelow(lens, 2, 7) == SymbolsBelow(lens, 2, 6) == [5];
    assert SymbolsBelow(lens, 4, 2) == SymbolsBelow(lens, 4, 1) == [];
    assert SymbolsBelow(lens, 4, 5) == SymbolsBelow(lens, 4, 4) == SymbolsBelow(lens, 4, 3) == [];
    assert SymbolsBelow(lens, 4, 7) == [6];
    assert SymbolsBelow(lens, 1, 2) == SymbolsBelow(lens, 1, 1) == [];
    assert SymbolsBelow(lens, 1, 5) == SymbolsBelow(lens, 1, 4) == SymbolsBelow(lens, 1, 3) == [];
    assert SymbolsBelow(lens, 1, 8) == SymbolsBelow(lens, 1, 7) == SymbolsBelow(lens, 1, 6) == [];
  }

  lemma {:induction false} WalkInverse(lens: Lengths, code: nat, l: nat, bits: BitString)
    requires code >= FirstCode(lens, l) + Count(lens, l) && Walk(lens, code, l, bits).Some?
    ensures var (sym, rest) := Walk(lens, code, l, bits).value;
            && sym < |lens| && lens[sym] > l && Shift(Code(lens, sym), lens[sym] - l) == code
            && bits == HighBits(Code(lens, sym), lens[sym] - l) + rest
    decreases |bits|
  {
    hide MaxBits, Code, HighBits, Power2;
    var (sym, rest) := Walk(lens, code, l, bits).value;
    var code' := 2 * code + Bit(bits[0]);
    var index := code' - FirstCode(lens, l + 1);
    if index < Count(lens, l + 1) {
      RankSymbol(lens, l + 1, index, |lens|);
      CodeOf(lens, sym, l + 1, code');
    } else {
      WalkInverse(lens, code', l + 1, bits[1..]);
    }
    var v, k := Code(lens, sym), lens[sym] - l;
    assert Shift(v, k - 1) == code';
    HighBitsFirst(v, k);
    assert bits == [bits[0]] + bits[1..];
    if k == 1 { NoBits(v, rest); }
    Associate([bits[0]], HighBits(v, k - 1), rest);
  }

  lemma CodeOf(lens: Lengths, sym: nat, l: nat, code: nat)
    requires sym < |lens| && lens[sym] == l && code == FirstCode(lens, l) + |SymbolsBelow(lens, l, sym)|
    ensures Code(lens, sym) == code
  {}

  /** For any length table, whatever is read as a symbol is the code of that symbol. */
  lemma ReadIsCode(lens: Lengths, bits: BitString)
    requires ReadSymbol(lens, bits).Some?
    ensures var (sym, rest) := ReadSymbol(lens, bits).value;
            lens[sym] > 0 && bits == CodeBits(lens, sym) + rest
  {
    WalkInverse(lens, 0, 0, bits);
  }
}
