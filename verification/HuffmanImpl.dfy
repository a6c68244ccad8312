/** The Huffman table of src/raw_inflate.hpp, proved against `HuffmanCodes`. */
module HuffmanImpl {
  import opened Basics
  import opened Bits
  import opened BitReading
  import opened HuffmanCodes

  const MAX_SYMBOLS := 288

  // ---------------------------------------------------------------- table layout

  /** The used symbols with lengths 1 to `l`, shortest codes first. */
  function Layout(lens: Lengths, l: nat): (r: seq<nat>) {
    if l == 0 then [] else Layout(lens, l - 1) + Symbols(lens, l)
  }

  /** How many symbols below `n` have a length from 1 to `l`. */
  function Below(lens: Lengths, l: nat, n: nat): nat
    requires n <= |lens|
  {
    if l == 0 then 0 else Below(lens, l - 1, n) + |SymbolsBelow(lens, l, n)|
  }

  lemma {:induction false} BelowStep(lens: Lengths, l: nat, n: nat)
    requires 0 < n <= |lens|
    ensures Below(lens, l, n) == Below(lens, l, n - 1) + if 0 < lens[n - 1] <= l then 1 else 0
  {
    if l > 0 { BelowStep(lens, l - 1, n); }
  }

  lemma {:induction false} BelowBound(lens: Lengths, l: nat, n: nat)
    requires n <= |lens|
    ensures Below(lens, l, n) <= n
  {
    if n == 0 {
      if l > 0 { BelowBound(lens, l - 1, 0); }
    } else {
      BelowBound(lens, l, n - 1);
      BelowStep(lens, l, n);
    }
  }

  lemma {:induction false} LayoutSize(lens: Lengths, l: nat)
    ensures |Layout(lens, l)| == Below(lens, l, |lens|)
  {
    if l > 0 { LayoutSize(lens, l - 1); }
  }

  lemma LayoutFits(lens: Lengths, l: nat)
    ensures |Layout(lens, l)| <= |lens|
  {
    LayoutSize(lens, l);
    BelowBound(lens, l, |lens|);
  }

  /** Symbol `k` of length `l` stands `k` places after all shorter codes. */
  lemma {:induction false} LayoutAt(lens: Lengths, l: nat, m: nat, k: nat)
    requires 0 < l <= m && k < |Symbols(lens, l)|
    ensures |Layout(lens, l - 1)| + k < |Layout(lens, m)|
    ensures Layout(lens, m)[|Layout(lens, l - 1)| + k] == Symbols(lens, l)[k]
    decreases m
  {
    hide Symbols;
    if l < m { LayoutAt(lens, l, m - 1, k); }
  }

  lemma {:induction false} MaxBitsInRange(lens: Lengths, n: nat)
    requires InRange(lens) && n <= |lens|
    ensures MaxBitsBelow(lens, n) <= MAXBITS
  {
    if n > 0 { MaxBitsInRange(lens, n - 1); }
  }

  lemma {:induction false} KraftSumBound(lens: Lengths, n: nat)
    requires n <= |lens|
    ensures KraftSumBelow(lens, n) <= n * Power2(MAXBITS - 1)
  {
    if n > 0 {
      KraftSumBound(lens, n - 1);
      if 0 < lens[n - 1] <= MAXBITS { PowerMonotone(MAXBITS - lens[n - 1], MAXBITS - 1); }
      hide Power2;
      Doubled(0, n - 1, Power2(MAXBITS - 1));
    }
  }

  lemma {:induction false} PowerMonotone(a: nat, b: nat)
    requires a <= b
    ensures Power2(a) <= Power2(b)
  {
    if a < b { PowerMonotone(a, b - 1); }
  }

  /** Whatever the length table, the running code of `build` stays far below the range of `int`. */
  lemma CodesFitInt(lens: Lengths, l: nat)
    requires |lens| <= MAX_SYMBOLS && l <= MAXBITS
    ensures FirstCode(lens, l) + Count(lens, l) <= 288 * 16384
  {
    hide Power2, FirstCode, Count, Taken, KraftSumBelow;
    var c, p := FirstCode(lens, l) + Count(lens, l), Power2(MAXBITS - l);
    FirstCodeTaken(lens, l);
    TakenMonotone(lens, l, MAXBITS);
    TakenAll(lens, |lens|);
    KraftSumBound(lens, |lens|);
    FourteenBits();
    MulMonotone(|lens|, MAX_SYMBOLS, Power2(MAXBITS - 1), 16384);
    MulMonotone(c, c, 1, p);
  }

  lemma FourteenBits()
    ensures Power2(14) == 16384
  {
    assert Power2(4) == 16;
    assert Power2(8) == 16 * Power2(4);
    assert Power2(12) == 16 * Power2(8);
    assert Power2(14) == 4 * Power2(12);
  }

  // ---------------------------------------------------------------- the table

  class Huff {
    const lengths: array<nat>
    const counts: array<nat>
    const firstCode: array<nat>
    const symbols: array<nat>
    const baseIdx: array<nat>
    var nsymbols: nat
    var maxBits: nat

    ghost predicate Shape() {
      && lengths.Length == MAX_SYMBOLS && symbols.Length == MAX_SYMBOLS
      && counts.Length == MAXBITS + 1 && firstCode.Length == MAXBITS + 1 && baseIdx.Length == MAXBITS + 1
      && lengths != symbols && counts != firstCode && counts != baseIdx && firstCode != baseIdx
    }

    ghost function Repr(): set<object> {
      {this, lengths, counts, firstCode, symbols, baseIdx}
    }

    /** The table describes the codes of `lens`. */
    ghost predicate Describes(lens: Lengths)
      reads Repr()
    {
      && Shape() && |lens| <= MAX_SYMBOLS && InRange(lens)
      && maxBits == MaxBits(lens) <= MAXBITS && nsymbols == |lens|
      && (forall l :: 1 <= l <= MAXBITS ==> counts[l] == Count(lens, l))
      && (forall l :: 1 <= l <= MAXBITS ==> firstCode[l] == FirstCode(lens, l))
      && (forall l :: 1 <= l <= maxBits ==> baseIdx[l] == |Layout(lens, l - 1)|)
      && |Layout(lens, maxBits)| <= MAX_SYMBOLS && symbols[..|Layout(lens, maxBits)|] == Layout(lens, maxBits)
    }

    constructor ()
      ensures Shape() && fresh(Repr())
    {
      lengths := new nat[MAX_SYMBOLS](_ => 0);
      counts := new nat[MAXBITS + 1](_ => 0);
      firstCode := new nat[MAXBITS + 1](_ => 0);
      symbols := new nat[MAX_SYMBOLS](_ => 0);
      baseIdx := new nat[MAXBITS + 1](_ => 0);
      nsymbols, maxBits := 0, 0;
    }

    method CountLengths(lens: Lengths)
      requires Shape() && |lens| <= MAX_SYMBOLS && InRange(lens)
      modifies `maxBits, `nsymbols, counts, lengths
      ensures lengths[..|lens|] == lens && nsymbols == |lens|
      ensures counts[0] == 0 && forall l :: 1 <= l <= MAXBITS ==> counts[l] == Count(lens, l)
      ensures maxBits == MaxBits(lens) <= MAXBITS
    {
      hide SymbolsBelow, MaxBitsBelow;
      for l := 0 to MAXBITS + 1
        invariant forall k :: 0 <= k < l ==> counts[k] == 0
      {
        counts[l] := 0;
      }
      NothingCounted(lens);
      nsymbols := |lens|;
      maxBits := 0;
      for i := 0 to |lens|
        invariant lengths[..i] == lens[..i] && nsymbols == |lens|
        invariant counts[0] == 0 && forall l :: 1 <= l <= MAXBITS ==> counts[l] == |SymbolsBelow(lens, l, i)|
        invariant maxBits == MaxBitsBelow(lens, i) <= MAXBITS
      {
        CountStep(lens, i);
        lengths[i] := lens[i];
        if lens[i] != 0 {
          counts[lens[i]] := counts[lens[i]] + 1;
          if lens[i] > maxBits { maxBits := lens[i]; }
        }
      }
    }

    method AssignFirstCodes(lens: Lengths)
      requires Shape() && counts[0] == 0 && forall l :: 1 <= l <= MAXBITS ==> counts[l] == Count(lens, l)
      modifies firstCode
      ensures forall l :: 1 <= l <= MAXBITS ==> firstCode[l] == FirstCode(lens, l)
    {
      hide FirstCode, Count;
      NothingShorter(lens);
      var code := 0;
      for bits := 1 to MAXBITS + 1
        invariant code == FirstCode(lens, bits - 1)
        invariant forall l :: 1 <= l < bits ==> firstCode[l] == FirstCode(lens, l)
      {
        FirstCodeStep(lens, bits);
        code := 2 * (code + counts[bits - 1]);
        firstCode[bits] := code;
      }
    }

    method LayOutSymbols(lens: Lengths)
      requires Shape() && |lens| == nsymbols <= MAX_SYMBOLS && lengths[..|lens|] == lens
      requires maxBits <= MAXBITS
      modifies symbols, baseIdx
      ensures forall l :: 1 <= l <= maxBits ==> baseIdx[l] == |Layout(lens, l - 1)|
      ensures |Layout(lens, maxBits)| <= MAX_SYMBOLS && symbols[..|Layout(lens, maxBits)|] == Layout(lens, maxBits)
    {
      hide Layout, SymbolsBelow;
      NothingLaidOut(lens);
      var idx := 0;
      for bits := 1 to maxBits + 1
        invariant idx <= MAX_SYMBOLS && symbols[..idx] == Layout(lens, bits - 1)
        invariant forall l :: 1 <= l < bits ==> baseIdx[l] == |Layout(lens, l - 1)|
      {
        baseIdx[bits] := idx;
        LayoutStep(lens, bits);
        for sym := 0 to nsymbols
          invariant idx == |Layout(lens, bits - 1)| + |SymbolsBelow(lens, bits, sym)| <= MAX_SYMBOLS
          invariant symbols[..idx] == Layout(lens, bits - 1) + SymbolsBelow(lens, bits, sym)
          invariant forall l :: 1 <= l <= bits ==> baseIdx[l] == |Layout(lens, l - 1)|
        {
          assert lengths[sym] == lengths[..|lens|][sym] == lens[sym];
          SymbolStep(lens, bits, sym);
          if lengths[sym] == bits {
            SymbolRank(lens, bits, sym, |lens|);
            symbols[idx] := sym;
            idx := idx + 1;
          }
        }
      }
    }

    /** `Huff::build` */
    method Build(lens: Lengths)
      requires Shape() && |lens| <= MAX_SYMBOLS && InRange(lens)
      modifies Repr()
      ensures Describes(lens)
    {
      MaxBitsInRange(lens, |lens|);
      CountLengths(lens);
      AssignFirstCodes(lens);
      LayOutSymbols(lens);
    }

    lemma SymbolAt(lens: Lengths, l: nat, k: nat)
      requires Describes(lens) && 1 <= l <= maxBits && k < |Symbols(lens, l)|
      ensures baseIdx[l] + k < MAX_SYMBOLS && symbols[baseIdx[l] + k] == Symbols(lens, l)[k]
    {
      hide Layout, Symbols, MaxBits, FirstCode, Count, InRange;
      LayoutAt(lens, l, maxBits, k);
      assert symbols[..|Layout(lens, maxBits)|][baseIdx[l] + k] == symbols[baseIdx[l] + k];
    }

    /** `Huff::decode`: reads one symbol, or returns -1. */
    method Decode(br: BitReader, ghost lens: Lengths) returns (sym: int)
      requires Describes(lens) && br.Valid() && br.bits < 8
      requires br !in Repr()
      modifies br
      ensures br.Valid() && br.bits < 8
      ensures match ReadSymbol(lens, old(br.Rest()))
              case None => sym == -1
              case Some((s, rest)) => sym == s && br.Rest() == rest
    {
      hide Count, FirstCode, MaxBits, Layout, Symbols, LowBits, BitsOf, Take, Power2, Walk, ReadSymbol, InRange;
      WalkStart(lens, br.Rest());
      if maxBits == 0 { return -1; }
      var code := 0;
      for len := 1 to maxBits + 1
        invariant br.Valid() && br.bits < 8
        invariant code >= FirstCode(lens, len - 1) + Count(lens, len - 1)
        invariant Walk(lens, code, len - 1, br.Rest()) == ReadSymbol(lens, old(br.Rest()))
      {
        ghost var bits := br.Rest();
        var b := br.Get(1);
        OneBit(bits);
        if b == UINT32_MAX {
          WalkEnd(lens, code, len - 1, bits);
          return -1;
        }
        WalkStep(lens, code, len - 1, bits);
        code := 2 * code + b;
        var first, cnt := firstCode[len], counts[len];
        if cnt != 0 && code - first < cnt {
          SymbolAt(lens, len, code - first);
          return symbols[baseIdx[len] + (code - first)];
        }
      }
      WalkEnd(lens, code, maxBits, br.Rest());
      sym := -1;
    }
  }

  lemma NothingCounted(lens: Lengths)
    ensures (forall l :: SymbolsBelow(lens, l, 0) == []) && MaxBitsBelow(lens, 0) == 0
  {}

  lemma CountStep(lens: Lengths, i: nat)
    requires i < |lens|
    ensures forall l :: |SymbolsBelow(lens, l, i + 1)| == |SymbolsBelow(lens, l, i)| + if lens[i] == l then 1 else 0
    ensures MaxBitsBelow(lens, i + 1) == if lens[i] > MaxBitsBelow(lens, i) then lens[i] else MaxBitsBelow(lens, i)
  {}

  lemma NothingShorter(lens: Lengths)
    ensures FirstCode(lens, 0) == Count(lens, 0) == 0
  {}

  lemma FirstCodeStep(lens: Lengths, l: nat)
    requires l > 0
    ensures FirstCode(lens, l) == 2 * (FirstCode(lens, l - 1) + Count(lens, l - 1))
  {}

  lemma NothingLaidOut(lens: Lengths)
    ensures Layout(lens, 0) == []
  {}

  lemma LayoutStep(lens: Lengths, l: nat)
    requires l > 0
    ensures Layout(lens, l) == Layout(lens, l - 1) + SymbolsBelow(lens, l, |lens|)
    ensures |Layout(lens, l - 1)| + |SymbolsBelow(lens, l, |lens|)| <= |lens|
    ensures SymbolsBelow(lens, l, 0) == []
  {
    LayoutFits(lens, l);
  }

  lemma SymbolStep(lens: Lengths, l: nat, sym: nat)
    requires sym < |lens|
    ensures SymbolsBelow(lens, l, sym + 1)
         == if lens[sym] == l then SymbolsBelow(lens, l, sym) + [sym] else SymbolsBelow(lens, l, sym)
  {}

  lemma WalkStart(lens: Lengths, bits: BitString)
    ensures FirstCode(lens, 0) == Count(lens, 0) == 0 && Walk(lens, 0, 0, bits) == ReadSymbol(lens, bits)
    ensures MaxBits(lens) == 0 ==> ReadSymbol(lens, bits) == None
  {}

  lemma WalkEnd(lens: Lengths, code: nat, l: nat, bits: BitString)
    requires code >= FirstCode(lens, l) + Count(lens, l)
    ensures l >= MaxBits(lens) || bits == [] ==> Walk(lens, code, l, bits) == None
  {}

  lemma OneBit(bits: BitString)
    ensures Take(bits, 1) == if bits == [] then None else Some((Bit(bits[0]), bits[1..]))
  {
    if bits != [] {
      assert bits[..1] == [bits[0]];
      assert Value([bits[0]]) == Bit(bits[0]) + 2 * Value([]);
    }
  }

  /** One step of the walk, and the running code stays at or above the first code. */
  lemma WalkStep(lens: Lengths, code: nat, l: nat, bits: BitString)
    requires code >= FirstCode(lens, l) + Count(lens, l) && l < MaxBits(lens) && bits != []
    ensures var code' := 2 * code + Bit(bits[0]);
            && code' >= FirstCode(lens, l + 1)
            && if code' - FirstCode(lens, l + 1) < Count(lens, l + 1)
               then code' - FirstCode(lens, l + 1) < |Symbols(lens, l + 1)|
                    && Walk(lens, code, l, bits) ==
                        Some((Symbols(lens, l + 1)[code' - FirstCode(lens, l + 1)], bits[1..]))
               else Walk(lens, code, l, bits) == Walk(lens, code', l + 1, bits[1..])
  {}
}
