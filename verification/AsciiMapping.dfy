/** `ascii_map` of src/mapping.cpp: lowercasing eight bytes at a time. */
module AsciiMapping {
  import opened Basics
  import opened TranscodingImpl

  type Octets = seq<bv8>

  function Lower(b: bv8): bv8 {
    if 0x41 <= b <= 0x5A then b + 0x20 else b
  }

  function LowerAll(s: Octets): (r: Octets)
    ensures |r| == |s| && forall i :: 0 <= i < |r| ==> r[i] == Lower(s[i])
  {
    seq(|s|, i requires 0 <= i < |s| => Lower(s[i]))
  }

  /** The 26 letters stand at places 1 to 26 of the third quarter of ASCII when capital, and at the
      same places of the fourth when small; nothing else changes. */
  lemma LowerIsCaseBit(b: bv8)
    ensures Lower(b) == if b & 0xE0 == 0x40 && 1 <= b & 0x1F <= 26 then b | 0x20 else b
  {}

  // ---------------------------------------------------------------- lanes

  /** `broadcast` */
  function Broadcast(v: bv8): bv64 { 0x0101_0101_0101_0101 * (v as bv64) }

  /** The word operation: bit 7 of a lane after the two additions tells whether the byte is in
      A-Z; shifted right by two it is the bit that makes the letter small. */
  function Fold(w: bv64): bv64 {
    w ^ ((((w + Broadcast(128 - 0x41)) ^ (w + Broadcast(128 - 0x5A - 1))) & Broadcast(0x80)) >> 2)
  }

  function FoldHalf(w: bv32): bv32 {
    w ^ ((((w + 0x3F3F_3F3F) ^ (w + 0x2525_2525)) & 0x8080_8080) >> 2)
  }

  lemma Constants()
    ensures Broadcast(128 - 0x41) == 0x3F3F_3F3F_3F3F_3F3F && Broadcast(128 - 0x5A - 1) == 0x2525_2525_2525_2525
    ensures Broadcast(0x80) == 0x8080_8080_8080_8080
  {}

  /** No carry crosses from the lower to the upper half. */
  lemma FoldHalves(low: bv32, high: bv32)
    requires Ascii4(low) && Ascii4(high)
    ensures Fold(Join64(low, high)) == Join64(FoldHalf(low), FoldHalf(high))
  {
    Constants();
    hide Broadcast;
  }

  function Load16(a: bv8, b: bv8): bv16 { (a as bv16) | ((b as bv16) << 8) }

  function Join32(low: bv16, high: bv16): bv32 { (low as bv32) | ((high as bv32) << 16) }

  function FoldQuarter(w: bv16): bv16 {
    w ^ ((((w + 0x3F3F) ^ (w + 0x2525)) & 0x8080) >> 2)
  }

  predicate Ascii2(w: bv16) { w & 0x8080 == 0 }

  lemma FoldQuarters(low: bv16, high: bv16)
    requires Ascii2(low) && Ascii2(high)
    ensures FoldHalf(Join32(low, high)) == Join32(FoldQuarter(low), FoldQuarter(high))
  {}

  lemma FoldPair(a: bv8, b: bv8)
    requires a < 0x80 && b < 0x80
    ensures Ascii2(Load16(a, b)) && FoldQuarter(Load16(a, b)) == Load16(Lower(a), Lower(b))
  {}

  lemma TwoPairs(a: bv8, b: bv8, c: bv8, d: bv8)
    ensures Load32(a, b, c, d) == Join32(Load16(a, b), Load16(c, d))
  {}

  /** Nor between the lanes of a half. */
  lemma FoldLanes(a: bv8, b: bv8, c: bv8, d: bv8)
    requires a < 0x80 && b < 0x80 && c < 0x80 && d < 0x80
    ensures FoldHalf(Load32(a, b, c, d)) == Load32(Lower(a), Lower(b), Lower(c), Lower(d))
  {
    hide FoldHalf, FoldQuarter, Load32, Load16, Join32, Lower, Ascii2;
    FoldPair(a, b);
    FoldPair(c, d);
    TwoPairs(a, b, c, d);
    TwoPairs(Lower(a), Lower(b), Lower(c), Lower(d));
    FoldQuarters(Load16(a, b), Load16(c, d));
  }

  /** Byte `p` of the input, zero past its end as in the tail word. */
  function Padded(s: Octets, p: nat): bv8 {
    if p < |s| then s[p] else 0
  }

  function LoadPadded(s: Octets): bv64
    requires |s| <= 8
  {
    Join64(Load32(Padded(s, 0), Padded(s, 1), Padded(s, 2), Padded(s, 3)),
           Load32(Padded(s, 4), Padded(s, 5), Padded(s, 6), Padded(s, 7)))
  }

  predicate AllAscii(s: Octets) {
    forall i :: 0 <= i < |s| ==> s[i] < 0x80
  }

  lemma LowerZero()
    ensures Lower(0) == 0 && 0 < (0x80 as bv8)
  {}

  lemma PaddedLower(s: Octets, p: nat)
    requires AllAscii(s)
    ensures Padded(s, p) < 0x80 && Padded(LowerAll(s), p) == Lower(Padded(s, p))
  {
    LowerZero();
  }

  /** Folding the word of some bytes gives the word of the lowercased bytes. */
  lemma FoldIsLower(s: Octets)
    requires |s| <= 8 && AllAscii(s)
    ensures Fold(LoadPadded(s)) == LoadPadded(LowerAll(s))
  {
    hide Padded, Lower, Fold, FoldHalf, Join64, Load32, Ascii4;
    PaddedLower(s, 0);
    PaddedLower(s, 1);
    PaddedLower(s, 2);
    PaddedLower(s, 3);
    PaddedLower(s, 4);
    PaddedLower(s, 5);
    PaddedLower(s, 6);
    PaddedLower(s, 7);
    FoldLanes(Padded(s, 0), Padded(s, 1), Padded(s, 2), Padded(s, 3));
    FoldLanes(Padded(s, 4), Padded(s, 5), Padded(s, 6), Padded(s, 7));
    FourAscii(Padded(s, 0), Padded(s, 1), Padded(s, 2), Padded(s, 3));
    FourAscii(Padded(s, 4), Padded(s, 5), Padded(s, 6), Padded(s, 7));
    FoldHalves(Load32(Padded(s, 0), Padded(s, 1), Padded(s, 2), Padded(s, 3)),
               Load32(Padded(s, 4), Padded(s, 5), Padded(s, 6), Padded(s, 7)));
  }

  /** Byte `k` of a word, as `memcpy` stores it on a little-endian machine. */
  function ByteOf(w: bv64, k: nat): bv8
    requires k < 8
  {
    match k
    case 0 => (w & 0xFF) as bv8
    case 1 => ((w >> 8) & 0xFF) as bv8
    case 2 => ((w >> 16) & 0xFF) as bv8
    case 3 => ((w >> 24) & 0xFF) as bv8
    case 4 => ((w >> 32) & 0xFF) as bv8
    case 5 => ((w >> 40) & 0xFF) as bv8
    case 6 => ((w >> 48) & 0xFF) as bv8
    case _ => ((w >> 56) & 0xFF) as bv8
  }

  lemma LowBytes(a: bv8, b: bv8, c: bv8, d: bv8, high: bv32)
    ensures var w := Join64(Load32(a, b, c, d), high);
            ByteOf(w, 0) == a && ByteOf(w, 1) == b && ByteOf(w, 2) == c && ByteOf(w, 3) == d
  {}

  lemma HighBytes(low: bv32, a: bv8, b: bv8, c: bv8, d: bv8)
    ensures var w := Join64(low, Load32(a, b, c, d));
            ByteOf(w, 4) == a && ByteOf(w, 5) == b && ByteOf(w, 6) == c && ByteOf(w, 7) == d
  {}

  /** Storing undoes loading. */
  lemma StoreLoad(s: Octets, k: nat)
    requires k < |s| <= 8
    ensures ByteOf(LoadPadded(s), k) == s[k]
  {
    LowBytes(Padded(s, 0), Padded(s, 1), Padded(s, 2), Padded(s, 3),
        Load32(Padded(s, 4), Padded(s, 5), Padded(s, 6), Padded(s, 7)));
    HighBytes(Load32(Padded(s, 0), Padded(s, 1), Padded(s, 2), Padded(s, 3)),
        Padded(s, 4), Padded(s, 5), Padded(s, 6), Padded(s, 7));
    hide Join64, Load32, ByteOf;
  }

  // ---------------------------------------------------------------- the loop

  /** Load, fold and store the `n` bytes at `i`. */
  method FoldAt(input: array<bv8>, i: nat, n: nat)
    requires n <= 8 && i + n <= input.Length && forall k :: i <= k < i + n ==> input[k] < 0x80
    modifies input
    ensures forall k :: 0 <= k < input.Length ==>
              input[k] == if i <= k < i + n then Lower(old(input[k])) else old(input[k])
  {
    hide LoadPadded, Fold, ByteOf, Lower;
    ghost var s := input[i..i + n];
    assert AllAscii(s);
    var word := LoadPadded(input[i..i + n]);
    FoldIsLower(s);
    word := Fold(word);
    forall k | 0 <= k < n ensures ByteOf(word, k) == Lower(s[k]) { StoreLoad(LowerAll(s), k); }
    forall k | 0 <= k < n { input[i + k] := ByteOf(word, k); }
    forall k | i <= k < i + n ensures input[k] == Lower(old(input[k])) {
      assert input[i + (k - i)] == ByteOf(word, k - i);
    }
  }

  /** ASCII of any length becomes its bytewise lowercase form. */
  method AsciiMap(input: array<bv8>)
    requires AllAscii(input[..])
    modifies input
    ensures input[..] == LowerAll(old(input[..]))
  {
    hide Lower;
    ghost var was := input[..];
    assert forall k :: 0 <= k < |was| ==> was[k] < 0x80;
    var length := input.Length;
    var i: nat := 0;
    while i + 7 < length
      invariant i <= length
      invariant forall k :: 0 <= k < i ==> input[k] == Lower(was[k])
      invariant forall k :: i <= k < length ==> input[k] == was[k]
    {
      FoldAt(input, i, 8);
      i := i + 8;
    }
    if i < length {
      FoldAt(input, i, length - i);
    }
  }
}
