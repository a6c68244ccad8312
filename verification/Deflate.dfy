/** The DEFLATE format (RFC 1951) as a parser of bit strings. `DeflateEncoding` and `DeflateStream`
    write blocks as bits and prove that parsing inverts the writing; `InflateImpl` proves
    src/raw_inflate.hpp against the parser. */
module Deflate {
  import opened Basics
  import opened Bits
  import opened HuffmanCodes

  type Bytes = seq<Byte>

  const LEN_BASE: seq<nat> := [3, 4, 5, 6, 7, 8, 9, 10, 11, 13, 15, 17, 19, 23, 27,
                               31, 35, 43, 51, 59, 67, 83, 99, 115, 131, 163, 195, 227, 258]
  const LEN_EXTRA: seq<nat> := [0, 0, 0, 0, 0, 0, 0, 0, 1, 1, 1, 1, 2, 2, 2, 2, 3, 3, 3, 3,
                                4, 4, 4, 4, 5, 5, 5, 5, 0]
  const DIST_BASE: seq<nat> := [1, 2, 3, 4, 5, 7, 9, 13, 17, 25, 33, 49, 65, 97, 129, 193, 257, 385, 513, 769,
                                1025, 1537, 2049, 3073, 4097, 6145, 8193, 12289, 16385, 24577]
  const DIST_EXTRA: seq<nat> := [0, 0, 0, 0, 1, 1, 2, 2, 3, 3, 4, 4, 5, 5, 6, 6, 7, 7, 8, 8,
                                 9, 9, 10, 10, 11, 11, 12, 12, 13, 13]
  const ORDER: seq<nat> := [16, 17, 18, 0, 8, 7, 9, 6, 10, 5, 11, 4, 12, 3, 13, 2, 14, 1, 15]
  const MAX_LENS := 320
  const END_OF_BLOCK := 256

  // ---------------------------------------------------------------- LZ77

  /** Appends `length` bytes, each copied from `distance` bytes back. */
  function CopyMatch(out: Bytes, distance: nat, length: nat): (r: Bytes)
    requires 0 < distance <= |out|
    ensures |r| == |out| + length
    decreases length
  {
    if length == 0 then out
    else CopyMatch(out + [out[|out| - distance]], distance, length - 1)
  }

  /** Entry `k` of the endless repetition of the last `distance` bytes of `out`. */
  function Cycle(out: Bytes, distance: nat, k: nat): Byte
    requires 0 < distance <= |out|
  {
    out[|out| - distance + k % distance]
  }

  lemma CycleShift(out: Bytes, distance: nat, k: nat)
    requires 0 < distance <= |out|
    ensures Cycle(out + [out[|out| - distance]], distance, k) == Cycle(out, distance, k + 1)
    ensures Cycle(out, distance, 0) == out[|out| - distance]
  {
    Wrap(k + 1, distance);
  }

  /** A match repeats the last `distance` bytes periodically, also when it is longer than that. */
  lemma {:induction false} CopyIsPeriodic(out: Bytes, distance: nat, length: nat, j: nat)
    requires 0 < distance <= |out| && j < |out| + length
    ensures CopyMatch(out, distance, length)[j] == if j < |out| then out[j] else Cycle(out, distance, j - |out|)
    decreases length
  {
    if length > 0 {
      hide Cycle;
      CopyIsPeriodic(out + [out[|out| - distance]], distance, length - 1, j);
      CycleShift(out, distance, if j > |out| then j - |out| - 1 else 0);
    }
  }

  lemma Wrap(k: nat, d: nat)
    requires d > 0 && k > 0
    ensures var r := (k - 1) % d;
            if r + 1 == d then k % d == 0 else k % d == r + 1
  {
    var q, r := (k - 1) / d, (k - 1) % d;
    assert k == (r + 1) + q * d;
    if r + 1 == d {
      assert k == 0 + (q + 1) * d;
      Quotient(0, q + 1, d);
    } else {
      Quotient(r + 1, q, d);
    }
  }

  // ---------------------------------------------------------------- parsing

  /** Literals and matches up to the end-of-block symbol, with room for `cap` bytes of output. */
  function ParseTokens(lit: Lengths, dist: Lengths, out: Bytes, cap: nat, bits: BitString):
      (r: Option<(Bytes, BitString)>)
    ensures r.Some? ==> |r.value.1| < |bits|
    decreases |bits|
  {
    match ReadSymbol(lit, bits)
    case None => None
    case Some((sym, r1)) =>
      if sym < END_OF_BLOCK then
        if |out| >= cap then None else ParseTokens(lit, dist, out + [sym], cap, r1)
      else if sym == END_OF_BLOCK then Some((out, r1))
      else
        match ParseMatch(sym - 257, dist, r1)
        case None => None
        case Some((length, distance, r2)) =>
          if distance > |out| || |out| + length > cap then None
          else ParseTokens(lit, dist, CopyMatch(out, distance, length), cap, r2)
  }

  /** Length and distance after a length symbol with the given code. */
  function ParseMatch(lc: nat, dist: Lengths, bits: BitString): (r: Option<(nat, nat, BitString)>)
    ensures r.Some? ==> r.value.1 > 0 && |r.value.2| <= |bits|
  {
    if lc > 28 then None
    else
      match Take(bits, LEN_EXTRA[lc])
      case None => None
      case Some((le, r1)) =>
        match ReadSymbol(dist, r1)
        case None => None
        case Some((dc, r2)) =>
          if dc > 29 then None
          else
            match Take(r2, DIST_EXTRA[dc])
            case None => None
            case Some((de, r3)) => Some((LEN_BASE[lc] + le, DIST_BASE[dc] + de, r3))
  }

  /** Code lengths as transmitted; `LensOverrun` if a repeat runs past the 320 entries there is
      room for, which the source does not guard against. */
  datatype LensResult = LensBad | LensOverrun | LensOk(lens: Lengths, rest: BitString)

  function Run(l: nat, n: nat): (r: Lengths)
    ensures |r| == n
  {
    seq(n, _ => l)
  }

  function ParseLens(cl: Lengths, n: nat, lens: Lengths, bits: BitString): (r: LensResult)
    ensures r.LensOk? ==> |r.lens| >= n && |r.rest| <= |bits|
    decreases |bits|
  {
    if |lens| >= n then LensOk(lens, bits)
    else
      match ReadSymbol(cl, bits)
      case None => LensBad
      case Some((sym, r1)) =>
        if sym < 16 then ParseLens(cl, n, lens + [sym], r1)
        else
          match RunFor(sym, lens, r1)
          case None => LensBad
          case Some((l, count, r2)) =>
            if |lens| + count > MAX_LENS then LensOverrun else ParseLens(cl, n, lens + Run(l, count), r2)
  }

  /** What a repeat symbol repeats, and how often. */
  function RunFor(sym: nat, lens: Lengths, bits: BitString): (r: Option<(nat, nat, BitString)>)
    ensures r.Some? ==> r.value.1 > 0 && |r.value.2| <= |bits|
  {
    if sym == 16 then
      match Take(bits, 2)
      case None => None
      case Some((v, rest)) => if lens == [] then None else Some((lens[|lens| - 1], 3 + v, rest))
    else if sym == 17 then
      match Take(bits, 3)
      case None => None
      case Some((v, rest)) => Some((0, 3 + v, rest))
    else if sym == 18 then
      match Take(bits, 7)
      case None => None
      case Some((v, rest)) => Some((0, 11 + v, rest))
    else None
  }

  /** The lengths of the code length code, from entry `i` of their transmission order on. */
  function ParseCl(cl: Lengths, i: nat, count: nat, bits: BitString): (r: Option<(Lengths, BitString)>)
    requires |cl| == 19 && i <= count <= 19
    ensures r.Some? ==> |r.value.0| == 19 && |r.value.1| <= |bits|
    decreases count - i
  {
    if i == count then Some((cl, bits))
    else
      match Take(bits, 3)
      case None => None
      case Some((v, rest)) => ParseCl(cl[ORDER[i] := v], i + 1, count, rest)
  }

  datatype HeaderResult = HeaderBad | HeaderOverrun | HeaderOk(lit: Lengths, dist: Lengths, rest: BitString)

  function ParseHeader(bits: BitString): (r: HeaderResult)
    ensures r.HeaderOk? ==> |r.rest| <= |bits|
  {
    match Take(bits, 5)
    case None => HeaderBad
    case Some((hlit, r1)) =>
      match Take(r1, 5)
      case None => HeaderBad
      case Some((hdist, r2)) =>
        match Take(r2, 4)
        case None => HeaderBad
        case Some((hclen, r3)) => ParseLengths(hlit + 257, hdist + 1, hclen + 4, r3)
  }

  function ParseLengths(hlit: nat, hdist: nat, hclen: nat, bits: BitString): (r: HeaderResult)
    ensures r.HeaderOk? ==> |r.rest| <= |bits|
  {
    if hclen > 19 then HeaderBad
    else
      match ParseCl(Run(0, 19), 0, hclen, bits)
      case None => HeaderBad
      case Some((cl, r1)) =>
        match ParseLens(cl, hlit + hdist, [], r1)
        case LensBad => HeaderBad
        case LensOverrun => HeaderOverrun
        case LensOk(lens, r2) => HeaderOk(lens[..hlit], lens[hlit..hlit + hdist], r2)
  }

  /** The first `n` bytes of a bit string. */
  function BytesOf(bits: BitString, n: nat): (r: Bytes)
    requires |bits| >= 8 * n
    ensures |r| == n
  {
    if n == 0 then []
    else
      assert Value(bits[..8]) < Power2(8) == 256 by { assert Power2(4) == 16; }
      [Value(bits[..8])] + BytesOf(bits[8..], n - 1)
  }

  /** A stored block after its type: byte alignment, length and its complement, bytes. */
  function ParseStored(out: Bytes, cap: nat, bits: BitString): (r: Option<(Bytes, BitString)>)
    ensures r.Some? ==> |r.value.1| <= |bits|
  {
    ParseAligned(out, cap, bits[|bits| % 8..])
  }

  function ParseAligned(out: Bytes, cap: nat, bits: BitString): (r: Option<(Bytes, BitString)>)
    ensures r.Some? ==> |r.value.1| <= |bits|
  {
    match Take(bits, 16)
    case None => None
    case Some((length, r1)) =>
      match Take(r1, 16)
      case None => None
      case Some((complement, r2)) =>
        if length + complement != 0xFFFF || |r2| < 8 * length || |out| + length > cap then None
        else Some((out + BytesOf(r2, length), r2[8 * length..]))
  }

  function FixedLit(): Lengths { Run(8, 144) + Run(9, 112) + Run(7, 24) + Run(8, 8) }
  function FixedDist(): Lengths { Run(5, 32) }

  datatype Outcome = Failed | Overrun | Done(out: Bytes)

  /** The blocks from here to the final one. */
  function InflateFrom(out: Bytes, cap: nat, bits: BitString): Outcome
    decreases |bits|
  {
    match Take(bits, 1)
    case None => Failed
    case Some((final, r1)) =>
      match Take(r1, 2)
      case None => Failed
      case Some((kind, r2)) =>
        match ParseBlock(kind, out, cap, r2)
        case BlockBad => Failed
        case BlockOverrun => Overrun
        case BlockOk(out', r3) => if final == 1 then Done(out') else InflateFrom(out', cap, r3)
  }

  datatype BlockResult = BlockBad | BlockOverrun | BlockOk(out: Bytes, rest: BitString)

  function ParseBlock(kind: nat, out: Bytes, cap: nat, bits: BitString): (r: BlockResult)
    ensures r.BlockOk? ==> |r.rest| <= |bits|
  {
    if kind == 0 then OrBad(ParseStored(out, cap, bits))
    else if kind == 1 then OrBad(ParseTokens(FixedLit(), FixedDist(), out, cap, bits))
    else if kind == 2 then
      match ParseHeader(bits)
      case HeaderBad => BlockBad
      case HeaderOverrun => BlockOverrun
      case HeaderOk(lit, dist, rest) => OrBad(ParseTokens(lit, dist, out, cap, rest))
    else BlockBad
  }

  function OrBad(r: Option<(Bytes, BitString)>): BlockResult {
    if r.Some? then BlockOk(r.value.0, r.value.1) else BlockBad
  }

  // ---------------------------------------------------------------- capacity

  lemma {:induction false} TokensWithin(lit: Lengths, dist: Lengths, out: Bytes, cap: nat, bits: BitString)
    requires |out| <= cap && ParseTokens(lit, dist, out, cap, bits).Some?
    ensures |ParseTokens(lit, dist, out, cap, bits).value.0| <= cap
    decreases |bits|
  {
    hide ParseMatch, ReadSymbol;
    var (sym, r1) := ReadSymbol(lit, bits).value;
    if sym < END_OF_BLOCK {
      TokensWithin(lit, dist, out + [sym], cap, r1);
    } else if sym > END_OF_BLOCK {
      var (length, distance, r2) := ParseMatch(sym - 257, dist, r1).value;
      TokensWithin(lit, dist, CopyMatch(out, distance, length), cap, r2);
    }
  }

  lemma BlockWithin(kind: nat, out: Bytes, cap: nat, bits: BitString)
    requires |out| <= cap && ParseBlock(kind, out, cap, bits).BlockOk?
    ensures |ParseBlock(kind, out, cap, bits).out| <= cap
  {
    hide ParseTokens, ParseHeader, FixedLit, FixedDist, Take;
    if kind == 1 {
      TokensWithin(FixedLit(), FixedDist(), out, cap, bits);
    } else if kind == 2 {
      var h := ParseHeader(bits);
      TokensWithin(h.lit, h.dist, out, cap, h.rest);
    }
  }

  /** No stream, well-formed or not, inflates to more than there is room for. */
  lemma {:induction false} InflateWithin(out: Bytes, cap: nat, bits: BitString)
    requires |out| <= cap && InflateFrom(out, cap, bits).Done?
    ensures |InflateFrom(out, cap, bits).out| <= cap
    decreases |bits|
  {
    hide ParseBlock, Take;
    var (final, r1) := Take(bits, 1).value;
    var (kind, r2) := Take(r1, 2).value;
    BlockWithin(kind, out, cap, r2);
    var b := ParseBlock(kind, out, cap, r2);
    if final != 1 { InflateWithin(b.out, cap, b.rest); }
  }
}
