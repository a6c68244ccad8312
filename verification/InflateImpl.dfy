/** The inflater of src/raw_inflate.hpp, proved against the parser in `Deflate`. */
module InflateImpl {
  import opened Basics
  import opened Bits
  import opened BitReading
  import opened HuffmanCodes
  import opened HuffmanImpl
  import opened Deflate
  import opened DeflateEncoding
  import opened DeflateStream

  method MakeFixedLitlenHuff() returns (h: Huff)
    ensures fresh(h.Repr()) && h.Describes(FixedLit())
  {
    var lens := new nat[288];
    for i := 0 to 144
      invariant forall j :: 0 <= j < i ==> lens[j] == 8
    { lens[i] := 8; }
    for i := 144 to 256
      invariant lens[..144] == Run(8, 144) && forall j :: 144 <= j < i ==> lens[j] == 9
    { lens[i] := 9; }
    for i := 256 to 280
      invariant lens[..256] == Run(8, 144) + Run(9, 112) && forall j :: 256 <= j < i ==> lens[j] == 7
    { lens[i] := 7; }
    for i := 280 to 288
      invariant lens[..280] == Run(8, 144) + Run(9, 112) + Run(7, 24) && forall j :: 280 <= j < i ==> lens[j] == 8
    { lens[i] := 8; }
    h := new Huff();
    assert lens[..] == FixedLit();
    FixedRuns();
    h.Build(lens[..]);
  }

  method MakeFixedDistHuff() returns (h: Huff)
    ensures fresh(h.Repr()) && h.Describes(FixedDist())
  {
    var lens := new nat[32];
    for i := 0 to 32
      invariant forall j :: 0 <= j < i ==> lens[j] == 5
    { lens[i] := 5; }
    h := new Huff();
    assert lens[..] == FixedDist();
    h.Build(lens[..]);
  }

  // ---------------------------------------------------------------- dynamic header

  /** The lengths of the code length code. */
  method ReadClen(br: BitReader, hclen: nat) returns (ok: bool, clen: array<nat>)
    requires br.Valid() && br.bits < 8 && hclen <= 19
    modifies br
    ensures br.Valid() && br.bits < 8 && fresh(clen)
    ensures match ParseCl(Run(0, 19), 0, hclen, old(br.Rest()))
            case None => !ok
            case Some((cl, rest)) => ok && clen[..] == cl && br.Rest() == rest && InRange(cl)
  {
    hide LowBits, BitsOf, Take, Power2;
    clen := new nat[19](_ => 0);
    assert clen[..] == Run(0, 19);
    for i := 0 to hclen
      invariant br.Valid() && br.bits < 8 && InRange(clen[..])
      invariant ParseCl(clen[..], i, hclen, br.Rest()) == ParseCl(Run(0, 19), 0, hclen, old(br.Rest()))
    {
      var v := br.Get(3);
      EightValues();
      if v == UINT32_MAX { return false, clen; }
      ghost var before := clen[..];
      clen[ORDER[i]] := v;
      assert clen[..] == before[ORDER[i] := v];
    }
    ok := true;
  }

  lemma EightValues()
    ensures Power2(2) == 4 && Power2(3) == 8 && Power2(7) == 128
  {
    SmallPowers();
  }

  method FillRun(lens: array<nat>, start: nat, v: nat, count: nat)
    requires start + count <= lens.Length
    modifies lens
    ensures lens[..start + count] == old(lens[..start]) + Run(v, count)
  {
    var i, rep := start, count;
    while rep > 0
      invariant start <= i && i + rep == start + count
      invariant lens[..start] == old(lens[..start]) && forall k :: start <= k < i ==> lens[k] == v
    {
      lens[i] := v;
      rep := rep - 1;
      i := i + 1;
    }
  }

  /** The transmitted code lengths. Repeats past the end of `lens` are not guarded against. */
  method ReadLengths(br: BitReader, cl: Huff, ghost codes: Lengths, n: nat) returns (ok: bool, lens: array<nat>)
    requires cl.Describes(codes) && br.Valid() && br.bits < 8 && br !in cl.Repr() && n <= MAX_LENS
    requires ParseLens(codes, n, [], br.Rest()) != LensOverrun
    modifies br
    ensures br.Valid() && br.bits < 8 && fresh(lens) && lens.Length == MAX_LENS
    ensures match ParseLens(codes, n, [], old(br.Rest()))
            case LensBad => !ok
            case LensOk(all, rest) =>
              && ok && |all| <= MAX_LENS && lens[..|all|] == all && InRange(all)
              && br.Rest() == rest
            case LensOverrun => true
  {
    hide LowBits, BitsOf, Take, Power2, ReadSymbol, RunFor, ParseLens;
    lens := new nat[MAX_LENS](_ => 0);
    var i: nat := 0;
    while i < n
      invariant br.Valid() && br.bits < 8 && i <= MAX_LENS == lens.Length && InRange(lens[..i])
      invariant cl.Describes(codes)
      invariant ParseLens(codes, n, lens[..i], br.Rest()) == ParseLens(codes, n, [], old(br.Rest()))
      decreases |br.Rest()|
    {
      ghost var have, bits := lens[..i], br.Rest();
      var sym := cl.Decode(br, codes);
      LensStep(codes, n, have, bits);
      if sym < 0 { return false, lens; }
      if sym < 16 {
        lens[i] := sym;
        i := i + 1;
        assert lens[..i] == have + [sym];
      } else {
        var run, v, rep := ReadRun(br, sym, lens, i);
        if !run { return false, lens; }
        FillRun(lens, i, v, rep);
        i := i + rep;
        RunInRange(have, v, rep);
      }
    }
    LensDone(codes, n, lens[..i], br.Rest());
    ok := true;
  }

  lemma LensDone(codes: Lengths, n: nat, have: Lengths, bits: BitString)
    requires |have| >= n
    ensures ParseLens(codes, n, have, bits) == LensOk(have, bits)
  {}

  lemma LensStep(codes: Lengths, n: nat, have: Lengths, bits: BitString)
    requires |have| < n
    ensures ParseLens(codes, n, have, bits)
         == match ReadSymbol(codes, bits)
            case None => LensBad
            case Some((sym, r1)) =>
              if sym < 16 then ParseLens(codes, n, have + [sym], r1)
              else
                match RunFor(sym, have, r1)
                case None => LensBad
                case Some((l, count, r2)) =>
                  if |have| + count > MAX_LENS then LensOverrun else ParseLens(codes, n, have + Run(l, count), r2)
  {}

  lemma RunInRange(have: Lengths, v: nat, n: nat)
    requires InRange(have) && v <= MAXBITS
    ensures InRange(have + Run(v, n))
  {}

  /** What a repeat symbol repeats and how often. */
  method ReadRun(br: BitReader, sym: nat, lens: array<nat>, i: nat) returns (ok: bool, v: nat, rep: nat)
    requires br.Valid() && br.bits < 8 && i <= lens.Length && InRange(lens[..i])
    modifies br
    ensures br.Valid() && br.bits < 8
    ensures match RunFor(sym, lens[..i], old(br.Rest()))
            case None => !ok
            case Some((l, count, rest)) => ok && v == l <= MAXBITS && rep == count && br.Rest() == rest
  {
    hide LowBits, BitsOf, Take, Power2;
    EightValues();
    v := 0;
    if sym == 16 {
      rep := br.Get(2);
      if rep == UINT32_MAX { return false, 0, 0; }
      rep := rep + 3;
      if i == 0 { return false, 0, 0; }
      assert lens[..i][i - 1] == lens[i - 1];
      v := lens[i - 1];
    } else if sym == 17 {
      rep := br.Get(3);
      if rep == UINT32_MAX { return false, 0, 0; }
      rep := rep + 3;
    } else if sym == 18 {
      rep := br.Get(7);
      if rep == UINT32_MAX { return false, 0, 0; }
      rep := rep + 11;
    } else {
      return false, 0, 0;
    }
    ok := true;
  }

  /** The code tables of a dynamic block. */
  method ReadHeader(br: BitReader) returns (ok: bool, lit: Huff, dist: Huff)
    requires br.Valid() && br.bits < 8 && ParseHeader(br.Rest()) != HeaderOverrun
    modifies br
    ensures br.Valid() && br.bits < 8 && fresh(lit.Repr()) && fresh(dist.Repr())
    ensures match ParseHeader(old(br.Rest()))
            case HeaderBad => !ok
            case HeaderOk(litLens, distLens, rest) =>
              ok && lit.Describes(litLens) && dist.Describes(distLens) && br.Rest() == rest
            case HeaderOverrun => true
  {
    hide LowBits, BitsOf, Take, Power2, ParseCl, ParseLens, Huff.Describes;
    lit := new Huff();
    dist := new Huff();
    HeaderValues();
    ok := false;
    var hlit := br.Get(5);
    if hlit == UINT32_MAX { return; }
    hlit := hlit + 257;
    var hdist := br.Get(5);
    if hdist == UINT32_MAX { return; }
    hdist := hdist + 1;
    var hclen := br.Get(4);
    if hclen == UINT32_MAX { return; }
    hclen := hclen + 4;
    ok := ReadTables(br, hlit, hdist, hclen, lit, dist);
  }

  lemma HeaderValues()
    ensures Power2(4) == 16 && Power2(5) == 32
  {
    SmallPowers();
  }

  method ReadTables(br: BitReader, hlit: nat, hdist: nat, hclen: nat, lit: Huff, dist: Huff) returns (ok: bool)
    requires br.Valid() && br.bits < 8 && lit.Shape() && dist.Shape() && lit.Repr() !! dist.Repr()
    requires br !in lit.Repr() && br !in dist.Repr()
    requires hlit <= 288 && hdist <= 32 && hclen <= 19 && ParseLengths(hlit, hdist, hclen, br.Rest()) != HeaderOverrun
    modifies br, lit.Repr(), dist.Repr()
    ensures br.Valid() && br.bits < 8
    ensures match ParseLengths(hlit, hdist, hclen, old(br.Rest()))
            case HeaderBad => !ok
            case HeaderOk(litLens, distLens, rest) =>
              ok && lit.Describes(litLens) && dist.Describes(distLens) && br.Rest() == rest
            case HeaderOverrun => true
  {
    hide LowBits, BitsOf, Take, Power2, ParseCl, ParseLens, Huff.Describes;
    var read, clen := ReadClen(br, hclen);
    if !read { return false; }
    var cl := new Huff();
    cl.Build(clen[..]);
    var done, lens := ReadLengths(br, cl, clen[..], hlit + hdist);
    if !done { return false; }
    ghost var all := ParseLens(clen[..], hlit + hdist, [], ParseCl(Run(0, 19), 0, hclen, old(br.Rest())).value.1).lens;
    assert lens[..hlit] == all[..hlit] && lens[hlit..hlit + hdist] == all[hlit..hlit + hdist];
    lit.Build(lens[..hlit]);
    dist.Build(lens[hlit..hlit + hdist]);
    ok := true;
  }

  // ---------------------------------------------------------------- blocks

  /** A stored block, copied straight from the input once the reader stands on a byte boundary. */
  method InflateStored(br: BitReader, dst: array<Byte>, start: nat) returns (ok: bool, out: nat)
    requires br.Valid() && br.bits < 8 && start <= dst.Length
    modifies br, dst
    ensures br.Valid() && (ok ==> br.bits < 8) && out <= dst.Length
    ensures match ParseStored(old(dst[..start]), dst.Length, old(br.Rest()))
            case None => !ok
            case Some((o, rest)) => ok && dst[..out] == o && br.Rest() == rest
  {
    hide LowBits, BitsOf, Take, Power2, BytesOf;
    out := start;
    ghost var aligned := br.Rest()[|br.Rest()| % 8..];
    br.AlignByte();
    TakeShort(aligned, 16);
    ok := br.Ensure(16);
    if !ok { return; }
    var length := br.Get(16);
    ghost var r1 := br.Rest();
    var complement := br.Get(16);
    SixteenBits();
    if length == UINT32_MAX || complement == UINT32_MAX || 0xFFFF - length != complement { return false, out; }
    assert br.bits == 0;
    AlignedRest(br.acc, br.data, br.p);
    if |br.data| - br.p < length || out + length > dst.Length { return false, out; }
    CopyAcross(br, dst, start, length);
    out := out + length;
    ok := true;
  }

  /** `memcpy` from the reader, which stands on a byte boundary. */
  method CopyAcross(br: BitReader, dst: array<Byte>, out: nat, length: nat)
    requires br.Valid() && br.bits == 0 && |br.data| - br.p >= length && out + length <= dst.Length
    modifies br, dst
    ensures br.Valid() && br.bits == 0
    ensures dst[..out + length] == old(dst[..out]) + old(BytesOf(br.Rest(), length))
    ensures br.Rest() == old(br.Rest()[8 * length..])
  {
    hide LowBits, BitsOf, BytesOf, Power2;
    AlignedRest(br.acc, br.data, br.p);
    StoredBytes(br.data, br.p, length);
    forall k | 0 <= k < length { dst[out + k] := br.data[br.p + k]; }
    assert dst[..out + length] == old(dst[..out]) + br.data[br.p..br.p + length];
    br.p := br.p + length;
    AlignedRest(br.acc, br.data, br.p);
  }

  lemma TakeShort(s: BitString, n: nat)
    ensures Take(s, n).None? <==> |s| < n
  {}

  lemma SixteenBits()
    ensures Power2(16) == 0x10000
  {
    LargePowers();
  }

  lemma AlignedRest(acc: nat, data: seq<Byte>, p: nat)
    requires p <= |data|
    ensures LowBits(acc, 0) + BitsOf(data[p..]) == BitsOf(data[p..])
  {}

  lemma StoredBytes(data: seq<Byte>, p: nat, n: nat)
    requires p + n <= |data|
    ensures BytesOf(BitsOf(data[p..]), n) == data[p..p + n]
    ensures BitsOf(data[p..])[8 * n..] == BitsOf(data[p + n..])
  {
    assert data[p..] == data[p..p + n] + data[p + n..];
    BitsOfJoin(data[p..p + n], data[p + n..]);
    BytesOfBits(data[p..p + n], BitsOf(data[p + n..]));
  }

  /** Length and distance of a match. */
  method ReadMatch(br: BitReader, lengthCode: int, dist: Huff, ghost distLens: Lengths)
    returns (ok: bool, length: nat, distance: nat)
    requires br.Valid() && br.bits < 8 && dist.Describes(distLens) && br !in dist.Repr() && lengthCode >= 0
    modifies br
    ensures br.Valid() && (ok ==> br.bits < 8)
    ensures match ParseMatch(lengthCode, distLens, old(br.Rest()))
            case None => !ok
            case Some((l, d, rest)) => ok && length == l && distance == d && br.Rest() == rest
  {
    hide LowBits, BitsOf, Take, Power2, ReadSymbol;
    ok, length, distance := false, 0, 0;
    if lengthCode > 28 { return; }
    ExtraFits(lengthCode, 0);
    ghost var r0 := br.Rest();
    var extra := br.Get(LEN_EXTRA[lengthCode]);
    TakeShort(r0, LEN_EXTRA[lengthCode]);
    if LEN_EXTRA[lengthCode] != 0 && extra == UINT32_MAX { return; }
    length := LEN_BASE[lengthCode] + if LEN_EXTRA[lengthCode] != 0 then extra else 0;
    var dsym := dist.Decode(br, distLens);
    if dsym < 0 || dsym > 29 { return; }
    ExtraFits(0, dsym);
    ghost var r2 := br.Rest();
    var dextra := br.Get(DIST_EXTRA[dsym]);
    TakeShort(r2, DIST_EXTRA[dsym]);
    if DIST_EXTRA[dsym] != 0 && dextra == UINT32_MAX { return; }
    distance := DIST_BASE[dsym] + if DIST_EXTRA[dsym] != 0 then dextra else 0;
    ok := true;
  }

  lemma ExtraFits(lc: nat, dc: nat)
    requires lc <= 28 && dc <= 29
    ensures LEN_EXTRA[lc] <= 5 && DIST_EXTRA[dc] <= 13
    ensures Power2(LEN_EXTRA[lc]) <= 8192 && Power2(DIST_EXTRA[dc]) <= 8192
    ensures Power2(0) == 1
  {
    hide Power2;
    SmallPowers();
    PowerMonotone(LEN_EXTRA[lc], 13);
    PowerMonotone(DIST_EXTRA[dc], 13);
  }

  /** Byte by byte, so that a match longer than its distance repeats what it has just written. */
  method CopyBack(dst: array<Byte>, start: nat, distance: nat, length: nat)
    requires 0 < distance <= start && start + length <= dst.Length
    modifies dst
    ensures dst[..start + length] == CopyMatch(old(dst[..start]), distance, length)
  {
    var out := start;
    for k := 0 to length
      invariant out == start + k
      invariant CopyMatch(dst[..out], distance, length - k) == CopyMatch(old(dst[..start]), distance, length)
    {
      ghost var before := dst[..out];
      dst[out] := dst[out - distance];
      out := out + 1;
      assert dst[..out] == before + [before[|before| - distance]];
    }
  }

  /** Literals and matches up to the end of the block. */
  method InflateTokens(br: BitReader, lit: Huff, dist: Huff, dst: array<Byte>, start: nat,
                       ghost litLens: Lengths, ghost distLens: Lengths)
    returns (ok: bool, out: nat)
    requires br.Valid() && br.bits < 8 && start <= dst.Length
    requires lit.Describes(litLens) && dist.Describes(distLens)
    requires br !in lit.Repr() && br !in dist.Repr() && dst !in lit.Repr() && dst !in dist.Repr()
    modifies br, dst
    ensures br.Valid() && (ok ==> br.bits < 8) && out <= dst.Length
    ensures match ParseTokens(litLens, distLens, old(dst[..start]), dst.Length, old(br.Rest()))
            case None => !ok
            case Some((o, rest)) => ok && dst[..out] == o && br.Rest() == rest
  {
    hide LowBits, BitsOf, Take, Power2, ReadSymbol, ParseMatch, ParseTokens, Huff.Describes, CopyMatch;
    out := start;
    while true
      invariant br.Valid() && br.bits < 8 && out <= dst.Length
      invariant lit.Describes(litLens) && dist.Describes(distLens)
      invariant ParseTokens(litLens, distLens, dst[..out], dst.Length, br.Rest())
             == ParseTokens(litLens, distLens, old(dst[..start]), dst.Length, old(br.Rest()))
      decreases |br.Rest()|
    {
      ghost var have, bits := dst[..out], br.Rest();
      TokensStep(litLens, distLens, have, dst.Length, bits);
      var sym := lit.Decode(br, litLens);
      if sym < 0 { return false, out; }
      if sym < 256 {
        if out >= dst.Length { return false, out; }
        dst[out] := sym;
        out := out + 1;
        assert dst[..out] == have + [sym];
      } else if sym == 256 {
        return true, out;
      } else {
        var read, length, distance := ReadMatch(br, sym - 257, dist, distLens);
        if !read || distance > out || out + length > dst.Length { return false, out; }
        CopyBack(dst, out, distance, length);
        out := out + length;
      }
    }
  }

  lemma TokensStep(lit: Lengths, dist: Lengths, out: Bytes, cap: nat, bits: BitString)
    ensures ParseTokens(lit, dist, out, cap, bits)
         == match ReadSymbol(lit, bits)
            case None => None
            case Some((sym, r1)) =>
              if sym < END_OF_BLOCK then
                if |out| >= cap then None else ParseTokens(lit, dist, out + [sym], cap, r1)
              else if sym == END_OF_BLOCK then Some((out, r1))
              else
                match ParseMatch(sym - 257, dist, r1)
                case None => None
                case Some((length, distance, r2)) =>
                  if distance > |out| || |out| + length > cap then None
                  else ParseTokens(lit, dist, CopyMatch(out, distance, length), cap, r2)
  {}

  // ---------------------------------------------------------------- inflate_raw

  /** Inflates `src` into `dst` and returns the number of bytes written, 0 on failure. The tables
      of the fixed codes are built once, before the first call. */
  method InflateRaw(src: Bytes, dst: array<Byte>, fixedLit: Huff, fixedDist: Huff) returns (size: nat)
    requires fixedLit.Describes(FixedLit()) && fixedDist.Describes(FixedDist())
    requires dst !in fixedLit.Repr() && dst !in fixedDist.Repr()
    requires InflateFrom([], dst.Length, BitsOf(src)) != Overrun
    modifies dst
    ensures match InflateFrom([], dst.Length, BitsOf(src))
            case Done(o) => size == |o| <= dst.Length && dst[..size] == o
            case Failed => size == 0
            case Overrun => true
  {
    hide LowBits, BitsOf, Take, Power2, InflateFrom, ParseBlock, Huff.Describes, FixedLit, FixedDist;
    var br := new BitReader(src);
    var out: nat := 0;
    assert dst[..0] == [];
    while true
      invariant br.Valid() && br.bits < 8 && out <= dst.Length
      invariant fixedLit.Describes(FixedLit()) && fixedDist.Describes(FixedDist())
      invariant InflateFrom(dst[..out], dst.Length, br.Rest()) == InflateFrom([], dst.Length, BitsOf(src))
      decreases |br.Rest()|
    {
      BlockStep(dst[..out], dst.Length, br.Rest());
      OneOrTwoBits();
      var bfinal := br.Get(1);
      var btype := br.Get(2);
      if bfinal == UINT32_MAX || btype == UINT32_MAX { return 0; }
      var ok;
      ok, out := InflateBlock(br, btype, fixedLit, fixedDist, dst, out);
      if !ok { return 0; }
      if bfinal != 0 { return out; }
    }
  }

  lemma OneOrTwoBits()
    ensures Power2(1) == 2 && Power2(2) == 4
  {
    SmallPowers();
  }

  lemma BlockStep(out: Bytes, cap: nat, bits: BitString)
    ensures InflateFrom(out, cap, bits)
         == match Take(bits, 1)
            case None => Failed
            case Some((final, r1)) =>
              match Take(r1, 2)
              case None => Failed
              case Some((kind, r2)) =>
                match ParseBlock(kind, out, cap, r2)
                case BlockBad => Failed
                case BlockOverrun => Overrun
                case BlockOk(out', r3) => if final == 1 then Done(out') else InflateFrom(out', cap, r3)
  {}

  /** One block after its header bits. */
  method InflateBlock(br: BitReader, btype: nat, fixedLit: Huff, fixedDist: Huff, dst: array<Byte>, start: nat)
    returns (ok: bool, out: nat)
    requires fixedLit.Describes(FixedLit()) && fixedDist.Describes(FixedDist())
    requires dst !in fixedLit.Repr() && dst !in fixedDist.Repr() && br !in fixedLit.Repr() && br !in fixedDist.Repr()
    requires br.Valid() && br.bits < 8 && start <= dst.Length
    requires ParseBlock(btype, dst[..start], dst.Length, br.Rest()) != BlockOverrun
    modifies br, dst
    ensures br.Valid() && (ok ==> br.bits < 8) && out <= dst.Length
    ensures match ParseBlock(btype, old(dst[..start]), dst.Length, old(br.Rest()))
            case BlockBad => !ok
            case BlockOk(o, rest) => ok && dst[..out] == o && br.Rest() == rest
            case BlockOverrun => true
  {
    hide LowBits, BitsOf, Take, Power2, ParseTokens, ParseStored, ParseHeader, Huff.Describes, FixedLit, FixedDist;
    if btype == 0 {
      ok, out := InflateStored(br, dst, start);
    } else if btype == 1 {
      ok, out := InflateTokens(br, fixedLit, fixedDist, dst, start, FixedLit(), FixedDist());
    } else if btype == 2 {
      ghost var header := ParseHeader(br.Rest());
      var read, lit, dist := ReadHeader(br);
      if !read { return false, start; }
      ok, out := InflateTokens(br, lit, dist, dst, start, header.lit, header.dist);
    } else {
      ok, out := false, start;
    }
  }
}
