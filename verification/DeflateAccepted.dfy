/** The converse of `DeflateStream`: whatever the inflater accepts is a written stream, and what it
    returns is what the blocks of that stream expand to. */
module DeflateAccepted {
  import opened Basics
  import opened Bits
  import opened HuffmanCodes
  import opened Deflate
  import opened DeflateEncoding
  import opened DeflateStream

  // ---------------------------------------------------------------- literals and matches

  lemma MatchIsWritten(lit: Lengths, dist: Lengths, lc: nat, bits: BitString) returns (t: Token)
    requires Used(lit, 257 + lc) && ParseMatch(lc, dist, bits).Some?
    ensures var (length, distance, rest) := ParseMatch(lc, dist, bits).value;
            && t.Match? && t.lc == lc && TokenOk(lit, dist, t)
            && MatchLength(t) == length && MatchDistance(t) == distance
            && CodeBits(lit, 257 + lc) + bits == TokenBits(lit, dist, t) + rest
  {
    hide CodeBits, ReadSymbol, LowBits, Power2, LengthBase, LengthExtra, DistanceBase, DistanceExtra, Take;
    LengthTable(lc);
    TakeIsLowBits(bits, LEN_EXTRA[lc]);
    var (le, r1) := Take(bits, LEN_EXTRA[lc]).value;
    ReadIsCode(dist, r1);
    var (dc, r2) := ReadSymbol(dist, r1).value;
    DistanceTable(dc);
    TakeIsLowBits(r2, DIST_EXTRA[dc]);
    var (de, rest) := Take(r2, DIST_EXTRA[dc]).value;
    t := Match(lc, le, dc, de);
    Associate5(CodeBits(lit, 257 + lc), LowBits(le, LengthExtra(lc)), CodeBits(dist, dc),
        LowBits(de, DistanceExtra(dc)), rest);
  }

  lemma TokenThen(lit: Lengths, dist: Lengths, out: Bytes, t: Token, next: Bytes, ts: seq<Token>, rest: BitString)
    requires TokenOk(lit, dist, t) && TokensOk(lit, dist, ts) && Used(lit, END_OF_BLOCK) && InReach(next, ts)
    requires match t
             case Literal(b) => next == out + [b]
             case Match(_, _, _, _) =>
               MatchDistance(t) <= |out| && next == CopyMatch(out, MatchDistance(t), MatchLength(t))
    ensures var all := [t] + ts;
            && TokensOk(lit, dist, all) && InReach(out, all) && Expand(out, all) == Expand(next, ts)
            && TokensBits(lit, dist, all) + rest == TokenBits(lit, dist, t) + (TokensBits(lit, dist, ts) + rest)
  {
    hide TokenOk, TokenBits, CopyMatch, CodeBits;
    var all := [t] + ts;
    assert all[0] == t && all[1..] == ts;
    assert t.Match? ==> t.lc <= 28 && t.dc <= 29 by { CodesInRange(lit, dist, t); }
    Associate(TokenBits(lit, dist, t), TokensBits(lit, dist, ts), rest);
  }

  lemma CodesInRange(lit: Lengths, dist: Lengths, t: Token)
    requires TokenOk(lit, dist, t)
    ensures t.Match? ==> t.lc <= 28 && t.dc <= 29
  {}

  /** Literals and matches that are parsed, with any code, are written ones. */
  lemma {:induction false} TokensAreWritten(lit: Lengths, dist: Lengths, out: Bytes, cap: nat, bits: BitString)
    returns (ts: seq<Token>)
    requires ParseTokens(lit, dist, out, cap, bits).Some?
    ensures var (after, rest) := ParseTokens(lit, dist, out, cap, bits).value;
            && TokensOk(lit, dist, ts) && Used(lit, END_OF_BLOCK) && InReach(out, ts)
            && Expand(out, ts) == after && bits == TokensBits(lit, dist, ts) + rest
    decreases |bits|
  {
    hide CodeBits, ReadSymbol, ParseMatch, TokensOk, InReach, Expand, TokensBits, TokenOk, TokenBits, CopyMatch;
    ReadIsCode(lit, bits);
    var (sym, r1) := ReadSymbol(lit, bits).value;
    if sym < END_OF_BLOCK {
      ts := TokensAreWritten(lit, dist, out + [sym], cap, r1);
      LiteralOk(lit, dist, sym);
      TokenThen(lit, dist, out, Literal(sym), out + [sym], ts, ParseTokens(lit, dist, out, cap, bits).value.1);
      ts := [Literal(sym)] + ts;
    } else if sym == END_OF_BLOCK {
      ts := [];
      NoTokens(lit, dist, out);
    } else {
      var t := MatchIsWritten(lit, dist, sym - 257, r1);
      var (length, distance, r2) := ParseMatch(sym - 257, dist, r1).value;
      ts := TokensAreWritten(lit, dist, CopyMatch(out, distance, length), cap, r2);
      var rest := ParseTokens(lit, dist, out, cap, bits).value.1;
      TokenThen(lit, dist, out, t, CopyMatch(out, distance, length), ts, rest);
      ts := [t] + ts;
    }
  }

  lemma LiteralOk(lit: Lengths, dist: Lengths, b: Byte)
    requires Used(lit, b)
    ensures TokenOk(lit, dist, Literal(b)) && TokenBits(lit, dist, Literal(b)) == CodeBits(lit, b)
  {}

  lemma NoTokens(lit: Lengths, dist: Lengths, out: Bytes)
    requires Used(lit, END_OF_BLOCK)
    ensures TokensOk(lit, dist, []) && InReach(out, []) && Expand(out, []) == out
    ensures TokensBits(lit, dist, []) == CodeBits(lit, END_OF_BLOCK)
  {}

  // ---------------------------------------------------------------- dynamic header

  /** The code lengths of the code length code as they were read. */
  lemma {:induction false} ClAreWritten(cl: Lengths, i: nat, count: nat, bits: BitString)
    requires |cl| == 19 && i <= count <= 19 && ParseCl(cl, i, count, bits).Some?
    requires forall s :: 0 <= s < 19 ==> cl[s] < 8
    ensures var (r, rest) := ParseCl(cl, i, count, bits).value;
            && bits == ClBits(r, i, count) + rest && (forall s :: 0 <= s < 19 ==> r[s] < 8)
            && (forall j :: 0 <= j < i || count <= j < 19 ==> r[SymbolAtPlace(j)] == cl[SymbolAtPlace(j)])
    decreases count - i
  {
    hide LowBits, Take;
    var (r, rest) := ParseCl(cl, i, count, bits).value;
    if i == count {
      assert ClBits(r, i, count) + rest == rest;
    } else {
      SmallPowers();
      OrderOfStandard(i);
      TakeIsLowBits(bits, 3);
      var (v, more) := Take(bits, 3).value;
      var next := cl[ORDER[i] := v];
      ClAreWritten(next, i + 1, count, more);
      OthersKept(cl, next, i, v);
      Associate(LowBits(v, 3), ClBits(r, i + 1, count), rest);
    }
  }

  lemma OthersKept(cl: Lengths, next: Lengths, i: nat, v: nat)
    requires |cl| == 19 && i < 19 && next == cl[SymbolAtPlace(i) := v]
    ensures next[SymbolAtPlace(i)] == v
    ensures forall j :: 0 <= j < 19 && j != i ==> next[SymbolAtPlace(j)] == cl[SymbolAtPlace(j)]
  {
    forall j | 0 <= j < 19 && j != i ensures next[SymbolAtPlace(j)] == cl[SymbolAtPlace(j)] {
      OrderDistinct(i, j);
      OrderOfStandard(i);
      OrderOfStandard(j);
    }
  }

  lemma CountsAreWritten(bits: BitString) returns (a: nat, b: nat, c: nat, rest: BitString)
    requires ParseHeader(bits) != HeaderBad
    ensures a < 32 && b < 32 && c < 16
    ensures bits == LowBits(a, 5) + (LowBits(b, 5) + (LowBits(c, 4) + rest))
    ensures ParseHeader(bits) == ParseLengths(a + 257, b + 1, c + 4, rest)
  {
    hide LowBits, ParseLengths, Take, Power2;
    SmallPowers();
    TakeIsLowBits(bits, 5);
    var r1 := Take(bits, 5).value.1;
    TakeIsLowBits(r1, 5);
    var r2 := Take(r1, 5).value.1;
    TakeIsLowBits(r2, 4);
    a, b, c, rest := Take(bits, 5).value.0, Take(r1, 5).value.0, Take(r2, 4).value.0, Take(r2, 4).value.1;
  }

  /** A header that is read, even one that overruns, is a written one. */
  lemma SentIsWritten(bits: BitString) returns (h: Sent, rest: BitString)
    requires ParseHeader(bits) != HeaderBad
    ensures SentShape(h) && bits == SentBits(h) + rest && ParseHeader(bits) == SentResult(h, rest)
  {
    hide LowBits, ClBits, OpsBits, ParseCl, ParseLens, Transmits, Spelled, OpsOk, ParseHeader;
    var a, b, c, more := CountsAreWritten(bits);
    NothingRead();
    ClAreWritten(Run(0, 19), 0, c + 4, more);
    var (cl, r1) := ParseCl(Run(0, 19), 0, c + 4, more).value;
    var ops, r2 := LensAreOps(cl, a + 257 + (b + 1), [], r1);
    h, rest := Sent(a + 257, b + 1, cl, c + 4, ops), r2;
    assert SentShape(h);
    hide SentShape;
    SplitHeader(LowBits(a, 5), LowBits(b, 5), LowBits(c, 4), ClBits(cl, 0, c + 4), OpsBits(cl, ops), rest);
    Associate(ClBits(cl, 0, c + 4), OpsBits(cl, ops), rest);
  }

  lemma NothingRead()
    ensures forall s :: 0 <= s < 19 ==> Run(0, 19)[s] == 0
  {}

  lemma HeaderIsWritten(bits: BitString) returns (h: Header)
    requires ParseHeader(bits).HeaderOk?
    ensures HeaderShape(h) && h.lit == ParseHeader(bits).lit && h.dist == ParseHeader(bits).dist
    ensures bits == HeaderBits(h) + ParseHeader(bits).rest
  {
    hide ParseHeader, SentBits, SentLengths;
    var s, rest := SentIsWritten(bits);
    hide SentShape;
    var all := SentLengths(s);
    SentSize(s);
    h := Header(all[..s.hlit], all[s.hlit..s.hlit + s.hdist], s);
    assert h.lit + h.dist == all[..s.hlit + s.hdist];
  }

  lemma SentSize(s: Sent)
    requires SentShape(s)
    ensures |SentLengths(s)| >= s.hlit + s.hdist
  {}

  // ---------------------------------------------------------------- blocks

  lemma StoredIsWritten(o: nat, out: Bytes, cap: nat, bits: BitString) returns (b: Block)
    requires ParseStored(out, cap, bits).Some? && (o + |bits|) % 8 == 0
    ensures var (after, rest) := ParseStored(out, cap, bits).value;
            && b.Stored? && BlockShape(o, out, b) && ExpandBlock(o, out, b) == after
            && bits == BodyBits(o, out, b) + rest
  {
    hide LowBits, BitsOf, BytesOf, Take, Power2;
    LargePowers();
    var padding, r0 := bits[..|bits| % 8], bits[|bits| % 8..];
    TakeIsLowBits(r0, 16);
    var (n, r1) := Take(r0, 16).value;
    TakeIsLowBits(r1, 16);
    var (m, r2) := Take(r1, 16).value;
    var data, rest := BytesOf(r2, n), r2[8 * n..];
    FirstBytes(r2, n);
    b := Stored(padding, data);
    assert bits == padding + r0;
    PaddingAligns(o, |bits|);
    Associate5(padding, LowBits(n, 16), LowBits(m, 16), BitsOf(data), rest);
  }

  lemma PaddingAligns(o: nat, n: nat)
    requires (o + n) % 8 == 0
    ensures (o + n % 8) % 8 == 0
  {}

  lemma {:induction false} FirstBytes(bits: BitString, n: nat)
    requires |bits| >= 8 * n
    ensures bits == BitsOf(BytesOf(bits, n)) + bits[8 * n..]
  {
    if n == 0 {
      assert [] + bits == bits;
    } else {
      FirstBytes(bits[8..], n - 1);
      hide LowBits, Value, Power2;
      LowBitsOfValue(bits[..8]);
      var data := BytesOf(bits[8..], n - 1);
      assert bits[8..][8 * (n - 1)..] == bits[8 * n..];
      Associate(bits[..8], BitsOf(data), bits[8 * n..]);
      assert bits == bits[..8] + bits[8..];
    }
  }

  lemma BlockIsWritten(o: nat, kind: nat, out: Bytes, cap: nat, bits: BitString) returns (b: Block)
    requires ParseBlock(kind, out, cap, bits).BlockOk? && (o + |bits|) % 8 == 0
    ensures var r := ParseBlock(kind, out, cap, bits);
            && BlockShape(o, out, b) && Kind(b) == kind && ExpandBlock(o, out, b) == r.out
            && bits == BodyBits(o, out, b) + r.rest
  {
    hide ParseStored, ParseTokens, ParseHeader, TokensOk, InReach, Expand, TokensBits, FixedLit, FixedDist,
         HeaderBits, HeaderShape;
    if kind == 0 {
      b := StoredIsWritten(o, out, cap, bits);
    } else if kind == 1 {
      var ts := TokensAreWritten(FixedLit(), FixedDist(), out, cap, bits);
      b := Fixed(ts);
    } else {
      var h := HeaderIsWritten(bits);
      var r := ParseHeader(bits);
      var ts := TokensAreWritten(h.lit, h.dist, out, cap, r.rest);
      b := Dynamic(h, ts);
      Associate(HeaderBits(h), TokensBits(h.lit, h.dist, ts), ParseBlock(kind, out, cap, bits).rest);
    }
  }

  // ---------------------------------------------------------------- streams

  /** `bits` are the written blocks with `tail` behind them, and `after` is what the blocks expand to. */
  ghost predicate Written(o: nat, out: Bytes, bits: BitString, blocks: seq<Block>, tail: BitString, after: Bytes) {
    && StreamShape(o, out, blocks) && bits == StreamBits(o, out, blocks) + tail && after == ExpandBlocks(o, out, blocks)
  }

  lemma BlockHead(out: Bytes, cap: nat, bits: BitString) returns (final: nat, kind: nat, rest: BitString)
    requires InflateFrom(out, cap, bits).Done?
    ensures final < 2 && bits == LowBits(final, 1) + (LowBits(kind, 2) + rest) && |rest| + 3 == |bits|
    ensures var r := ParseBlock(kind, out, cap, rest);
            && r.BlockOk?
            && InflateFrom(out, cap, bits) == if final == 1 then Done(r.out) else InflateFrom(r.out, cap, r.rest)
  {
    hide LowBits, ParseBlock, Take, Power2;
    SmallPowers();
    TakeIsLowBits(bits, 1);
    var r1 := Take(bits, 1).value.1;
    TakeIsLowBits(r1, 2);
    final, kind, rest := Take(bits, 1).value.0, Take(r1, 2).value.0, Take(r1, 2).value.1;
  }

  /** Whatever inflates is a list of blocks as the standard writes them, with the bits behind the
      final one ignored, and inflates to what they expand to. */
  lemma {:induction false} AcceptedIsWritten(o: nat, out: Bytes, cap: nat, bits: BitString)
    returns (blocks: seq<Block>, tail: BitString)
    requires InflateFrom(out, cap, bits).Done? && (o + |bits|) % 8 == 0
    ensures Written(o, out, bits, blocks, tail, InflateFrom(out, cap, bits).out)
    decreases |bits|
  {
    hide LowBits, ParseBlock, InflateFrom, BlockShape, ExpandBlock, Kind, BodyBits;
    var final, kind, rest := BlockHead(out, cap, bits);
    var r := ParseBlock(kind, out, cap, rest);
    var b := BlockIsWritten(o + 3, kind, out, cap, rest);
    var body := BodyBits(o + 3, out, b);
    if final == 1 {
      blocks, tail := [b], r.rest;
      Associate4(LowBits(1, 1), LowBits(kind, 2), body, tail);
    } else {
      var more;
      more, tail := AcceptedIsWritten(o + 3 + |body|, r.out, cap, r.rest);
      blocks := [b] + more;
      assert blocks[1..] == more;
      Associate5(LowBits(0, 1), LowBits(kind, 2), body, StreamBits(o + 3 + |body|, r.out, more), tail);
    }
  }

  /** Data inflates to `o` exactly if it is a stream of blocks that expand to `o` and fit; a stream
      whose codes are over-subscribed is ambiguous, so that the converse holds for the others. */
  lemma InflateExact(src: Bytes, cap: nat, o: Bytes)
    ensures InflateFrom([], cap, BitsOf(src)) == Done(o) ==>
              |o| <= cap && exists blocks, tail :: Written(0, [], BitsOf(src), blocks, tail, o)
    ensures |o| <= cap && (exists blocks, tail ::
              Written(0, [], BitsOf(src), blocks, tail, o) && forall i :: 0 <= i < |blocks| ==> Proper(blocks[i])) ==>
              InflateFrom([], cap, BitsOf(src)) == Done(o)
  {
    hide InflateFrom, BitsOf, StreamShape, StreamBits, ExpandBlocks, Proper;
    var bits := BitsOf(src);
    if InflateFrom([], cap, bits) == Done(o) {
      InflateWithin([], cap, bits);
      var blocks, tail := AcceptedIsWritten(0, [], cap, bits);
    }
    if |o| <= cap {
      forall blocks, tail |
        Written(0, [], bits, blocks, tail, o) && forall i :: 0 <= i < |blocks| ==> Proper(blocks[i])
        ensures InflateFrom([], cap, bits) == Done(o)
      {
        InflateStream(0, [], blocks, cap, tail);
      }
    }
  }
}
