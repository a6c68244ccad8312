/** Writing DEFLATE blocks as bits (RFC 1951), and the theorem that parsing inverts it. */
module DeflateEncoding {
  import opened Basics
  import opened Bits
  import opened HuffmanCodes
  import opened Deflate

  // ---------------------------------------------------------------- literals and matches

  /** A literal byte, or a match as its length code and distance code with their extra bits. */
  datatype Token = Literal(b: Byte) | Match(lc: nat, le: nat, dc: nat, de: nat)

  predicate Used(lens: Lengths, sym: nat) {
    sym < |lens| && lens[sym] > 0
  }

  // Section 3.2.5: codes for lengths from 3 and distances from 1, in groups that double in width.

  function LengthExtra(lc: nat): (n: nat)
    requires lc <= 28
    ensures n <= 5
  {
    if lc < 8 || lc == 28 then 0 else (lc - 4) / 4
  }

  function LengthBase(lc: nat): (n: nat)
    requires lc <= 28
    ensures n >= 3
  {
    if lc < 8 then 3 + lc else if lc == 28 then 258 else 3 + (4 + lc % 4) * Power2(LengthExtra(lc))
  }

  function DistanceExtra(dc: nat): (n: nat)
    requires dc <= 29
    ensures n <= 13
  {
    if dc < 4 then 0 else (dc - 2) / 2
  }

  function DistanceBase(dc: nat): (n: nat)
    requires dc <= 29
    ensures n >= 1
  {
    if dc < 4 then 1 + dc else 1 + (2 + dc % 2) * Power2(DistanceExtra(dc))
  }

  /** The length table of the source is that of the standard. */
  lemma LengthTable(lc: nat)
    requires lc <= 28
    ensures LEN_EXTRA[lc] == LengthExtra(lc) && LEN_BASE[lc] == LengthBase(lc)
  {
    SmallPowers();
    hide Power2;
  }

  /** So is the distance table. */
  lemma DistanceTable(dc: nat)
    requires dc <= 29
    ensures DIST_EXTRA[dc] == DistanceExtra(dc) && DIST_BASE[dc] == DistanceBase(dc)
  {
    if dc < 16 { ShortDistances(dc); } else { LongDistances(dc); }
  }

  lemma ShortDistances(dc: nat)
    requires dc < 16
    ensures DIST_EXTRA[dc] == DistanceExtra(dc) && DIST_BASE[dc] == DistanceBase(dc)
  {
    SmallPowers();
    hide Power2;
  }

  lemma LongDistances(dc: nat)
    requires 16 <= dc <= 29
    ensures DIST_EXTRA[dc] == DistanceExtra(dc) && DIST_BASE[dc] == DistanceBase(dc)
  {
    SmallPowers();
    hide Power2;
  }

  predicate TokenOk(lit: Lengths, dist: Lengths, t: Token) {
    match t
    case Literal(b) => Used(lit, b)
    case Match(lc, le, dc, de) =>
      && lc <= 28 && Used(lit, 257 + lc) && le < Power2(LengthExtra(lc))
      && dc <= 29 && Used(dist, dc) && de < Power2(DistanceExtra(dc))
  }

  function TokenBits(lit: Lengths, dist: Lengths, t: Token): BitString
    requires TokenOk(lit, dist, t)
  {
    match t
    case Literal(b) => CodeBits(lit, b)
    case Match(lc, le, dc, de) =>
      CodeBits(lit, 257 + lc) + (LowBits(le, LengthExtra(lc)) + (CodeBits(dist, dc) + LowBits(de, DistanceExtra(dc))))
  }

  function MatchLength(t: Token): (n: nat)
    requires t.Match? && t.lc <= 28
    ensures n >= 3
  {
    LengthBase(t.lc) + t.le
  }

  function MatchDistance(t: Token): (n: nat)
    requires t.Match? && t.dc <= 29
    ensures n >= 1
  {
    DistanceBase(t.dc) + t.de
  }

  /** Every length from 3 to 258 and every distance from 1 to 32768 can be written. */
  lemma EveryMatchHasCodes(length: nat, distance: nat) returns (t: Token)
    requires 3 <= length <= 258 && 1 <= distance <= 32768
    ensures t.Match? && t.lc <= 28 && t.dc <= 29
    ensures MatchLength(t) == length && t.le < Power2(LengthExtra(t.lc))
    ensures MatchDistance(t) == distance && t.de < Power2(DistanceExtra(t.dc))
  {
    var lc, dc := 28, 29;
    while LEN_BASE[lc] > length
      invariant lc <= 28 && (lc < 28 ==> length < LEN_BASE[lc + 1])
      decreases lc
    {
      lc := lc - 1;
    }
    while DIST_BASE[dc] > distance
      invariant dc <= 29 && (dc < 29 ==> distance < DIST_BASE[dc + 1])
      decreases dc
    {
      dc := dc - 1;
    }
    CodesAreContiguous(lc, dc);
    LengthTable(lc);
    DistanceTable(dc);
    t := Match(lc, length - LEN_BASE[lc], dc, distance - DIST_BASE[dc]);
  }

  /** A length or distance code reaches at least to the next code. */
  lemma CodesAreContiguous(lc: nat, dc: nat)
    requires lc <= 28 && dc <= 29
    ensures lc < 28 ==> LEN_BASE[lc + 1] <= LEN_BASE[lc] + Power2(LEN_EXTRA[lc])
    ensures lc == 28 ==> LEN_BASE[lc] + Power2(LEN_EXTRA[lc]) == 259
    ensures dc < 29 ==> DIST_BASE[dc + 1] == DIST_BASE[dc] + Power2(DIST_EXTRA[dc])
    ensures dc == 29 ==> DIST_BASE[dc] + Power2(DIST_EXTRA[dc]) == 32769
  {
    LengthCodes(lc);
    DistanceCodes(dc);
  }

  lemma SmallPowers()
    ensures Power2(0) == 1 && Power2(1) == 2 && Power2(2) == 4 && Power2(3) == 8 && Power2(4) == 16
    ensures Power2(5) == 32 && Power2(6) == 64 && Power2(7) == 128 && Power2(8) == 256 && Power2(9) == 512
    ensures Power2(10) == 1024 && Power2(11) == 2048 && Power2(12) == 4096 && Power2(13) == 8192
  {
    assert Power2(1) == 2 * Power2(0);
    assert Power2(3) == 2 * Power2(2);
    assert Power2(5) == 2 * Power2(4);
    assert Power2(7) == 2 * Power2(6);
    assert Power2(9) == 2 * Power2(8);
    assert Power2(11) == 2 * Power2(10);
  }

  lemma LengthCodes(lc: nat)
    requires lc <= 28
    ensures lc < 28 ==> LEN_BASE[lc + 1] <= LEN_BASE[lc] + Power2(LEN_EXTRA[lc])
    ensures lc == 28 ==> LEN_BASE[lc] + Power2(LEN_EXTRA[lc]) == 259
  {
    SmallPowers();
    hide Power2;
  }

  lemma DistanceCodes(dc: nat)
    requires dc <= 29
    ensures dc < 29 ==> DIST_BASE[dc + 1] == DIST_BASE[dc] + Power2(DIST_EXTRA[dc])
    ensures dc == 29 ==> DIST_BASE[dc] + Power2(DIST_EXTRA[dc]) == 32769
  {
    SmallPowers();
    hide Power2;
  }

  /** Every match reaches no further back than the output does. */
  predicate InReach(out: Bytes, ts: seq<Token>)
    decreases |ts|
  {
    ts == [] ||
    match ts[0]
    case Literal(b) => InReach(out + [b], ts[1..])
    case Match(lc, _, dc, _) =>
      && lc <= 28 && dc <= 29 && MatchDistance(ts[0]) <= |out|
      && InReach(CopyMatch(out, MatchDistance(ts[0]), MatchLength(ts[0])), ts[1..])
  }

  /** What literals and matches append to `out`. */
  function Expand(out: Bytes, ts: seq<Token>): (r: Bytes)
    requires InReach(out, ts)
    ensures |r| >= |out|
    decreases |ts|
  {
    if ts == [] then out
    else
      match ts[0]
      case Literal(b) => Expand(out + [b], ts[1..])
      case Match(_, _, _, _) => Expand(CopyMatch(out, MatchDistance(ts[0]), MatchLength(ts[0])), ts[1..])
  }

  predicate TokensOk(lit: Lengths, dist: Lengths, ts: seq<Token>) {
    forall j :: 0 <= j < |ts| ==> TokenOk(lit, dist, ts[j])
  }

  function TokensBits(lit: Lengths, dist: Lengths, ts: seq<Token>): BitString
    requires TokensOk(lit, dist, ts) && Used(lit, END_OF_BLOCK)
  {
    if ts == [] then CodeBits(lit, END_OF_BLOCK)
    else TokenBits(lit, dist, ts[0]) + TokensBits(lit, dist, ts[1..])
  }

  lemma ParseMatchBits(lit: Lengths, dist: Lengths, t: Token, rest: BitString)
    requires Kraft(dist) && TokenOk(lit, dist, t) && t.Match?
    ensures ParseMatch(t.lc, dist,
        LowBits(t.le, LengthExtra(t.lc)) + (CodeBits(dist, t.dc) + (LowBits(t.de, DistanceExtra(t.dc)) + rest)))
         == Some((MatchLength(t), MatchDistance(t), rest))
  {
    hide LowBits, CodeBits, ReadSymbol, Kraft, Take, Power2, LengthBase, LengthExtra, DistanceBase, DistanceExtra;
    LengthTable(t.lc);
    DistanceTable(t.dc);
    var r2 := LowBits(t.de, DistanceExtra(t.dc)) + rest;
    TakeLowBits(t.de, DistanceExtra(t.dc), rest);
    ReadCode(dist, t.dc, r2);
    TakeLowBits(t.le, LengthExtra(t.lc), CodeBits(dist, t.dc) + r2);
  }

  lemma ParseLiteral(lit: Lengths, dist: Lengths, out: Bytes, b: Byte, cap: nat, more: BitString)
    requires Kraft(lit) && Used(lit, b) && |out| < cap
    ensures ParseTokens(lit, dist, out, cap, CodeBits(lit, b) + more) == ParseTokens(lit, dist, out + [b], cap, more)
  {
    hide CodeBits, ReadSymbol, Kraft, ParseMatch;
    ReadCode(lit, b, more);
  }

  lemma ParseMatchToken(lit: Lengths, dist: Lengths, out: Bytes, t: Token, cap: nat, more: BitString)
    requires Kraft(lit) && Kraft(dist) && t.Match? && TokenOk(lit, dist, t)
    requires MatchDistance(t) <= |out| && |out| + MatchLength(t) <= cap
    ensures ParseTokens(lit, dist, out, cap, TokenBits(lit, dist, t) + more)
         == ParseTokens(lit, dist, CopyMatch(out, MatchDistance(t), MatchLength(t)), cap, more)
  {
    hide CodeBits, ReadSymbol, Kraft, LowBits, ParseMatch, Power2, LengthBase, LengthExtra, DistanceBase, DistanceExtra,
         CopyMatch;
    var le, de := LowBits(t.le, LengthExtra(t.lc)), LowBits(t.de, DistanceExtra(t.dc));
    Associate5(CodeBits(lit, 257 + t.lc), le, CodeBits(dist, t.dc), de, more);
    ReadCode(lit, 257 + t.lc, le + (CodeBits(dist, t.dc) + (de + more)));
    ParseMatchBits(lit, dist, t, more);
  }

  /** Parsing what was written for literals and matches yields what they expand to. */
  lemma {:induction false} ParseTokensBits(lit: Lengths, dist: Lengths, out: Bytes, ts: seq<Token>, cap: nat,
      rest: BitString)
    requires Kraft(lit) && Kraft(dist) && TokensOk(lit, dist, ts) && Used(lit, END_OF_BLOCK)
    requires InReach(out, ts) && |Expand(out, ts)| <= cap
    ensures ParseTokens(lit, dist, out, cap, TokensBits(lit, dist, ts) + rest) == Some((Expand(out, ts), rest))
    decreases |ts|
  {
    hide CodeBits, ReadSymbol, Kraft, LowBits, ParseMatch, Power2, LengthBase, LengthExtra, DistanceBase, DistanceExtra,
         TokenOk;
    if ts == [] {
      ReadCode(lit, END_OF_BLOCK, rest);
    } else {
      hide ParseTokens;
      var t, more := ts[0], TokensBits(lit, dist, ts[1..]) + rest;
      Associate(TokenBits(lit, dist, t), TokensBits(lit, dist, ts[1..]), rest);
      match t {
        case Literal(b) =>
          UsesToken(lit, dist, t);
          ParseLiteral(lit, dist, out, b, cap, more);
          ParseTokensBits(lit, dist, out + [b], ts[1..], cap, rest);
        case Match(_, _, _, _) =>
          hide TokenBits;
          ParseTokensBits(lit, dist, CopyMatch(out, MatchDistance(t), MatchLength(t)), ts[1..], cap, rest);
          ParseMatchToken(lit, dist, out, t, cap, more);
      }
    }
  }

  lemma UsesToken(lit: Lengths, dist: Lengths, t: Token)
    requires TokenOk(lit, dist, t) && t.Literal?
    ensures Used(lit, t.b)
  {}

  // ---------------------------------------------------------------- transmitted code lengths

  /** One code length, a repeat of the last one, or a short or long run of zeros. */
  datatype LengthOp = OneLength(l: nat) | Repeat(v: nat) | Zeros(v: nat) | ManyZeros(v: nat)

  function OpSymbol(op: LengthOp): (sym: nat) {
    match op
    case OneLength(l) => l
    case Repeat(_) => 16
    case Zeros(_) => 17
    case ManyZeros(_) => 18
  }

  predicate OpOk(cl: Lengths, op: LengthOp) {
    && Used(cl, OpSymbol(op))
    && match op
       case OneLength(l) => l < 16
       case Repeat(v) => v < 4
       case Zeros(v) => v < 8
       case ManyZeros(v) => v < 128
  }

  function OpExtra(op: LengthOp): BitString {
    match op
    case OneLength(_) => []
    case Repeat(v) => LowBits(v, 2)
    case Zeros(v) => LowBits(v, 3)
    case ManyZeros(v) => LowBits(v, 7)
  }

  /** The code lengths that `op` adds after `lens`. */
  function OpLengths(lens: Lengths, op: LengthOp): (r: Lengths)
    requires op.Repeat? ==> lens != []
    ensures r != []
  {
    match op
    case OneLength(l) => [l]
    case Repeat(v) => Run(lens[|lens| - 1], 3 + v)
    case Zeros(v) => Run(0, 3 + v)
    case ManyZeros(v) => Run(0, 11 + v)
  }

  /** The operations are sent to get at least `n` lengths: none after that many. */
  predicate Transmits(cl: Lengths, n: nat, lens: Lengths, ops: seq<LengthOp>)
    decreases |ops|
  {
    if |lens| >= n then ops == []
    else
      && ops != [] && OpOk(cl, ops[0]) && (ops[0].Repeat? ==> lens != [])
      && Transmits(cl, n, lens + OpLengths(lens, ops[0]), ops[1..])
  }

  /** The lengths they spell out; a last repeat may reach past `n`. */
  function Spelled(cl: Lengths, n: nat, lens: Lengths, ops: seq<LengthOp>): (r: Lengths)
    requires Transmits(cl, n, lens, ops)
    ensures |r| >= n && |r| >= |lens| + |ops|
    decreases |ops|
  {
    if ops == [] then lens else Spelled(cl, n, lens + OpLengths(lens, ops[0]), ops[1..])
  }

  predicate OpsOk(cl: Lengths, ops: seq<LengthOp>) {
    ops == [] || (OpOk(cl, ops[0]) && OpsOk(cl, ops[1..]))
  }

  function OpsBits(cl: Lengths, ops: seq<LengthOp>): BitString
    requires OpsOk(cl, ops)
  {
    if ops == [] then []
    else CodeBits(cl, OpSymbol(ops[0])) + (OpExtra(ops[0]) + OpsBits(cl, ops[1..]))
  }

  lemma {:induction false} TransmitsOk(cl: Lengths, n: nat, lens: Lengths, ops: seq<LengthOp>)
    requires Transmits(cl, n, lens, ops)
    ensures OpsOk(cl, ops)
    decreases |ops|
  {
    if ops != [] { TransmitsOk(cl, n, lens + OpLengths(lens, ops[0]), ops[1..]); }
  }

  lemma ParseOp(cl: Lengths, lens: Lengths, op: LengthOp, rest: BitString)
    requires OpOk(cl, op) && !op.OneLength? && (op.Repeat? ==> lens != [])
    ensures var l := if op.Repeat? then lens[|lens| - 1] else 0;
            RunFor(OpSymbol(op), lens, OpExtra(op) + rest) == Some((l, |OpLengths(lens, op)|, rest))
            && OpLengths(lens, op) == Run(l, |OpLengths(lens, op)|)
  {
    SmallPowers();
    match op {
      case Repeat(v) => TakeLowBits(v, 2, rest);
      case Zeros(v) => TakeLowBits(v, 3, rest);
      case ManyZeros(v) => TakeLowBits(v, 7, rest);
    }
  }

  /** Parsing what was written for the operations yields the lengths they spell out, or runs past
      the 320 entries exactly if there are more. */
  lemma {:induction false} ParseOps(cl: Lengths, n: nat, lens: Lengths, ops: seq<LengthOp>, rest: BitString)
    requires Kraft(cl) && Transmits(cl, n, lens, ops) && |lens| <= MAX_LENS && n <= MAX_LENS
    requires OpsOk(cl, ops)
    ensures ParseLens(cl, n, lens, OpsBits(cl, ops) + rest)
         == var all := Spelled(cl, n, lens, ops); if |all| > MAX_LENS then LensOverrun else LensOk(all, rest)
    decreases |ops|
  {
    hide CodeBits, ReadSymbol, Kraft, OpExtra, OpLengths, RunFor, Run;
    if ops == [] {
      assert [] + rest == rest;
    } else {
      var op, more := ops[0], OpsBits(cl, ops[1..]) + rest;
      var longer := lens + OpLengths(lens, op);
      Associate4(CodeBits(cl, OpSymbol(op)), OpExtra(op), OpsBits(cl, ops[1..]), rest);
      ReadCode(cl, OpSymbol(op), OpExtra(op) + more);
      if op.OneLength? {
        OneLengthOp(lens, op, more);
      } else {
        ParseOp(cl, lens, op, more);
      }
      if |longer| <= MAX_LENS { ParseOps(cl, n, longer, ops[1..], rest); }
    }
  }

  /** What is read is what would be written. */
  lemma TakeIsLowBits(bits: BitString, n: nat)
    requires Take(bits, n).Some?
    ensures bits == LowBits(Take(bits, n).value.0, n) + Take(bits, n).value.1
  {
    LowBitsOfValue(bits[..n]);
    assert bits == bits[..n] + bits[n..];
  }

  lemma RunIsOp(cl: Lengths, sym: nat, lens: Lengths, bits: BitString) returns (op: LengthOp)
    requires Used(cl, sym) && sym >= 16 && RunFor(sym, lens, bits).Some?
    ensures var (l, count, rest) := RunFor(sym, lens, bits).value;
            && OpOk(cl, op) && OpSymbol(op) == sym && (op.Repeat? ==> lens != [])
            && OpLengths(lens, op) == Run(l, count) && bits == OpExtra(op) + rest
  {
    hide LowBits, Power2;
    SmallPowers();
    var k := if sym == 16 then 2 else if sym == 17 then 3 else 7;
    TakeIsLowBits(bits, k);
    var v := Take(bits, k).value.0;
    op := if sym == 16 then Repeat(v) else if sym == 17 then Zeros(v) else ManyZeros(v);
  }

  /** Whatever is parsed as code lengths, an overrun included, begins with the bits of some
      operations. */
  lemma {:induction false} LensAreOps(cl: Lengths, n: nat, lens: Lengths, bits: BitString)
    returns (ops: seq<LengthOp>, rest: BitString)
    requires ParseLens(cl, n, lens, bits) != LensBad && |lens| <= MAX_LENS && n <= MAX_LENS
    ensures Transmits(cl, n, lens, ops) && OpsOk(cl, ops) && bits == OpsBits(cl, ops) + rest
    ensures var all := Spelled(cl, n, lens, ops);
            ParseLens(cl, n, lens, bits) == if |all| > MAX_LENS then LensOverrun else LensOk(all, rest)
    decreases |bits|
  {
    hide CodeBits, ReadSymbol, OpExtra, RunFor, Run;
    if |lens| >= n {
      ops, rest := [], bits;
      assert [] + bits == bits;
    } else {
      ReadIsCode(cl, bits);
      var (sym, r1) := ReadSymbol(cl, bits).value;
      var op, next := OneLength(sym), r1;
      if sym >= 16 {
        op := RunIsOp(cl, sym, lens, r1);
        next := RunFor(sym, lens, r1).value.2;
      } else {
        OneLengthOp(lens, op, r1);
      }
      var longer := lens + OpLengths(lens, op);
      hide OpLengths;
      if |longer| > MAX_LENS {
        ops, rest := [], next;
        assert [] + next == next;
      } else {
        ops, rest := LensAreOps(cl, n, longer, next);
      }
      Associate4(CodeBits(cl, sym), OpExtra(op), OpsBits(cl, ops), rest);
      ops := [op] + ops;
    }
  }

  ghost predicate OverrunBy(cl: Lengths, n: nat, bits: BitString, ops: seq<LengthOp>, rest: BitString) {
    && Transmits(cl, n, [], ops) && OpsOk(cl, ops) && bits == OpsBits(cl, ops) + rest
    && |Spelled(cl, n, [], ops)| > 320
  }

  /** Reading code lengths runs past the 320 entries exactly on the bits of operations that spell
      out more than 320 lengths when `n` are asked for. */
  lemma OverrunExact(cl: Lengths, n: nat, bits: BitString)
    requires Kraft(cl) && n <= MAX_LENS
    ensures ParseLens(cl, n, [], bits) == LensOverrun <==>
            exists ops: seq<LengthOp>, rest: BitString :: OverrunBy(cl, n, bits, ops, rest)
  {
    hide Kraft, ParseLens, Transmits, Spelled, OpsBits, OpsOk;
    if ParseLens(cl, n, [], bits) == LensOverrun {
      var ops, rest := LensAreOps(cl, n, [], bits);
      assert OverrunBy(cl, n, bits, ops, rest);
    }
    if ops: seq<LengthOp>, rest: BitString :| OverrunBy(cl, n, bits, ops, rest) {
      ParseOps(cl, n, [], ops, rest);
    }
  }

  lemma OneLengthOp(lens: Lengths, op: LengthOp, more: BitString)
    requires op.OneLength?
    ensures OpLengths(lens, op) == [op.l] && OpExtra(op) + more == more
  {}

  // ---------------------------------------------------------------- dynamic header

  /** Code lengths of the literal and distance alphabets, and how they are transmitted. */
  datatype Header = Header(lit: Lengths, dist: Lengths, sent: Sent)

  /** What is transmitted: how many lengths of each alphabet, the code length code, the operations. */
  datatype Sent = Sent(hlit: nat, hdist: nat, cl: Lengths, hclen: nat, ops: seq<LengthOp>)

  /** Section 3.2.7: the symbol whose code length stands at place `i`: the repeats, then 0, then from
      8 up and from 7 down by turns. */
  function SymbolAtPlace(i: nat): (s: nat)
    requires i < 19
    ensures s < 19
  {
    if i < 3 then 16 + i
    else if i == 3 then 0
    else if i % 2 == 0 then 8 + (i - 4) / 2
    else 7 - (i - 5) / 2
  }

  /** The order of the source is that of the standard. */
  lemma OrderOfStandard(i: nat)
    requires i < 19
    ensures ORDER[i] == SymbolAtPlace(i)
  {}

  predicate SentShape(h: Sent) {
    && 257 <= h.hlit <= 288 && 1 <= h.hdist <= 32 && |h.cl| == 19 && 4 <= h.hclen <= 19
    && (forall s :: 0 <= s < 19 ==> h.cl[s] < 8)
    && (forall i :: h.hclen <= i < 19 ==> h.cl[SymbolAtPlace(i)] == 0)
    && Transmits(h.cl, h.hlit + h.hdist, [], h.ops)
  }

  predicate SentOk(h: Sent) {
    SentShape(h) && Kraft(h.cl)
  }

  function SentLengths(h: Sent): Lengths
    requires SentShape(h)
  {
    Spelled(h.cl, h.hlit + h.hdist, [], h.ops)
  }

  /** The lengths spelled out are those of the two alphabets; a last repeat may reach past them. */
  predicate HeaderShape(h: Header) {
    && SentShape(h.sent) && h.sent.hlit == |h.lit| && h.sent.hdist == |h.dist|
    && |SentLengths(h.sent)| <= 320 && h.lit + h.dist <= SentLengths(h.sent)
  }

  /** No code is over-subscribed. */
  predicate HeaderOk(h: Header) {
    HeaderShape(h) && Kraft(h.sent.cl) && Kraft(h.lit) && Kraft(h.dist)
  }

  function ClBits(cl: Lengths, i: nat, count: nat): BitString
    requires |cl| == 19 && i <= count <= 19
    decreases count - i
  {
    if i == count then [] else LowBits(cl[SymbolAtPlace(i)], 3) + ClBits(cl, i + 1, count)
  }

  function SentBits(h: Sent): BitString
    requires SentShape(h)
  {
    TransmitsOk(h.cl, h.hlit + h.hdist, [], h.ops);
    LowBits(h.hlit - 257, 5) + (LowBits(h.hdist - 1, 5) + (LowBits(h.hclen - 4, 4)
    + (ClBits(h.cl, 0, h.hclen) + OpsBits(h.cl, h.ops))))
  }

  function HeaderBits(h: Header): BitString
    requires HeaderShape(h)
  {
    SentBits(h.sent)
  }

  /** Entries whose place in the transmission order is before `i` are set, the others zero. */
  predicate SetUpTo(have: Lengths, cl: Lengths, i: nat)
    requires |have| == 19 && |cl| == 19 && i <= 19
  {
    && (forall j :: 0 <= j < i ==> have[ORDER[j]] == cl[ORDER[j]])
    && (forall j :: i <= j < 19 ==> have[ORDER[j]] == 0)
  }

  lemma OrderDistinct(i: nat, j: nat)
    requires i < 19 && j < 19 && i != j
    ensures ORDER[i] != ORDER[j]
  {}

  /** The transmission order reaches every symbol. */
  lemma OrderReaches(s: nat) returns (i: nat)
    requires s < 19
    ensures i < 19 && ORDER[i] == s
  {
    i := [3, 17, 15, 13, 11, 9, 7, 5, 4, 6, 8, 10, 12, 14, 16, 18, 0, 1, 2][s];
  }

  lemma SetNext(have: Lengths, cl: Lengths, i: nat)
    requires |have| == 19 && |cl| == 19 && i < 19 && SetUpTo(have, cl, i)
    ensures SetUpTo(have[ORDER[i] := cl[ORDER[i]]], cl, i + 1)
  {
    forall j | 0 <= j < 19 && j != i ensures ORDER[j] != ORDER[i] { OrderDistinct(i, j); }
  }

  lemma SetAll(have: Lengths, cl: Lengths, i: nat)
    requires |have| == 19 && |cl| == 19 && i <= 19 && SetUpTo(have, cl, i)
    requires forall j :: i <= j < 19 ==> cl[ORDER[j]] == 0
    ensures have == cl
  {
    forall s | 0 <= s < 19 ensures have[s] == cl[s] {
      var j := OrderReaches(s);
    }
  }

  lemma {:induction false} ParseClBits(have: Lengths, cl: Lengths, i: nat, count: nat, rest: BitString)
    requires |have| == 19 && |cl| == 19 && i <= count <= 19 && SetUpTo(have, cl, i)
    requires forall s :: 0 <= s < 19 ==> cl[s] < 8
    requires forall j :: count <= j < 19 ==> cl[ORDER[j]] == 0
    ensures ParseCl(have, i, count, ClBits(cl, i, count) + rest) == Some((cl, rest))
    decreases count - i
  {
    if i == count {
      SetAll(have, cl, i);
      assert [] + rest == rest;
    } else {
      hide SetUpTo, LowBits, Take;
      OrderOfStandard(i);
      var v, more := cl[ORDER[i]], ClBits(cl, i + 1, count) + rest;
      SmallPowers();
      TakeLowBits(v, 3, more);
      Associate(LowBits(v, 3), ClBits(cl, i + 1, count), rest);
      SetNext(have, cl, i);
      ParseClBits(have[ORDER[i] := v], cl, i + 1, count, rest);
    }
  }

  lemma ParseCounts(a: nat, b: nat, c: nat, rest: BitString)
    requires a < 32 && b < 32 && c < 16
    ensures ParseHeader(LowBits(a, 5) + (LowBits(b, 5) + (LowBits(c, 4) + rest)))
         == ParseLengths(a + 257, b + 1, c + 4, rest)
  {
    SmallPowers();
    hide LowBits, Take, ParseLengths, Power2;
    var r2 := LowBits(c, 4) + rest;
    var r1 := LowBits(b, 5) + r2;
    TakeLowBits(a, 5, r1);
    TakeLowBits(b, 5, r2);
    TakeLowBits(c, 4, rest);
  }

  /** The outcome of reading the code lengths of both alphabets. */
  function SentResult(h: Sent, rest: BitString): HeaderResult
    requires SentShape(h)
  {
    var all := SentLengths(h);
    if |all| > MAX_LENS then HeaderOverrun
    else HeaderResult.HeaderOk(all[..h.hlit], all[h.hlit..h.hlit + h.hdist], rest)
  }

  /** Parsing a transmitted header yields the first lengths that it spells out, or runs past the
      320 entries exactly if it spells out more. */
  lemma ParseSent(h: Sent, rest: BitString)
    requires SentOk(h)
    ensures ParseHeader(SentBits(h) + rest) == SentResult(h, rest)
  {
    TransmitsOk(h.cl, h.hlit + h.hdist, [], h.ops);
    hide LowBits, Take, ClBits, OpsBits, ParseLengths, ParseHeader, Power2, Kraft, Transmits, SentResult;
    var r3 := ClBits(h.cl, 0, h.hclen) + (OpsBits(h.cl, h.ops) + rest);
    SplitHeader(LowBits(h.hlit - 257, 5), LowBits(h.hdist - 1, 5), LowBits(h.hclen - 4, 4),
                ClBits(h.cl, 0, h.hclen), OpsBits(h.cl, h.ops), rest);
    ParseCounts(h.hlit - 257, h.hdist - 1, h.hclen - 4, r3);
    ParseLengthsBits(h, rest);
  }

  /** Parsing what was written for a header yields its code lengths. */
  lemma ParseHeaderBits(h: Header, rest: BitString)
    requires HeaderOk(h)
    ensures ParseHeader(HeaderBits(h) + rest) == HeaderResult.HeaderOk(h.lit, h.dist, rest)
  {
    hide ParseHeader, SentBits, SentShape, SentLengths, Kraft;
    ParseSent(h.sent, rest);
    FirstParts(h.lit, h.dist, SentLengths(h.sent));
  }

  lemma FirstParts(a: Lengths, b: Lengths, all: Lengths)
    requires a + b <= all
    ensures all[..|a|] == a && all[|a|..|a| + |b|] == b
  {
    assert all[..|a| + |b|] == a + b;
    assert all[..|a|] == (a + b)[..|a|];
    assert all[|a|..|a| + |b|] == (a + b)[|a|..];
  }

  lemma SplitHeader(a: BitString, b: BitString, c: BitString, d: BitString, e: BitString, f: BitString)
    ensures (a + (b + (c + (d + e)))) + f == a + (b + (c + (d + (e + f))))
  {}

  lemma ParseLengthsBits(h: Sent, rest: BitString)
    requires SentOk(h) && OpsOk(h.cl, h.ops)
    ensures ParseLengths(h.hlit, h.hdist, h.hclen, ClBits(h.cl, 0, h.hclen) + (OpsBits(h.cl, h.ops) + rest))
         == SentResult(h, rest)
  {
    hide ClBits, OpsBits, ParseCl, ParseLens, Kraft, Transmits, Spelled, OpsOk, SetUpTo;
    NothingSet(h.cl);
    UnsentAreZero(h);
    ParseClBits(Run(0, 19), h.cl, 0, h.hclen, OpsBits(h.cl, h.ops) + rest);
    ParseOps(h.cl, h.hlit + h.hdist, [], h.ops, rest);
  }

  lemma UnsentAreZero(h: Sent)
    requires SentOk(h)
    ensures forall j :: h.hclen <= j < 19 ==> h.cl[ORDER[j]] == 0
  {
    forall j | h.hclen <= j < 19 ensures h.cl[ORDER[j]] == 0 { OrderOfStandard(j); }
  }

  lemma NothingSet(cl: Lengths)
    requires |cl| == 19
    ensures SetUpTo(Run(0, 19), cl, 0)
  {}
}
