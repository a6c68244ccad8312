/** Whole DEFLATE streams (RFC 1951): lists of stored, fixed and dynamic blocks, their bits, and
    the theorem that inflating the bits yields what the blocks expand to. */
module DeflateStream {
  import opened Basics
  import opened Bits
  import opened HuffmanCodes
  import opened Deflate
  import opened DeflateEncoding

  /** The padding of a stored block is ignored and may be any bits up to the byte boundary. */
  datatype Block =
    | Stored(padding: BitString, data: Bytes)
    | Fixed(tokens: seq<Token>)
    | Dynamic(header: Header, tokens: seq<Token>)

  /** A block whose body starts `o` bits into the stream, after `out` has been produced. */
  predicate BlockShape(o: nat, out: Bytes, b: Block) {
    match b
    case Stored(padding, data) => |padding| < 8 && (o + |padding|) % 8 == 0 && |data| <= 0xFFFF
    case Fixed(ts) => TokensOk(FixedLit(), FixedDist(), ts) && InReach(out, ts)
    case Dynamic(h, ts) =>
      HeaderShape(h) && Used(h.lit, END_OF_BLOCK) && TokensOk(h.lit, h.dist, ts) && InReach(out, ts)
  }

  /** Its codes are not over-subscribed. */
  predicate Proper(b: Block) {
    b.Dynamic? ==> Kraft(b.header.sent.cl) && Kraft(b.header.lit) && Kraft(b.header.dist)
  }

  predicate BlockFits(o: nat, out: Bytes, b: Block) {
    BlockShape(o, out, b) && Proper(b)
  }

  function ExpandBlock(o: nat, out: Bytes, b: Block): (r: Bytes)
    requires BlockShape(o, out, b)
    ensures |r| >= |out|
  {
    match b
    case Stored(_, data) => out + data
    case Fixed(ts) => Expand(out, ts)
    case Dynamic(_, ts) => Expand(out, ts)
  }

  function Kind(b: Block): (k: nat)
    ensures k < 4
  {
    match b
    case Stored(_, _) => 0
    case Fixed(_) => 1
    case Dynamic(_, _) => 2
  }

  function BodyBits(o: nat, out: Bytes, b: Block): BitString
    requires BlockShape(o, out, b)
  {
    match b
    case Stored(padding, data) =>
      padding + (LowBits(|data|, 16) + (LowBits(0xFFFF - |data|, 16) + BitsOf(data)))
    case Fixed(ts) => FixedIsUsed(); TokensBits(FixedLit(), FixedDist(), ts)
    case Dynamic(h, ts) => HeaderBits(h) + TokensBits(h.lit, h.dist, ts)
  }

  lemma FixedIsUsed()
    ensures Used(FixedLit(), END_OF_BLOCK)
  {}

  /** Stream of blocks starting `o` bits in; the last block is the final one. */
  predicate StreamShape(o: nat, out: Bytes, blocks: seq<Block>)
    decreases |blocks|
  {
    && blocks != [] && BlockShape(o + 3, out, blocks[0])
    && (|blocks| > 1 ==>
          StreamShape(o + 3 + |BodyBits(o + 3, out, blocks[0])|, ExpandBlock(o + 3, out, blocks[0]), blocks[1..]))
  }

  predicate StreamFits(o: nat, out: Bytes, blocks: seq<Block>) {
    StreamShape(o, out, blocks) && forall i :: 0 <= i < |blocks| ==> Proper(blocks[i])
  }

  function StreamBits(o: nat, out: Bytes, blocks: seq<Block>): BitString
    requires StreamShape(o, out, blocks)
    decreases |blocks|
  {
    hide BlockShape, BodyBits, ExpandBlock, LowBits;
    var body := BodyBits(o + 3, out, blocks[0]);
    if |blocks| == 1 then LowBits(1, 1) + (LowBits(Kind(blocks[0]), 2) + body)
    else LowBits(0, 1) + (LowBits(Kind(blocks[0]), 2)
         + (body + StreamBits(o + 3 + |body|, ExpandBlock(o + 3, out, blocks[0]), blocks[1..])))
  }

  function ExpandBlocks(o: nat, out: Bytes, blocks: seq<Block>): (r: Bytes)
    requires StreamShape(o, out, blocks)
    ensures |r| >= |out|
    decreases |blocks|
  {
    hide BlockShape, BodyBits, ExpandBlock;
    var out' := ExpandBlock(o + 3, out, blocks[0]);
    if |blocks| == 1 then out'
    else ExpandBlocks(o + 3 + |BodyBits(o + 3, out, blocks[0])|, out', blocks[1..])
  }

  // ---------------------------------------------------------------- fixed codes

  /** `n` times `p` */
  function Shares(n: nat, p: nat): nat {
    if n == 0 then 0 else Shares(n - 1, p) + p
  }

  lemma {:induction false} SharesMultiply(n: nat, p: nat)
    ensures Shares(n, p) == n * p
  {
    if n > 0 { SharesMultiply(n - 1, p); }
  }

  lemma {:induction false} SharesOfRun(lens: Lengths, l: nat, a: nat, b: nat)
    requires a <= b <= |lens| && 0 < l <= MAXBITS && forall i :: a <= i < b ==> lens[i] == l
    ensures KraftSumBelow(lens, b) == KraftSumBelow(lens, a) + Shares(b - a, Power2(MAXBITS - l))
    decreases b
  {
    hide Power2;
    if a < b { SharesOfRun(lens, l, a, b - 1); }
  }

  lemma KraftOfRun(lens: Lengths, l: nat, a: nat, b: nat)
    requires a <= b <= |lens| && 0 < l <= MAXBITS && forall i :: a <= i < b ==> lens[i] == l
    ensures KraftSumBelow(lens, b) == KraftSumBelow(lens, a) + (b - a) * Power2(MAXBITS - l)
  {
    hide Power2, KraftSumBelow;
    SharesOfRun(lens, l, a, b);
    SharesMultiply(b - a, Power2(MAXBITS - l));
  }

  lemma LargePowers()
    ensures Power2(15) == 0x8000 && Power2(16) == 0x10000
  {
    assert Power2(13) == 8192 by { SmallPowers(); }
    assert Power2(15) == 2 * Power2(14);
  }

  lemma NothingSummed(lens: Lengths)
    ensures KraftSumBelow(lens, 0) == 0
  {}

  lemma FixedRuns()
    ensures |FixedLit()| == 288 && |FixedDist()| == 32
    ensures forall i :: 0 <= i < 144 ==> FixedLit()[i] == 8
    ensures forall i :: 144 <= i < 256 ==> FixedLit()[i] == 9
    ensures forall i :: 256 <= i < 280 ==> FixedLit()[i] == 7
    ensures forall i :: 280 <= i < 288 ==> FixedLit()[i] == 8
    ensures forall i :: 0 <= i < 32 ==> FixedDist()[i] == 5
  {}

  /** The fixed codes fill the code space exactly. */
  lemma FixedKraft()
    ensures Kraft(FixedLit()) && Kraft(FixedDist())
    ensures KraftSum(FixedLit()) == KraftSum(FixedDist()) == Power2(MAXBITS)
  {
    hide FixedLit, FixedDist, KraftSumBelow, Power2;
    FixedRuns();
    SmallPowers();
    LargePowers();
    var lit, dist := FixedLit(), FixedDist();
    NothingSummed(lit);
    NothingSummed(dist);
    KraftOfRun(lit, 8, 0, 144);
    KraftOfRun(lit, 9, 144, 256);
    KraftOfRun(lit, 7, 256, 280);
    KraftOfRun(lit, 8, 280, 288);
    KraftOfRun(dist, 5, 0, 32);
  }

  // ---------------------------------------------------------------- stored blocks

  lemma {:induction false} BytesOfBits(data: Bytes, rest: BitString)
    ensures BytesOf(BitsOf(data) + rest, |data|) == data
    ensures (BitsOf(data) + rest)[8 * |data|..] == rest
  {
    if data != [] {
      BytesOfBits(data[1..], rest);
      SmallPowers();
      hide LowBits, Value, Power2;
      ValueOfLowBits(data[0], 8);
      Associate(LowBits(data[0], 8), BitsOf(data[1..]), rest);
      var s := LowBits(data[0], 8) + (BitsOf(data[1..]) + rest);
      assert s[..8] == LowBits(data[0], 8) && s[8..] == BitsOf(data[1..]) + rest;
    }
  }

  lemma Alignment(o: nat, p: nat, n: nat)
    requires p < 8 && (o + p) % 8 == 0 && (o + (p + n)) % 8 == 0
    ensures n % 8 == 0 && (p + n) % 8 == p
  {}

  lemma ParseAlignedBits(out: Bytes, data: Bytes, cap: nat, rest: BitString)
    requires |data| <= 0xFFFF && |out| + |data| <= cap
    ensures ParseAligned(out, cap, LowBits(|data|, 16) + (LowBits(0xFFFF - |data|, 16) + (BitsOf(data) + rest)))
         == Some((out + data, rest))
  {
    hide LowBits, BitsOf, BytesOf, Take, Power2;
    LargePowers();
    var n := |data|;
    var r2 := BitsOf(data) + rest;
    TakeLowBits(n, 16, LowBits(0xFFFF - n, 16) + r2);
    TakeLowBits(0xFFFF - n, 16, r2);
    BytesOfBits(data, rest);
  }

  lemma ParseStoredBits(o: nat, out: Bytes, b: Block, cap: nat, rest: BitString)
    requires b.Stored? && BlockFits(o, out, b) && |out| + |b.data| <= cap
    requires (o + |BodyBits(o, out, b)| + |rest|) % 8 == 0
    ensures ParseStored(out, cap, BodyBits(o, out, b) + rest) == Some((out + b.data, rest))
  {
    hide LowBits, BitsOf, ParseAligned;
    var n := |b.data|;
    var r := LowBits(n, 16) + (LowBits(0xFFFF - n, 16) + (BitsOf(b.data) + rest));
    Alignment(o, |b.padding|, 32 + 8 * n + |rest|);
    Associate5(b.padding, LowBits(n, 16), LowBits(0xFFFF - n, 16), BitsOf(b.data), rest);
    assert (b.padding + r)[|b.padding|..] == r;
    ParseAlignedBits(out, b.data, cap, rest);
  }

  // ---------------------------------------------------------------- the stream

  lemma ParseBlockBits(o: nat, out: Bytes, b: Block, cap: nat, rest: BitString)
    requires BlockFits(o, out, b) && |ExpandBlock(o, out, b)| <= cap
    requires (o + |BodyBits(o, out, b)| + |rest|) % 8 == 0
    ensures ParseBlock(Kind(b), out, cap, BodyBits(o, out, b) + rest) == BlockOk(ExpandBlock(o, out, b), rest)
  {
    hide ParseStored, ParseTokens, ParseHeader, Kraft, TokensOk, InReach, Expand, TokensBits, LowBits, BitsOf,
         FixedLit, FixedDist, HeaderBits, SentShape, SentLengths;
    match b {
      case Stored(padding, data) => ParseStoredBits(o, out, b, cap, rest);
      case Fixed(ts) =>
        FixedIsUsed();
        FixedKraft();
        ParseTokensBits(FixedLit(), FixedDist(), out, ts, cap, rest);
      case Dynamic(h, ts) =>
        var bits := TokensBits(h.lit, h.dist, ts);
        Associate(HeaderBits(h), bits, rest);
        ParseHeaderBits(h, bits + rest);
        ParseTokensBits(h.lit, h.dist, out, ts, cap, rest);
    }
  }

  lemma ParseBlockHead(final: nat, kind: nat, out: Bytes, cap: nat, bits: BitString)
    requires final < 2 && kind < 4
    ensures InflateFrom(out, cap, LowBits(final, 1) + (LowBits(kind, 2) + bits))
         == match ParseBlock(kind, out, cap, bits)
            case BlockBad => Failed
            case BlockOverrun => Overrun
            case BlockOk(out', r3) => if final == 1 then Done(out') else InflateFrom(out', cap, r3)
  {
    SmallPowers();
    hide LowBits, Take, Power2, ParseBlock;
    TakeLowBits(final, 1, LowBits(kind, 2) + bits);
    TakeLowBits(kind, 2, bits);
  }

  /** Inflating the bits of a list of blocks yields what the blocks expand to, whatever follows. */
  lemma {:induction false} InflateStream(o: nat, out: Bytes, blocks: seq<Block>, cap: nat, tail: BitString)
    requires StreamFits(o, out, blocks) && |ExpandBlocks(o, out, blocks)| <= cap
    requires (o + |StreamBits(o, out, blocks)| + |tail|) % 8 == 0
    ensures InflateFrom(out, cap, StreamBits(o, out, blocks) + tail) == Done(ExpandBlocks(o, out, blocks))
    decreases |blocks|
  {
    hide LowBits, BodyBits, ParseBlock, InflateFrom, BlockShape, ExpandBlock, Kind, Proper;
    var b := blocks[0];
    var body, out' := BodyBits(o + 3, out, b), ExpandBlock(o + 3, out, b);
    if |blocks| == 1 {
      Associate4(LowBits(1, 1), LowBits(Kind(b), 2), body, tail);
      ParseBlockHead(1, Kind(b), out, cap, body + tail);
      ParseBlockBits(o + 3, out, b, cap, tail);
    } else {
      var o' := o + 3 + |body|;
      var more := StreamBits(o', out', blocks[1..]);
      Associate5(LowBits(0, 1), LowBits(Kind(b), 2), body, more, tail);
      ParseBlockHead(0, Kind(b), out, cap, body + (more + tail));
      ParseBlockBits(o + 3, out, b, cap, more + tail);
      InflateStream(o', out', blocks[1..], cap, tail);
    }
  }

  // ---------------------------------------------------------------- bytes

  lemma {:induction false} BitsOfBytes(bits: BitString, n: nat)
    requires |bits| == 8 * n
    ensures BitsOf(BytesOf(bits, n)) == bits
  {
    if n > 0 {
      BitsOfBytes(bits[8..], n - 1);
      hide LowBits, Value, Power2;
      LowBitsOfValue(bits[..8]);
      assert bits == bits[..8] + bits[8..];
    }
  }

  function Padding(n: nat): (p: nat)
    ensures p < 8 && (n + p) % 8 == 0
  {
    (8 - n % 8) % 8
  }

  /** The bytes of a stream: its bits, filled up with zeros to a whole number of bytes. */
  function Pack(bits: BitString): (src: Bytes)
    ensures BitsOf(src) == bits + LowBits(0, Padding(|bits|))
  {
    var padded := bits + LowBits(0, Padding(|bits|));
    BitsOfBytes(padded, |padded| / 8);
    BytesOf(padded, |padded| / 8)
  }

  /** Inflating a written stream gives back what its blocks expand to. */
  lemma InflateInverts(blocks: seq<Block>, cap: nat)
    requires StreamFits(0, [], blocks) && |ExpandBlocks(0, [], blocks)| <= cap
    ensures InflateFrom([], cap, BitsOf(Pack(StreamBits(0, [], blocks)))) == Done(ExpandBlocks(0, [], blocks))
  {
    hide StreamShape, StreamBits, ExpandBlocks, InflateFrom, Pack, BitsOf;
    var bits := StreamBits(0, [], blocks);
    InflateStream(0, [], blocks, cap, LowBits(0, Padding(|bits|)));
  }

  // ---------------------------------------------------------------- running past the lengths

  /** A dynamic block whose header spells out more than 320 code lengths makes the inflater run past
      the array, wherever it stands and whatever follows. */
  lemma OverrunBlock(final: nat, out: Bytes, cap: nat, h: Sent, rest: BitString)
    requires final < 2 && SentOk(h) && |SentLengths(h)| > 320
    ensures InflateFrom(out, cap, LowBits(final, 1) + (LowBits(2, 2) + (SentBits(h) + rest))) == Overrun
  {
    hide LowBits, InflateFrom, SentBits, SentLengths, SentShape, ParseHeader;
    ParseSent(h, rest);
    ParseBlockHead(final, 2, out, cap, SentBits(h) + rest);
  }

  /** Three runs of 138 zeros where 287 lengths are asked for. */
  function LongRuns(): Sent {
    Sent(286, 1, Run(0, 18) + [1], 4, [ManyZeros(127), ManyZeros(127), ManyZeros(127)])
  }

  lemma {:induction false} KraftOfZeros(lens: Lengths, n: nat)
    requires n <= |lens| && forall i :: 0 <= i < n ==> lens[i] == 0
    ensures KraftSumBelow(lens, n) == 0
  {
    if n > 0 { KraftOfZeros(lens, n - 1); }
  }

  lemma LongRunsOk()
    ensures SentOk(LongRuns()) && |SentLengths(LongRuns())| == 414
  {
    var cl := Run(0, 18) + [1];
    KraftOfZeros(cl, 18);
    LargePowers();
    SmallPowers();
    LongRunsSpelled(cl);
    hide Transmits, Spelled, KraftSumBelow, Power2;
    assert KraftSumBelow(cl, 19) <= Power2(MAXBITS) by {
      OneShare(cl);
    }
  }

  lemma OneShare(cl: Lengths)
    requires |cl| == 19 && cl[18] == 1 && KraftSumBelow(cl, 18) == 0
    ensures KraftSumBelow(cl, 19) <= Power2(MAXBITS)
  {
    assert Power2(15) == 2 * Power2(14);
  }

  lemma LongRunsSpelled(cl: Lengths)
    requires Used(cl, 18)
    ensures var m := ManyZeros(127);
            Transmits(cl, 287, [], [m, m, m]) && |Spelled(cl, 287, [], [m, m, m])| == 414
  {
    var m := ManyZeros(127);
    var a := [] + OpLengths([], m);
    var b := a + OpLengths(a, m);
    var c := b + OpLengths(b, m);
    assert |a| == 138 && |b| == 276 && |c| == 414;
    hide OpLengths;
    assert [m, m, m][1..] == [m, m] && [m, m][1..] == [m] && [m][1..] == [];
    assert Transmits(cl, 287, c, []) && Spelled(cl, 287, c, []) == c;
    assert Transmits(cl, 287, b, [m]) && Spelled(cl, 287, b, [m]) == c;
    assert Transmits(cl, 287, a, [m, m]) && Spelled(cl, 287, a, [m, m]) == c;
  }

  /** A concrete stream on which the source writes past the 320 entries. */
  lemma OverrunningStream(cap: nat)
    ensures SentOk(LongRuns())
    ensures InflateFrom([], cap, BitsOf(Pack(LowBits(1, 1) + (LowBits(2, 2) + SentBits(LongRuns()))))) == Overrun
  {
    LongRunsOk();
    hide LowBits, InflateFrom, SentBits, SentLengths, SentShape, LongRuns, Pack, BitsOf;
    var bits := SentBits(LongRuns());
    var tail := LowBits(0, Padding(|LowBits(1, 1) + (LowBits(2, 2) + bits)|));
    Associate4(LowBits(1, 1), LowBits(2, 2), bits, tail);
    OverrunBlock(1, [], cap, LongRuns(), tail);
  }

  // ---------------------------------------------------------------- every string can be sent

  /** Any byte string is the expansion of a stream of fixed blocks of literals. */
  lemma {:induction false} LiteralsExpand(out: Bytes, data: Bytes)
    ensures InReach(out, Literals(data)) && Expand(out, Literals(data)) == out + data
    decreases |data|
  {
    if data == [] {
      assert out + data == out;
    } else {
      LiteralsExpand(out + [data[0]], data[1..]);
      assert out + [data[0]] + data[1..] == out + data;
      assert Literals(data)[1..] == Literals(data[1..]);
    }
  }

  function Literals(data: Bytes): (ts: seq<Token>)
    ensures |ts| == |data|
    ensures forall j :: 0 <= j < |ts| ==> ts[j] == Literal(data[j])
  {
    seq(|data|, j requires 0 <= j < |data| => Literal(data[j]))
  }

  /** Every byte string has a stream that inflates to it. */
  lemma EveryStringHasStream(data: Bytes, cap: nat)
    requires |data| <= cap
    ensures var blocks := [Fixed(Literals(data))];
            && StreamFits(0, [], blocks)
            && InflateFrom([], cap, BitsOf(Pack(StreamBits(0, [], blocks)))) == Done(data)
  {
    LiteralsExpand([], data);
    FixedRuns();
    hide FixedLit, FixedDist, InflateFrom, Pack, BitsOf, BodyBits;
    assert [] + data == data;
    InflateInverts([Fixed(Literals(data))], cap);
  }
}
