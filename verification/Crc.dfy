/** The CRC-32 that guards the unpacked tables (src/table_store.hpp). */
module Crc {
  const POLYNOMIAL: bv32 := 0xEDB88320

  function Xor(a: bv32, b: bv32): bv32 { a ^ b }
  function Low(c: bv32): bv32 { c & 1 }
  function Half(c: bv32): bv32 { c >> 1 }

  lemma XorAssociates(x: bv32, y: bv32, p: bv32)
    ensures Xor(x, Xor(y, p)) == Xor(Xor(x, y), p)
  {}

  lemma XorCommutes(x: bv32, y: bv32)
    ensures Xor(x, y) == Xor(y, x)
  {}

  lemma XorUndone(x: bv32, p: bv32)
    ensures Xor(Xor(x, p), p) == x
  {}

  lemma XorZero(x: bv32)
    ensures Xor(x, 0) == x && Xor(0, x) == x && Xor(x, x) == 0
  {}

  lemma XorMoves(x: bv32, y: bv32, p: bv32)
    ensures Xor(Xor(x, p), y) == Xor(Xor(x, y), p)
  {
    hide Xor;
    XorAssociates(x, p, y);
    XorAssociates(x, y, p);
    XorCommutes(y, p);
  }

  lemma XorPairs(x: bv32, y: bv32, p: bv32)
    ensures Xor(Xor(x, p), Xor(y, p)) == Xor(x, y)
  {
    hide Xor;
    XorAssociates(Xor(x, p), y, p);
    XorMoves(x, y, p);
    XorUndone(Xor(x, y), p);
  }

  lemma XorCancels(x: bv32, y: bv32, p: bv32)
    ensures Xor(x, p) == Xor(y, p) <==> x == y
    ensures Xor(p, x) == Xor(p, y) <==> x == y
  {
    hide Xor;
    XorUndone(x, p);
    XorUndone(y, p);
    XorCommutes(x, p);
    XorCommutes(y, p);
  }

  // ---------------------------------------------------------------- one bit

  /** One bit of division by the polynomial. */
  function BitStep(c: bv32): bv32 {
    if Low(c) == 1 then Xor(Half(c), POLYNOMIAL) else Half(c)
  }

  /** Undoes `BitStep`: the top bit tells whether the polynomial was added. */
  function BitUnstep(d: bv32): bv32 {
    if d & 0x8000_0000 != 0 then ((d ^ POLYNOMIAL) << 1) | 1 else d << 1
  }

  lemma RestoredHigh(d: bv32)
    requires d & 0x8000_0000 != 0
    ensures (((d ^ POLYNOMIAL) << 1) | 1) & 1 == 1
    ensures ((((d ^ POLYNOMIAL) << 1) | 1) >> 1) ^ POLYNOMIAL == d
  {}

  lemma RestoredLow(d: bv32)
    requires d & 0x8000_0000 == 0
    ensures (d << 1) & 1 == 0 && (d << 1) >> 1 == d
  {}

  lemma BitStepInverse(c: bv32)
    ensures BitUnstep(BitStep(c)) == c
  {}

  lemma BitUnstepInverse(d: bv32)
    ensures BitStep(BitUnstep(d)) == d
  {
    if d & 0x8000_0000 != 0 {
      RestoredHigh(d);
    } else {
      RestoredLow(d);
    }
  }

  lemma LowOfXor(c: bv32, d: bv32)
    ensures Low(c) == 0 || Low(c) == 1
    ensures Low(Xor(c, d)) == if Low(c) == Low(d) then 0 else 1
  {
    assert (c ^ d) & 1 == (c & 1) ^ (d & 1);
  }

  lemma HalfOfXor(c: bv32, d: bv32)
    ensures Half(Xor(c, d)) == Xor(Half(c), Half(d))
  {}

  lemma BitStepLinear(c: bv32, d: bv32)
    ensures BitStep(Xor(c, d)) == Xor(BitStep(c), BitStep(d))
  {
    hide Low, Half, Xor;
    LowOfXor(c, d);
    LowOfXor(d, c);
    HalfOfXor(c, d);
    if Low(c) == 1 {
      if Low(d) == 1 {
        XorPairs(Half(c), Half(d), POLYNOMIAL);
      } else {
        XorMoves(Half(c), Half(d), POLYNOMIAL);
      }
    } else {
      XorAssociates(Half(c), Half(d), POLYNOMIAL);
    }
  }

  // ---------------------------------------------------------------- one byte

  function Steps(c: bv32, n: nat): bv32 {
    if n == 0 then c else BitStep(Steps(c, n - 1))
  }

  lemma {:induction false} StepsInjective(c: bv32, d: bv32, n: nat)
    requires Steps(c, n) == Steps(d, n)
    ensures c == d
  {
    hide BitStep, BitUnstep;
    if n > 0 {
      BitStepInverse(Steps(c, n - 1));
      BitStepInverse(Steps(d, n - 1));
      StepsInjective(c, d, n - 1);
    }
  }

  lemma {:induction false} StepsSurjective(d: bv32, n: nat) returns (c: bv32)
    ensures Steps(c, n) == d
    decreases n
  {
    hide BitStep, BitUnstep;
    if n == 0 {
      c := d;
    } else {
      BitUnstepInverse(d);
      c := StepsSurjective(BitUnstep(d), n - 1);
    }
  }

  lemma {:induction false} StepsLinear(c: bv32, d: bv32, n: nat)
    ensures Steps(Xor(c, d), n) == Xor(Steps(c, n), Steps(d, n))
  {
    hide BitStep, Xor;
    if n > 0 {
      StepsLinear(c, d, n - 1);
      BitStepLinear(Steps(c, n - 1), Steps(d, n - 1));
    }
  }

  function Wide(b: bv8): bv32 { b as bv32 }

  function ByteStep(c: bv32, b: bv8): bv32 {
    Steps(Xor(c, Wide(b)), 8)
  }

  /** The register after the bytes of `data`, from register `c`. */
  function Update(c: bv32, data: seq<bv8>): bv32
    decreases |data|
  {
    if data == [] then c else ByteStep(Update(c, data[..|data| - 1]), data[|data| - 1])
  }

  function Complement(c: bv32): bv32 { !c }

  function Crc32(data: seq<bv8>): bv32 {
    Complement(Update(0xFFFF_FFFF, data))
  }

  lemma ComplementInjective(c: bv32, d: bv32)
    ensures Complement(c) == Complement(d) <==> c == d
  {}

  /** For each byte, the byte step is a bijection of the register. */
  lemma ByteStepBijective(b: bv8, d: bv32) returns (c: bv32)
    ensures ByteStep(c, b) == d
    ensures forall e :: ByteStep(e, b) == d ==> e == c
  {
    hide Steps, Xor, Wide;
    var x := StepsSurjective(d, 8);
    c := Xor(x, Wide(b));
    XorUndone(x, Wide(b));
    forall e | ByteStep(e, b) == d ensures e == c {
      StepsInjective(Xor(e, Wide(b)), Xor(c, Wide(b)), 8);
      XorCancels(e, c, Wide(b));
    }
  }

  lemma {:induction false} UpdateInjective(c: bv32, d: bv32, data: seq<bv8>)
    requires Update(c, data) == Update(d, data)
    ensures c == d
    decreases |data|
  {
    hide Steps, Xor, Wide;
    if data != [] {
      var init, b := data[..|data| - 1], Wide(data[|data| - 1]);
      StepsInjective(Xor(Update(c, init), b), Xor(Update(d, init), b), 8);
      XorCancels(Update(c, init), Update(d, init), b);
      UpdateInjective(c, d, init);
    }
  }

  lemma {:induction false} UpdateJoin(c: bv32, a: seq<bv8>, b: seq<bv8>)
    ensures Update(c, a + b) == Update(Update(c, a), b)
    decreases |b|
  {
    hide ByteStep;
    if b == [] {
      assert a + b == a;
    } else {
      UpdateJoin(c, a, b[..|b| - 1]);
      assert (a + b)[..|a + b| - 1] == a + b[..|b| - 1];
    }
  }

  // ---------------------------------------------------------------- windows of four bytes

  /** A byte step moves the upper three bytes down by one. */
  lemma StepsMoveDown(y: bv32)
    requires Fits24(y)
    ensures Steps(Up(y, 8), 8) == y
  {
    hide BitStep, Up;
    MoveBit(y, 7);
    MoveBit(y, 6);
    MoveBit(y, 5);
    MoveBit(y, 4);
    MoveBit(y, 3);
    MoveBit(y, 2);
    MoveBit(y, 1);
    MoveBit(y, 0);
    var z := Up(y, 8);
    assert Steps(z, 1) == Up(y, 7);
    assert Steps(z, 2) == Up(y, 6);
    assert Steps(z, 3) == Up(y, 5);
    assert Steps(z, 4) == Up(y, 4);
    assert Steps(z, 5) == Up(y, 3);
    assert Steps(z, 6) == Up(y, 2);
    assert Steps(z, 7) == Up(y, 1);
    NotUp(y);
  }

  function Up(y: bv32, k: bv5): bv32 { y << k }
  predicate Fits24(y: bv32) { y & 0xFF00_0000 == 0 }

  lemma NotUp(y: bv32)
    ensures Up(y, 0) == y
  {}

  lemma MoveBit(y: bv32, k: bv5)
    requires Fits24(y) && k < 8
    ensures BitStep(Up(y, k + 1)) == Up(y, k)
  {}

  /** Byte `b` placed `k` bytes up. */
  function Placed(b: bv8, k: nat): bv32 {
    if k == 0 then Wide(b) else Up(Placed(b, k - 1), 8)
  }

  lemma PlacedLow(b: bv8, k: nat)
    requires k <= 2
    ensures Fits24(Placed(b, k))
  {
    PlacedShift(b);
    BelowTop(b);
  }

  lemma BelowTop(b: bv8)
    ensures Fits24(b as bv32) && Fits24((b as bv32) << 8) && Fits24((b as bv32) << 16)
  {}

  /** `k` bytes' worth of steps. */
  function ZeroSteps(c: bv32, k: nat): bv32 {
    if k == 0 then c else Steps(ZeroSteps(c, k - 1), 8)
  }

  lemma {:induction false} ZeroStepsLinear(c: bv32, d: bv32, k: nat)
    ensures ZeroSteps(Xor(c, d), k) == Xor(ZeroSteps(c, k), ZeroSteps(d, k))
  {
    hide Steps, Xor;
    if k > 0 {
      ZeroStepsLinear(c, d, k - 1);
      StepsLinear(ZeroSteps(c, k - 1), ZeroSteps(d, k - 1), 8);
    }
  }

  lemma {:induction false} ZeroStepsInjective(c: bv32, d: bv32, k: nat)
    requires ZeroSteps(c, k) == ZeroSteps(d, k)
    ensures c == d
  {
    hide Steps;
    if k > 0 {
      StepsInjective(ZeroSteps(c, k - 1), ZeroSteps(d, k - 1), 8);
      ZeroStepsInjective(c, d, k - 1);
    }
  }

  lemma {:induction false} PlacedComesDown(b: bv8, k: nat)
    requires k <= 3
    ensures ZeroSteps(Placed(b, k), k) == Wide(b)
  {
    hide Steps, Wide, Up, Fits24;
    if k > 0 {
      PlacedLow(b, k - 1);
      StepsMoveDown(Placed(b, k - 1));
      ZeroStepsShift(Placed(b, k), k);
      PlacedComesDown(b, k - 1);
    }
  }

  lemma {:induction false} ZeroStepsShift(c: bv32, k: nat)
    requires k > 0
    ensures ZeroSteps(c, k) == ZeroSteps(Steps(c, 8), k - 1)
  {
    hide Steps;
    if k > 1 { ZeroStepsShift(c, k - 1); }
  }

  /** Up to four bytes as one word, the first byte lowest. */
  function Word(w: seq<bv8>): bv32 {
    if w == [] then 0 else Xor(Word(w[..|w| - 1]), Placed(w[|w| - 1], |w| - 1))
  }

  /** Up to four bytes enter the state as one word. */
  lemma {:induction false} UpdateWord(c: bv32, w: seq<bv8>)
    requires |w| <= 4
    ensures Update(c, w) == ZeroSteps(Xor(c, Word(w)), |w|)
    decreases |w|
  {
    hide Steps, Placed, Xor, Wide;
    if w == [] {
      XorZero(c);
    } else {
      var k, b := |w| - 1, w[|w| - 1];
      UpdateWord(c, w[..k]);
      PlacedComesDown(b, k);
      ZeroStepsLinear(Xor(c, Word(w[..k])), Placed(b, k), k);
      XorAssociates(c, Word(w[..k]), Placed(b, k));
    }
  }

  lemma WordBytes(w: seq<bv8>)
    requires |w| == 4
    ensures Word(w) == Xor(Xor(Xor(Placed(w[0], 0), Placed(w[1], 1)), Placed(w[2], 2)), Placed(w[3], 3))
  {
    hide Xor, Placed;
    assert w[..3][..2] == w[..2] && w[..2][..1] == w[..1] && w[..1][..0] == [];
    assert Word([]) == 0;
    assert Word(w[..1]) == Xor(0, Placed(w[0], 0));
    assert Word(w[..2]) == Xor(Word(w[..1]), Placed(w[1], 1));
    assert Word(w[..3]) == Xor(Word(w[..2]), Placed(w[2], 2));
    XorZero(Placed(w[0], 0));
  }

  lemma PlacedShift(b: bv8)
    ensures Placed(b, 0) == b as bv32 && Placed(b, 1) == (b as bv32) << 8
    ensures Placed(b, 2) == (b as bv32) << 16 && Placed(b, 3) == (b as bv32) << 24
  {
    hide Up, Wide;
    assert Placed(b, 1) == Up(Placed(b, 0), 8);
    assert Placed(b, 2) == Up(Placed(b, 1), 8);
    assert Placed(b, 3) == Up(Placed(b, 2), 8);
    ShiftByBytes(b);
  }

  lemma ShiftByBytes(b: bv8)
    ensures Wide(b) == b as bv32 && Up(Wide(b), 8) == (b as bv32) << 8
    ensures Up(Up(Wide(b), 8), 8) == (b as bv32) << 16
    ensures Up(Up(Up(Wide(b), 8), 8), 8) == (b as bv32) << 24
  {
  }

  lemma WordInjective(v: seq<bv8>, w: seq<bv8>)
    requires |v| == |w| == 4 && Word(v) == Word(w)
    ensures v == w
  {
    hide Word, Placed, Xor;
    WordBytes(v);
    WordBytes(w);
    PlacedApart(v[0], v[1], v[2], v[3], w[0], w[1], w[2], w[3]);
  }

  lemma PlacedApart(a: bv8, b: bv8, c: bv8, d: bv8, p: bv8, q: bv8, r: bv8, s: bv8)
    requires Xor(Xor(Xor(Placed(a, 0), Placed(b, 1)), Placed(c, 2)), Placed(d, 3))
          == Xor(Xor(Xor(Placed(p, 0), Placed(q, 1)), Placed(r, 2)), Placed(s, 3))
    ensures a == p && b == q && c == r && d == s
  {
    Assembled(a, b, c, d);
    Assembled(p, q, r, s);
    hide Placed, Xor, Joined;
    FourBytes(a, b, c, d, p, q, r, s);
  }

  function Joined(a: bv8, b: bv8, c: bv8, d: bv8): bv32 {
    (a as bv32) ^ ((b as bv32) << 8) ^ ((c as bv32) << 16) ^ ((d as bv32) << 24)
  }

  lemma Assembled(a: bv8, b: bv8, c: bv8, d: bv8)
    ensures Xor(Xor(Xor(Placed(a, 0), Placed(b, 1)), Placed(c, 2)), Placed(d, 3))
         == Joined(a, b, c, d)
  {
    hide Placed;
    PlacedShift(a);
    PlacedShift(b);
    PlacedShift(c);
    PlacedShift(d);
  }

  lemma FourBytes(a: bv8, b: bv8, c: bv8, d: bv8, p: bv8, q: bv8, r: bv8, s: bv8)
    requires Joined(a, b, c, d) == Joined(p, q, r, s)
    ensures a == p && b == q && c == r && d == s
  {}

  /** Payloads that differ, but only inside a window of four bytes, have different checksums. */
  lemma WindowDetected(before: seq<bv8>, v: seq<bv8>, w: seq<bv8>, after: seq<bv8>)
    requires |v| == |w| == 4 && v != w
    ensures Crc32(before + v + after) != Crc32(before + w + after)
  {
    hide Update, Word, ZeroSteps, Xor, Complement;
    var c := Update(0xFFFF_FFFF, before);
    UpdateJoin(0xFFFF_FFFF, before, v);
    UpdateJoin(0xFFFF_FFFF, before, w);
    UpdateJoin(0xFFFF_FFFF, before + v, after);
    UpdateJoin(0xFFFF_FFFF, before + w, after);
    if Crc32(before + v + after) == Crc32(before + w + after) {
      ComplementInjective(Update(0xFFFF_FFFF, before + v + after), Update(0xFFFF_FFFF, before + w + after));
      UpdateInjective(Update(c, v), Update(c, w), after);
      UpdateWord(c, v);
      UpdateWord(c, w);
      ZeroStepsInjective(Xor(c, Word(v)), Xor(c, Word(w)), 4);
      XorCancels(Word(v), Word(w), c);
      WordInjective(v, w);
    }
  }

  /** Payloads of one length that agree outside four consecutive bytes are equal if their
      checksums are. */
  lemma WindowTheorem(a: seq<bv8>, b: seq<bv8>, at: nat)
    requires |a| == |b| && at + 4 <= |a|
    requires forall i :: 0 <= i < |a| && !(at <= i < at + 4) ==> a[i] == b[i]
    ensures Crc32(a) == Crc32(b) <==> a == b
  {
    hide Crc32;
    var before, after := a[..at], a[at + 4..];
    var v, w := a[at..at + 4], b[at..at + 4];
    assert a == before + v + after && b == before + w + after;
    if v != w { WindowDetected(before, v, w, after); }
  }

  /** Which bytes are the same does not matter: only the difference of two payloads decides
      whether their checksums agree. */
  lemma {:induction false} UpdateLinear(c: bv32, d: bv32, a: seq<bv8>, b: seq<bv8>)
    requires |a| == |b|
    ensures Update(Xor(c, d), Difference(a, b)) == Xor(Update(c, a), Update(d, b))
    decreases |a|
  {
    hide Steps, Xor, Wide;
    if a != [] {
      var n := |a| - 1;
      UpdateLinear(c, d, a[..n], b[..n]);
      assert Difference(a, b)[..n] == Difference(a[..n], b[..n]);
      StepsLinear(Xor(Update(c, a[..n]), Wide(a[n])), Xor(Update(d, b[..n]), Wide(b[n])), 8);
      XorShuffle(Update(c, a[..n]), Update(d, b[..n]), a[n], b[n]);
    }
  }

  function Difference(a: seq<bv8>, b: seq<bv8>): (r: seq<bv8>)
    requires |a| == |b|
    ensures |r| == |a|
  {
    seq(|a|, i requires 0 <= i < |a| => a[i] ^ b[i])
  }

  lemma XorShuffle(c: bv32, d: bv32, a: bv8, b: bv8)
    ensures Xor(Xor(c, Wide(a)), Xor(d, Wide(b))) == Xor(Xor(c, d), Wide(a ^ b))
  {
    WideXor(a, b);
    hide Xor, Wide;
    XorAssociates(Xor(c, Wide(a)), d, Wide(b));
    XorMoves(c, d, Wide(a));
    XorAssociates(Xor(c, d), Wide(a), Wide(b));
  }

  lemma WideXor(a: bv8, b: bv8)
    ensures Wide(a ^ b) == Xor(Wide(a), Wide(b))
  {}

  lemma CollisionIsDifference(a: seq<bv8>, b: seq<bv8>)
    requires |a| == |b|
    ensures Crc32(a) == Crc32(b) <==> Update(0, Difference(a, b)) == 0
  {
    hide Update, Difference, Complement, Xor;
    UpdateLinear(0xFFFF_FFFF, 0xFFFF_FFFF, a, b);
    XorCancels(Update(0xFFFF_FFFF, a), Update(0xFFFF_FFFF, b), Update(0xFFFF_FFFF, b));
    XorZero(Update(0xFFFF_FFFF, b));
    XorZero(0xFFFF_FFFF);
    ComplementInjective(Update(0xFFFF_FFFF, a), Update(0xFFFF_FFFF, b));
  }

  /** `crc32_ieee` */
  method Crc32Ieee(data: seq<bv8>) returns (crc: bv32)
    ensures crc == Crc32(data)
  {
    hide BitStep, Xor, Wide, Complement;
    var c: bv32 := 0xFFFF_FFFF;
    for i := 0 to |data|
      invariant c == Update(0xFFFF_FFFF, data[..i])
    {
      c := Xor(c, Wide(data[i]));
      ghost var start := c;
      for k := 0 to 8
        invariant c == Steps(start, k)
      {
        c := ShiftOnce(c);
      }
      assert data[..i + 1][..i] == data[..i];
    }
    assert data[..|data|] == data;
    crc := Complement(c);
  }

  method ShiftOnce(c: bv32) returns (r: bv32)
    ensures r == BitStep(c)
  {
    var mask: bv32 := 0 - (c & 1);
    r := (c >> 1) ^ (POLYNOMIAL & mask);
  }

  // ---------------------------------------------------------------- the check value

  lemma EightSteps(c: bv32)
    ensures Steps(c, 8) == BitStep(BitStep(BitStep(BitStep(BitStep(BitStep(BitStep(BitStep(c))))))))
  {
    hide BitStep;
    assert Steps(c, 1) == BitStep(Steps(c, 0));
    assert Steps(c, 2) == BitStep(Steps(c, 1));
    assert Steps(c, 3) == BitStep(Steps(c, 2));
    assert Steps(c, 4) == BitStep(Steps(c, 3));
    assert Steps(c, 5) == BitStep(Steps(c, 4));
    assert Steps(c, 6) == BitStep(Steps(c, 5));
    assert Steps(c, 7) == BitStep(Steps(c, 6));
  }

  lemma FirstXor(c: bv32, b: bv8, d: bv32)
    requires c ^ Wide(b) == d
    ensures ByteStep(c, b) == Steps(d, 8)
  {
    hide Steps;
  }

  lemma Check1()
    ensures ByteStep(0xFFFF_FFFF, 0x31) == 0x7C23_1048
  {
    hide Steps;
    FirstXor(0xFFFF_FFFF, 0x31, 0xFFFF_FFCE);
    EightSteps(0xFFFF_FFCE);
    assert BitStep(0xFFFF_FFCE) == 0x7FFF_FFE7 && BitStep(0x7FFF_FFE7) == 0xD247_7CD3;
    assert BitStep(0xD247_7CD3) == 0x849B_3D49 && BitStep(0x849B_3D49) == 0xAFF5_1D84;
    assert BitStep(0xAFF5_1D84) == 0x57FA_8EC2 && BitStep(0x57FA_8EC2) == 0x2BFD_4761;
    assert BitStep(0x2BFD_4761) == 0xF846_2090 && BitStep(0xF846_2090) == 0x7C23_1048;
  }

  lemma Check2()
    ensures ByteStep(0x7C23_1048, 0x32) == 0xB0AC_BB32
  {
    hide Steps;
    FirstXor(0x7C23_1048, 0x32, 0x7C23_107A);
    EightSteps(0x7C23_107A);
    assert BitStep(0x7C23_107A) == 0x3E11_883D && BitStep(0x3E11_883D) == 0xF2B0_473E;
    assert BitStep(0xF2B0_473E) == 0x7958_239F && BitStep(0x7958_239F) == 0xD114_92EF;
    assert BitStep(0xD114_92EF) == 0x8532_CA57 && BitStep(0x8532_CA57) == 0xAF21_E60B;
    assert BitStep(0xAF21_E60B) == 0xBA28_7025 && BitStep(0xBA28_7025) == 0xB0AC_BB32;
  }

  lemma Check3()
    ensures ByteStep(0xB0AC_BB32, 0x33) == 0x77B7_9C2D
  {
    hide Steps;
    FirstXor(0xB0AC_BB32, 0x33, 0xB0AC_BB01);
    EightSteps(0xB0AC_BB01);
    assert BitStep(0xB0AC_BB01) == 0xB5EE_DEA0 && BitStep(0xB5EE_DEA0) == 0x5AF7_6F50;
    assert BitStep(0x5AF7_6F50) == 0x2D7B_B7A8 && BitStep(0x2D7B_B7A8) == 0x16BD_DBD4;
    assert BitStep(0x16BD_DBD4) == 0x0B5E_EDEA && BitStep(0x0B5E_EDEA) == 0x05AF_76F5;
    assert BitStep(0x05AF_76F5) == 0xEF6F_385A && BitStep(0xEF6F_385A) == 0x77B7_9C2D;
  }

  lemma Check4()
    ensures ByteStep(0x77B7_9C2D, 0x34) == 0x641C_1F5C
  {
    hide Steps;
    FirstXor(0x77B7_9C2D, 0x34, 0x77B7_9C19);
    EightSteps(0x77B7_9C19);
    assert BitStep(0x77B7_9C19) == 0xD663_4D2C && BitStep(0xD663_4D2C) == 0x6B31_A696;
    assert BitStep(0x6B31_A696) == 0x3598_D34B && BitStep(0x3598_D34B) == 0xF774_EA85;
    assert BitStep(0xF774_EA85) == 0x9602_F662 && BitStep(0x9602_F662) == 0x4B01_7B31;
    assert BitStep(0x4B01_7B31) == 0xC838_3EB8 && BitStep(0xC838_3EB8) == 0x641C_1F5C;
  }

  lemma Check5()
    ensures ByteStep(0x641C_1F5C, 0x35) == 0x340A_C5E3
  {
    hide Steps;
    FirstXor(0x641C_1F5C, 0x35, 0x641C_1F69);
    EightSteps(0x641C_1F69);
    assert BitStep(0x641C_1F69) == 0xDFB6_8C94 && BitStep(0xDFB6_8C94) == 0x6FDB_464A;
    assert BitStep(0x6FDB_464A) == 0x37ED_A325 && BitStep(0x37ED_A325) == 0xF64E_52B2;
    assert BitStep(0xF64E_52B2) == 0x7B27_2959 && BitStep(0x7B27_2959) == 0xD02B_178C;
    assert BitStep(0xD02B_178C) == 0x6815_8BC6 && BitStep(0x6815_8BC6) == 0x340A_C5E3;
  }

  lemma Check6()
    ensures ByteStep(0x340A_C5E3, 0x36) == 0xF68D_2C9E
  {
    hide Steps;
    FirstXor(0x340A_C5E3, 0x36, 0x340A_C5D5);
    EightSteps(0x340A_C5D5);
    assert BitStep(0x340A_C5D5) == 0xF7BD_E1CA && BitStep(0xF7BD_E1CA) == 0x7BDE_F0E5;
    assert BitStep(0x7BDE_F0E5) == 0xD057_FB52 && BitStep(0xD057_FB52) == 0x682B_FDA9;
    assert BitStep(0x682B_FDA9) == 0xD9AD_7DF4 && BitStep(0xD9AD_7DF4) == 0x6CD6_BEFA;
    assert BitStep(0x6CD6_BEFA) == 0x366B_5F7D && BitStep(0x366B_5F7D) == 0xF68D_2C9E;
  }

  lemma Check7()
    ensures ByteStep(0xF68D_2C9E, 0x37) == 0xAFFC_9660
  {
    hide Steps;
    FirstXor(0xF68D_2C9E, 0x37, 0xF68D_2CA9);
    EightSteps(0xF68D_2CA9);
    assert BitStep(0xF68D_2CA9) == 0x96FE_1574 && BitStep(0x96FE_1574) == 0x4B7F_0ABA;
    assert BitStep(0x4B7F_0ABA) == 0x25BF_855D && BitStep(0x25BF_855D) == 0xFF67_418E;
    assert BitStep(0xFF67_418E) == 0x7FB3_A0C7 && BitStep(0x7FB3_A0C7) == 0xD261_5343;
    assert BitStep(0xD261_5343) == 0x8488_2A81 && BitStep(0x8488_2A81) == 0xAFFC_9660;
  }

  lemma Check8()
    ensures ByteStep(0xAFFC_9660, 0x38) == 0x651F_2550
  {
    hide Steps;
    FirstXor(0xAFFC_9660, 0x38, 0xAFFC_9658);
    EightSteps(0xAFFC_9658);
    assert BitStep(0xAFFC_9658) == 0x57FE_4B2C && BitStep(0x57FE_4B2C) == 0x2BFF_2596;
    assert BitStep(0x2BFF_2596) == 0x15FF_92CB && BitStep(0x15FF_92CB) == 0xE747_4A45;
    assert BitStep(0xE747_4A45) == 0x9E1B_2602 && BitStep(0x9E1B_2602) == 0x4F0D_9301;
    assert BitStep(0x4F0D_9301) == 0xCA3E_4AA0 && BitStep(0xCA3E_4AA0) == 0x651F_2550;
  }

  lemma Check9()
    ensures ByteStep(0x651F_2550, 0x39) == 0x340B_C6D9
  {
    hide Steps;
    FirstXor(0x651F_2550, 0x39, 0x651F_2569);
    EightSteps(0x651F_2569);
    assert BitStep(0x651F_2569) == 0xDF37_1194 && BitStep(0xDF37_1194) == 0x6F9B_88CA;
    assert BitStep(0x6F9B_88CA) == 0x37CD_C465 && BitStep(0x37CD_C465) == 0xF65E_6112;
    assert BitStep(0xF65E_6112) == 0x7B2F_3089 && BitStep(0x7B2F_3089) == 0xD02F_1B64;
    assert BitStep(0xD02F_1B64) == 0x6817_8DB2 && BitStep(0x6817_8DB2) == 0x340B_C6D9;
  }

  /** "123456789" */
  function CheckInput(): (data: seq<bv8>)
    ensures |data| == 9
  {
    [0x31, 0x32, 0x33, 0x34, 0x35, 0x36, 0x37, 0x38, 0x39]
  }

  /** After `k` bytes the register is `r`. */
  ghost predicate After(data: seq<bv8>, k: nat, r: bv32) {
    k <= |data| && Update(0xFFFF_FFFF, data[..k]) == r
  }

  lemma Advance(data: seq<bv8>, k: nat, r: bv32, b: bv8, next: bv32)
    requires After(data, k, r) && k < |data| && data[k] == b && ByteStep(r, b) == next
    ensures After(data, k + 1, next)
  {
    hide ByteStep;
    assert data[..k + 1][..k] == data[..k] && data[..k + 1][k] == data[k];
  }

  lemma AtStart(data: seq<bv8>)
    ensures After(data, 0, 0xFFFF_FFFF)
  {}

  lemma AtEnd(data: seq<bv8>, r: bv32)
    requires After(data, |data|, r)
    ensures Crc32(data) == Complement(r)
  {
    hide Update, Complement;
    assert data[..|data|] == data;
  }

  /** The check value of this checksum, from which its polynomial and conventions can be told. */
  lemma CheckValue(data: seq<bv8>)
    requires data == CheckInput()
    ensures Crc32(data) == 0xCBF4_3926
  {
    CheckBytes(data);
    AtStart(data);
    hide CheckInput, ByteStep, Crc32, Complement, After;
    Check1();
    Advance(data, 0, 0xFFFF_FFFF, 0x31, 0x7C23_1048);
    Check2();
    Advance(data, 1, 0x7C23_1048, 0x32, 0xB0AC_BB32);
    Check3();
    Advance(data, 2, 0xB0AC_BB32, 0x33, 0x77B7_9C2D);
    Check4();
    Advance(data, 3, 0x77B7_9C2D, 0x34, 0x641C_1F5C);
    Check5();
    Advance(data, 4, 0x641C_1F5C, 0x35, 0x340A_C5E3);
    Check6();
    Advance(data, 5, 0x340A_C5E3, 0x36, 0xF68D_2C9E);
    Check7();
    Advance(data, 6, 0xF68D_2C9E, 0x37, 0xAFFC_9660);
    Check8();
    Advance(data, 7, 0xAFFC_9660, 0x38, 0x651F_2550);
    Check9();
    Advance(data, 8, 0x651F_2550, 0x39, 0x340B_C6D9);
    AtEnd(data, 0x340B_C6D9);
    Complemented();
  }

  lemma Complemented()
    ensures Complement(0x340B_C6D9) == 0xCBF4_3926
  {}

  lemma CheckBytes(data: seq<bv8>)
    requires data == CheckInput()
    ensures data[0] == 0x31 && data[1] == 0x32 && data[2] == 0x33 && data[3] == 0x34 && data[4] == 0x35
    ensures data[5] == 0x36 && data[6] == 0x37 && data[7] == 0x38 && data[8] == 0x39
  {}
}
