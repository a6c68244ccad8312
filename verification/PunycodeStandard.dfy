/** The parameters of Punycode and its bias adaptation as sections 5 and 6.1 of RFC 3492 give them,
    and sample strings with their encodings. */
module PunycodeStandard {
  import opened Basics
  import opened PunycodeIntegers
  import opened Punycode

  // ---------------------------------------------------------------- section 6.1

  /** 35 to the power `j`. */
  function Power35(j: nat): (p: nat)
    ensures p >= 1
  {
    if j == 0 then 1 else 35 * Power35(j - 1)
  }

  /** What is left of `e` after `j` divisions by 35. */
  function Left(e: nat, j: nat): (r: nat) {
    Quot(e, Power35(j))
  }

  lemma DivideAgain(e: nat, p: nat)
    requires p >= 1
    ensures (e / 35) / p == e / (35 * p)
  {
    var q, r := e / 35, e % 35;
    var m, s := q / p, q % p;
    assert e == 35 * q + r && q == m * p + s;
    assert e == (35 * s + r) + m * (35 * p) by {
      assert 35 * (m * p) == m * (35 * p);
    }
    assert 35 * s + r < 35 * p;
    Quotient(35 * s + r, m, 35 * p);
  }

  lemma LeftOver(e: nat, j: nat)
    ensures Left(e, 0) == e && Left(e, j + 1) == Left(e / 35, j)
  {
    DivideAgain(e, Power35(j));
  }

  /** The loop divides by 35 until at most 455 is left. */
  lemma {:induction false} LoopMeans(e: nat, k: nat) returns (j: nat)
    ensures Left(e, j) <= 455 && forall i: nat :: i < j ==> Left(e, i) > 455
    ensures AdaptLoop(e, k) == k + 36 * j + Quot(36 * Left(e, j), Left(e, j) + 38)
    decreases e
  {
    hide Left, Quot;
    LeftOver(e, 0);
    if e <= 455 {
      j := 0;
      LoopEnds(e, k);
    } else {
      var i := LoopMeans(e / 35, k + 36);
      j := i + 1;
      LeftOver(e, i);
      forall h: nat | h < j ensures Left(e, h) > 455 {
        if h > 0 { LeftOver(e, h - 1); }
      }
    }
  }

  lemma LoopEnds(e: nat, k: nat)
    requires e <= 455
    ensures AdaptLoop(e, k) == k + Quot(36 * e, e + 38)
  {}

  /** The adapted bias: the delta is divided by 700 the first time and by 2 later, a fraction for the
      number of points is added, and with j the least number such that at most 455 is left after j
      divisions by 35, the bias is 36 j and a fraction of 36. */
  lemma AdaptStandard(delta: nat, points: nat, first: bool) returns (j: nat)
    requires points > 0
    ensures var d := if first then delta / 700 else delta / 2;
            var e := d + Quot(d, points);
            && Left(e, j) <= 455 && (forall i: nat :: i < j ==> Left(e, i) > 455)
            && Adapt(delta, points, first) == 36 * j + Quot(36 * Left(e, j), Left(e, j) + 38)
  {
    var d := if first then delta / 700 else delta / 2;
    j := LoopMeans(d + Quot(d, points), 0);
  }

  // ---------------------------------------------------------------- section 5

  /** Digits are the lower-case letters and then the decimal digits; thresholds are held between 1
      and 26; the initial values are 128, 0 and 72. */
  lemma ParametersStandard(k: nat, bias: nat, d: nat)
    requires d < 36
    ensures Threshold(k, bias) == if k <= bias + 1 then 1 else if k >= bias + 26 then 26 else k - bias
    ensures DigitChar(d) == if d < 26 then 97 + d else 22 + d
    ensures DigitValue(DigitChar(d)) == d
    ensures INITIAL_N == 128 && INITIAL_BIAS == 72 && DELIMITER == 45
  {}

  // ---------------------------------------------------------------- samples

  /** One digit that is not the last of its integer. */
  lemma Digit(input: seq<Byte>, at: nat, i: nat, w: nat, k: nat, bias: nat, digit: nat)
    requires at < |input| && DigitValue(input[at]) == digit >= Threshold(k, bias)
    requires w > 0 && i + digit * w <= INT32_MAX && w * (36 - Threshold(k, bias)) <= INT32_MAX
    ensures ReadVarInt(input[at..], i, w, k, bias)
         == ReadVarInt(input[at + 1..], i + digit * w, w * (36 - Threshold(k, bias)), k + 36, bias)
  {
    hide DigitValue, Threshold;
    assert input[at..][0] == input[at] && input[at..][1..] == input[at + 1..];
  }

  /** The last digit of an integer. */
  lemma LastDigit(input: seq<Byte>, at: nat, i: nat, w: nat, k: nat, bias: nat, digit: nat)
    requires at < |input| && DigitValue(input[at]) == digit < Threshold(k, bias)
    requires w > 0 && i + digit * w <= INT32_MAX
    ensures ReadVarInt(input[at..], i, w, k, bias) == Some((i + digit * w, input[at + 1..]))
  {
    hide DigitValue, Threshold;
    assert input[at..][0] == input[at] && input[at..][1..] == input[at + 1..];
  }

  /** One round of the decoder: the integer up to `to` leads from `i` to `sum`, which is `rounds`
      times the new length and a position. */
  lemma Round(out: Points, n: nat, i: nat, bias: nat, input: seq<Byte>, at: nat, to: nat,
              sum: nat, rounds: nat, pos: nat)
    requires at < to <= |input| && pos <= |out| && sum == rounds * (|out| + 1) + pos && i <= sum
    requires n + rounds <= INT32_MAX && n >= 128
    requires ReadVarInt(input[at..], i, 1, 36, bias) == Some((sum, input[to..]))
    ensures DecodeFrom(out, n, i, bias, input[at..])
         == DecodeFrom(InsertAt(out, pos, n + rounds), n + rounds, pos + 1,
                       Adapt(sum - i, |out| + 1, i == 0), input[to..])
  {
    hide ReadVarInt, Adapt, InsertAt;
    Quotient(pos, rounds, |out| + 1);
    assert Advance(n, sum, |out| + 1) == Some((n + rounds, pos));
    DecodeStep(out, n, i, bias, input[at..]);
  }

  /** "4ca0b" */
  function Two(): (s: seq<Byte>)
    ensures |s| == 5
  {
    [52, 99, 97, 48, 98]
  }

  lemma TwoBytes(s: seq<Byte>)
    requires s == Two()
    ensures s[0] == 52 && s[1] == 99 && s[2] == 97 && s[3] == 48 && s[4] == 98
  {}

  lemma TwoDigits()
    ensures DigitValue(Two()[0]) == 30 && DigitValue(Two()[1]) == 2 && DigitValue(Two()[2]) == 0
    ensures DigitValue(Two()[3]) == 26 && DigitValue(Two()[4]) == 1
  {
    TwoBytes(Two());
    hide Two;
  }

  lemma TwoRead0()
    ensures ReadVarInt(Two()[0..], 0, 1, 36, 72) == Some((100, Two()[3..]))
  {
    TwoDigits();
    hide Two, DigitValue, ReadVarInt;
    var s := Two();
    Digit(s, 0, 0, 1, 36, 72, 30);
    Digit(s, 1, 30, 35, 72, 72, 2);
    LastDigit(s, 2, 100, 1225, 108, 72, 0);
  }

  lemma TwoRead1()
    ensures ReadVarInt(Two()[3..], 1, 1, 36, 0) == Some((37, Two()[5..]))
  {
    TwoDigits();
    hide Two, DigitValue, ReadVarInt;
    var s := Two();
    Digit(s, 3, 1, 1, 36, 0, 26);
    LastDigit(s, 4, 27, 10, 72, 0, 1);
  }

  lemma TwoBiases()
    ensures Adapt(100, 1, true) == 0
    ensures Adapt(36, 2, false) == 14
  {
    assert Quot(0, 1) == 0;
    assert AdaptLoop(0, 0) == 0;
    assert Quot(18, 2) == 9;
    assert AdaptLoop(27, 0) == 14;
  }

  lemma TwoInserts()
    ensures InsertAt([], 0, 228) == [228]
    ensures InsertAt([228], 1, 246) == [228, 246]
  {}

  /** It decodes to U+00E4 U+00F6. */
  lemma TwoDecodes()
    ensures Decode(Two()) == Some([0xE4, 0xF6])
  {
    TwoSplit();
    TwoBiases();
    TwoInserts();
    hide Two, ReadVarInt, Adapt, InsertAt, DecodeFrom, Split;
    var s := Two();
    TwoRead0();
    Round([], 128, 0, 72, s, 0, 3, 100, 100, 0);
    TwoRead1();
    Round([228], 228, 1, 0, s, 3, 5, 37, 18, 1);
    assert s[5..] == [];
    DecodeStep([228, 246], 246, 2, 14, []);
  }

  lemma TwoSplit()
    ensures Split(Two()) == ([], Two()[0..]) && AllBasic(Split(Two()).0)
  {
    var s := Two();
    assert LastDelimiter(s) == -1 by {
      forall j | 0 <= j < 5 ensures s[j] != DELIMITER {}
    }
    assert s[0..] == s;
  }

  /** And that string encodes to it. */
  lemma TwoEncodes()
    ensures Encode([0xE4, 0xF6]) == Some(Two())
  {
    TwoDecodes();
    hide Decode, Encode, Two;
    EncodeDecode(Two());
  }

  /** "3B-ww4c5e180e575a65lsy2b" */
  function School(): (s: seq<Byte>)
    ensures |s| == 24
  {
    SchoolFront() + SchoolBack()
  }

  function SchoolFront(): (s: seq<Byte>)
    ensures |s| == 12
  {
    [51, 66, 45, 119, 119, 52, 99, 53, 101, 49, 56, 48]
  }

  function SchoolBack(): (s: seq<Byte>)
    ensures |s| == 12
  {
    [101, 53, 55, 53, 97, 54, 53, 108, 115, 121, 50, 98]
  }

  lemma SchoolFrontBytes(s: seq<Byte>)
    requires s == SchoolFront()
    ensures s[0] == 51 && s[1] == 66 && s[2] == 45 && s[3] == 119 && s[4] == 119 && s[5] == 52
    ensures s[6] == 99 && s[7] == 53 && s[8] == 101 && s[9] == 49 && s[10] == 56 && s[11] == 48
  {}

  lemma SchoolBackBytes(s: seq<Byte>)
    requires s == SchoolBack()
    ensures s[0] == 101 && s[1] == 53 && s[2] == 55 && s[3] == 53 && s[4] == 97 && s[5] == 54
    ensures s[6] == 53 && s[7] == 108 && s[8] == 115 && s[9] == 121 && s[10] == 50 && s[11] == 98
  {}

  lemma SchoolBytes(s: seq<Byte>)
    requires s == School()
    ensures s[0] == 51 && s[1] == 66 && s[2] == 45 && s[3] == 119 && s[4] == 119 && s[5] == 52
    ensures s[6] == 99 && s[7] == 53 && s[8] == 101 && s[9] == 49 && s[10] == 56 && s[11] == 48
    ensures s[12] == 101 && s[13] == 53 && s[14] == 55 && s[15] == 53 && s[16] == 97 && s[17] == 54
    ensures s[18] == 53 && s[19] == 108 && s[20] == 115 && s[21] == 121 && s[22] == 50 && s[23] == 98
  {
    SchoolFrontBytes(SchoolFront());
    SchoolBackBytes(SchoolBack());
    hide SchoolFront, SchoolBack;
  }

  lemma SchoolDigits()
    ensures DigitValue(School()[3]) == 22 && DigitValue(School()[4]) == 22 && DigitValue(School()[5]) == 30
    ensures DigitValue(School()[6]) == 2 && DigitValue(School()[7]) == 31 && DigitValue(School()[8]) == 4
    ensures DigitValue(School()[9]) == 27 && DigitValue(School()[10]) == 34 && DigitValue(School()[11]) == 26
    ensures DigitValue(School()[12]) == 4 && DigitValue(School()[13]) == 31 && DigitValue(School()[14]) == 33
    ensures DigitValue(School()[15]) == 31 && DigitValue(School()[16]) == 0 && DigitValue(School()[17]) == 32
    ensures DigitValue(School()[18]) == 31 && DigitValue(School()[19]) == 11 && DigitValue(School()[20]) == 18
    ensures DigitValue(School()[21]) == 24 && DigitValue(School()[22]) == 28 && DigitValue(School()[23]) == 1
  {
    SchoolBytes(School());
    hide School;
  }

  lemma SchoolRead0()
    ensures ReadVarInt(School()[3..], 0, 1, 36, 72) == Some((62042, School()[7..]))
  {
    SchoolDigits();
    hide School, DigitValue, ReadVarInt;
    var s := School();
    Digit(s, 3, 0, 1, 36, 72, 22);
    Digit(s, 4, 22, 35, 72, 72, 22);
    Digit(s, 5, 792, 1225, 108, 72, 30);
    LastDigit(s, 6, 37542, 12250, 144, 72, 2);
  }

  lemma SchoolRead1()
    ensures ReadVarInt(School()[7..], 3, 1, 36, 27) == Some((142, School()[9..]))
  {
    SchoolDigits();
    hide School, DigitValue, ReadVarInt;
    var s := School();
    Digit(s, 7, 3, 1, 36, 27, 31);
    LastDigit(s, 8, 34, 27, 72, 27, 4);
  }

  lemma SchoolRead2()
    ensures ReadVarInt(School()[9..], 3, 1, 36, 24) == Some((16686, School()[13..]))
  {
    SchoolDigits();
    hide School, DigitValue, ReadVarInt;
    var s := School();
    Digit(s, 9, 3, 1, 36, 24, 27);
    Digit(s, 10, 30, 24, 72, 24, 34);
    Digit(s, 11, 846, 240, 108, 24, 26);
    LastDigit(s, 12, 7086, 2400, 144, 24, 4);
  }

  lemma SchoolRead3()
    ensures ReadVarInt(School()[13..], 2, 1, 36, 67) == Some((34823, School()[17..]))
  {
    SchoolDigits();
    hide School, DigitValue, ReadVarInt;
    var s := School();
    Digit(s, 13, 2, 1, 36, 67, 31);
    Digit(s, 14, 33, 35, 72, 67, 33);
    Digit(s, 15, 1188, 1085, 108, 67, 31);
    LastDigit(s, 16, 34823, 10850, 144, 67, 0);
  }

  lemma SchoolRead4()
    ensures ReadVarInt(School()[17..], 6, 1, 36, 82) == Some((14598, School()[20..]))
  {
    SchoolDigits();
    hide School, DigitValue, ReadVarInt;
    var s := School();
    Digit(s, 17, 6, 1, 36, 82, 32);
    Digit(s, 18, 38, 35, 72, 82, 31);
    LastDigit(s, 19, 1123, 1225, 108, 82, 11);
  }

  lemma SchoolRead5()
    ensures ReadVarInt(School()[20..], 4, 1, 36, 67) == Some((42092, School()[24..]))
  {
    SchoolDigits();
    hide School, DigitValue, ReadVarInt;
    var s := School();
    Digit(s, 20, 4, 1, 36, 67, 18);
    Digit(s, 21, 22, 35, 72, 67, 24);
    Digit(s, 22, 862, 1085, 108, 67, 28);
    LastDigit(s, 23, 31242, 10850, 144, 67, 1);
  }

  lemma SchoolBiases()
    ensures Adapt(62042, 3, true) == 27
    ensures Adapt(139, 4, false) == 24
    ensures Adapt(16683, 5, false) == 67
    ensures Adapt(34821, 6, false) == 82
    ensures Adapt(14592, 7, false) == 67
    ensures Adapt(42088, 8, false) == 84
  {
    assert Quot(88, 3) == 29;
    assert AdaptLoop(117, 0) == 27;
    assert Quot(69, 4) == 17;
    assert AdaptLoop(86, 0) == 24;
    assert Quot(8341, 5) == 1668;
    assert AdaptLoop(285, 36) == 67;
    assert AdaptLoop(10009, 0) == 67;
    assert Quot(17410, 6) == 2901;
    assert AdaptLoop(16, 72) == 82;
    assert AdaptLoop(580, 36) == 82;
    assert AdaptLoop(20311, 0) == 82;
    assert Quot(7296, 7) == 1042;
    assert AdaptLoop(238, 36) == 67;
    assert AdaptLoop(8338, 0) == 67;
    assert Quot(21044, 8) == 2630;
    assert AdaptLoop(19, 72) == 84;
    assert AdaptLoop(676, 36) == 84;
    assert AdaptLoop(23674, 0) == 84;
  }

  lemma SchoolInserts()
    ensures InsertAt([51, 66], 2, 20808) == [51, 66, 20808]
    ensures InsertAt([51, 66, 20808], 2, 20843) == [51, 66, 20843, 20808]
    ensures InsertAt([51, 66, 20843, 20808], 1, 24180) == [51, 24180, 66, 20843, 20808]
    ensures InsertAt([51, 24180, 66, 20843, 20808], 5, 29983) == [51, 24180, 66, 20843, 20808, 29983]
    ensures InsertAt([51, 24180, 66, 20843, 20808, 29983], 3, 32068) == [51, 24180, 66, 32068, 20843, 20808, 29983]
    ensures InsertAt([51, 24180, 66, 32068, 20843, 20808, 29983], 4, 37329)
         == [51, 24180, 66, 32068, 37329, 20843, 20808, 29983]
  {}

  /** It decodes to U+0033 U+5E74 U+0042 U+7D44 U+91D1 U+516B U+5148 U+751F. */
  lemma SchoolDecodes()
    ensures Decode(School()) == Some([0x33, 0x5E74, 0x42, 0x7D44, 0x91D1, 0x516B, 0x5148, 0x751F])
  {
    SchoolSplit();
    SchoolBiases();
    SchoolInserts();
    hide School, ReadVarInt, Adapt, InsertAt, DecodeFrom, Split;
    var s := School();
    SchoolRead0();
    Round([51, 66], 128, 0, 72, s, 3, 7, 62042, 20680, 2);
    SchoolRead1();
    Round([51, 66, 20808], 20808, 3, 27, s, 7, 9, 142, 35, 2);
    SchoolRead2();
    Round([51, 66, 20843, 20808], 20843, 3, 24, s, 9, 13, 16686, 3337, 1);
    SchoolRead3();
    Round([51, 24180, 66, 20843, 20808], 24180, 2, 67, s, 13, 17, 34823, 5803, 5);
    SchoolRead4();
    Round([51, 24180, 66, 20843, 20808, 29983], 29983, 6, 82, s, 17, 20, 14598, 2085, 3);
    SchoolRead5();
    Round([51, 24180, 66, 32068, 20843, 20808, 29983], 32068, 4, 67, s, 20, 24, 42092, 5261, 4);
    assert s[24..] == [];
    DecodeStep([51, 24180, 66, 32068, 37329, 20843, 20808, 29983], 37329, 5, 84, []);
  }

  lemma SchoolSplit()
    ensures Split(School()) == ([51, 66], School()[3..]) && AllBasic(Split(School()).0)
  {
    var s := School();
    SchoolBytes(s);
    hide School, LastDelimiter;
    forall j | 3 <= j < 24 ensures s[j] != DELIMITER {
      assert j == 3 || j == 4 || j == 5 || j == 6 || j == 7 || j == 8 || j == 9 || j == 10 || j == 11 || j ==
            12 || j == 13 || j == 14 || j == 15 || j == 16 || j == 17 || j == 18 || j == 19 || j == 20 || j
            == 21 || j == 22 || j == 23;
    }
    assert LastDelimiter(s) == 2;
    assert s[..2] == [51, 66];
  }

  /** And that string encodes to it. */
  lemma SchoolEncodes()
    ensures Encode([0x33, 0x5E74, 0x42, 0x7D44, 0x91D1, 0x516B, 0x5148, 0x751F]) == Some(School())
  {
    SchoolDecodes();
    hide Decode, Encode, School;
    EncodeDecode(School());
  }
}
