/** The Canonical Composition Algorithm as the Unicode Standard words it (section 3.11, D111,
    D115 and D117), and the pass of `compose` as a refinement of it. */
module CompositionAlgorithm {
  import opened Basics
  import opened UnicodeData
  import opened CanonicalOrder
  import opened Normalization

  /** The character that `a` followed by `b` composes to, Hangul included. */
  function Composite(u: Unicode, a: nat, b: nat): Option<nat> {
    if IsL(a) && IsV(b) then Some(ComposeLV(a, b))
    else if IsLV(a) && IsT(b) then Some(ComposeLVT(a, b))
    else u.pair(a, b)
  }

  /** Position of the last starter of `out`, or -1. */
  function LastStarter(u: Unicode, out: Points): (at: int)
    ensures -1 <= at < |out|
    ensures at >= 0 ==> u.ccc(out[at]) == 0
    ensures forall j :: at < j < |out| ==> u.ccc(out[j]) != 0
  {
    if out == [] then -1
    else if u.ccc(out[|out| - 1]) == 0 then |out| - 1
    else LastStarter(u, out[..|out| - 1])
  }

  /** A character of class `ccc` after `out` is blocked from position `at` (D115). */
  predicate Blocked(u: Unicode, out: Points, at: int, ccc: nat)
    requires at >= -1
  {
    exists j :: at < j < |out| && (u.ccc(out[j]) == 0 || u.ccc(out[j]) >= ccc)
  }

  /** One character: composed onto the last starter if it is not blocked from it, else appended. */
  function Step(u: Unicode, out: Points, c: nat): (out': Points) {
    var at := LastStarter(u, out);
    if at >= 0 && !Blocked(u, out, at, u.ccc(c)) && Composite(u, out[at], c).Some?
    then out[at := Composite(u, out[at], c).value]
    else out + [c]
  }

  function Steps(u: Unicode, out: Points, s: Points): Points
    decreases |s|
  {
    if s == [] then out else Steps(u, Step(u, out, s[0]), s[1..])
  }

  lemma LastStarterIs(u: Unicode, out: Points, at: int)
    requires 0 <= at < |out| && u.ccc(out[at]) == 0
    requires forall j :: at < j < |out| ==> u.ccc(out[j]) != 0
    ensures LastStarter(u, out) == at
  {}

  /** The marks after a starter: `KeptMarks` without the demand on decompositions. */
  predicate Marks(u: Unicode, p: int, kept: Points) {
    && (p == -1 <==> kept == [])
    && (kept != [] ==> u.ccc(kept[|kept| - 1]) == p)
    && forall j :: 0 <= j < |kept| ==> 0 < u.ccc(kept[j]) <= p
  }

  /** What one step does to an open starter with marks behind it. */
  lemma StepOnto(u: Unicode, out: Points, base: nat, p: int, kept: Points, c: nat)
    requires u.ccc(base) == 0 && Marks(u, p, kept)
    ensures Step(u, out + [base] + kept, c)
         == if p < u.ccc(c) && Composite(u, base, c).Some?
            then out + [Composite(u, base, c).value] + kept
            else out + [base] + (kept + [c])
  {
    hide Composite;
    var all, at := out + [base] + kept, |out|;
    assert all[at] == base;
    assert forall j :: at < j < |all| ==> all[j] == kept[j - at - 1];
    LastStarterIs(u, all, at);
    if p < u.ccc(c) {
      assert !Blocked(u, all, at, u.ccc(c));
    } else {
      assert all[|all| - 1] == kept[|kept| - 1];
      assert Blocked(u, all, at, u.ccc(c));
    }
  }

  /** No mark composes onto the last starter of `out`. */
  ghost predicate Inert(u: Unicode, out: Points) {
    var at := LastStarter(u, out);
    at >= 0 ==> forall c: nat :: u.ccc(c) != 0 ==> Composite(u, out[at], c) == None
  }

  /** A mark after an inert output is appended, and leaves it inert. */
  lemma StepInert(u: Unicode, out: Points, c: nat)
    requires Inert(u, out) && u.ccc(c) != 0
    ensures Step(u, out, c) == out + [c] && Inert(u, out + [c])
  {
    assert (out + [c])[..|out|] == out;
    assert LastStarter(u, out + [c]) == LastStarter(u, out);
  }

  /** A starter after a mark is appended. */
  lemma StepStarterAfterMark(u: Unicode, out: Points, c: nat)
    requires out != [] && u.ccc(out[|out| - 1]) != 0 && u.ccc(c) == 0
    ensures Step(u, out, c) == out + [c]
  {
    assert Blocked(u, out, LastStarter(u, out), 0) by { assert u.ccc(out[|out| - 1]) >= 0; }
  }

  lemma InertAfter(u: Unicode, out: Points, b: nat)
    requires u.ccc(b) == 0
    requires forall c: nat :: u.ccc(c) != 0 ==> Composite(u, b, c) == None
    ensures Inert(u, out + [b])
  {
    LastStarterIs(u, out + [b], |out|);
  }

  /** The pass from a point where nothing can compose onto what is already out. */
  lemma {:induction false} ComposeRefines(u: Unicode, out: Points, s: Points)
    requires Facts(u) && Ordered(u, s)
    requires s != [] ==> Step(u, out, s[0]) == out + [s[0]]
    requires s != [] && u.ccc(s[0]) != 0 ==> Inert(u, out)
    ensures Steps(u, out, s) == out + Compose(u, s)
    decreases |s|, 1
  {
    hide ComposeOnto, Ordered, Step, Inert, LastStarter;
    if s == [] {
      assert out + [] == out;
    } else {
      var c, rest := s[0], s[1..];
      OrderedSuffix(u, s, 1);
      if IsL(c) || IsSyllable(c) || c >= 0x110000 {
        HangulRefines(u, out, s);
      } else if u.ccc(c) == 0 {
        assert out + [c] + [] == out + [c];
        OntoRefines(u, out, c, -1, [], rest);
      } else {
        StepInert(u, out, c);
        assert out + [c] + [] == out + [c];
        MarkRefines(u, out, c, -1, [], rest);
      }
    }
  }

  lemma OrderedSuffix(u: Unicode, s: Points, n: nat)
    requires Ordered(u, s) && n <= |s|
    ensures Ordered(u, s[n..])
    ensures n > 0 ==> Follows(u, u.ccc(s[n - 1]), s[n..])
  {
    var t := s[n..];
    forall j | 0 < j < |t| && u.ccc(t[j]) != 0 ensures u.ccc(t[j - 1]) <= u.ccc(t[j]) {
      assert t[j] == s[n + j] && t[j - 1] == s[n + j - 1];
    }
    if n > 0 && t != [] { assert t[0] == s[n]; }
  }

  /** How many characters the pass takes together when it starts at a jamo or a syllable. */
  function HangulTaken(s: Points): (n: nat)
    requires s != []
    ensures 1 <= n <= |s|
  {
    if IsL(s[0]) && |s| > 1 && IsV(s[1]) then (if |s| > 2 && IsT(s[2]) then 3 else 2)
    else if IsLV(s[0]) && |s| > 1 && IsT(s[1]) then 2
    else 1
  }

  function HangulResult(s: Points): (x: nat)
    requires s != []
  {
    if IsL(s[0]) && |s| > 1 && IsV(s[1]) then
      if |s| > 2 && IsT(s[2]) then ComposeLVT(ComposeLV(s[0], s[1]), s[2]) else ComposeLV(s[0], s[1])
    else if IsLV(s[0]) && |s| > 1 && IsT(s[1]) then ComposeLVT(s[0], s[1])
    else s[0]
  }

  lemma StepAfter(u: Unicode, out: Points, b: nat, c: nat)
    requires u.ccc(b) == 0
    ensures Step(u, out + [b], c) == if Composite(u, b, c).Some? then out + [Composite(u, b, c).value]
                                     else out + [b] + [c]
  {
    assert out + [b] + [] == out + [b] && [] + [c] == [c];
    StepOnto(u, out, b, -1, [], c);
    if Composite(u, b, c).Some? {
      assert out + [Composite(u, b, c).value] + [] == out + [Composite(u, b, c).value];
    }
  }

  /** The steps over the characters that the pass takes together. */
  lemma HangulSteps(u: Unicode, out: Points, s: Points)
    requires Facts(u) && s != [] && (IsL(s[0]) || IsSyllable(s[0]) || s[0] >= 0x110000)
    requires Step(u, out, s[0]) == out + [s[0]]
    ensures Steps(u, out, s) == Steps(u, out + [HangulResult(s)], s[HangulTaken(s)..])
    ensures u.ccc(HangulResult(s)) == 0
    ensures HangulTaken(s) < |s| ==> Composite(u, HangulResult(s), s[HangulTaken(s)]) == None
  {
    hide Step;
    var n := HangulTaken(s);
    assert Steps(u, out, s) == Steps(u, out + [s[0]], s[1..]);
    if n >= 2 {
      var x := if IsL(s[0]) then ComposeLV(s[0], s[1]) else ComposeLVT(s[0], s[1]);
      StepAfter(u, out, s[0], s[1]);
      assert s[1..][0] == s[1] && s[1..][1..] == s[2..];
      assert Steps(u, out + [s[0]], s[1..]) == Steps(u, out + [x], s[2..]);
      if n == 3 {
        StepAfter(u, out, x, s[2]);
        assert s[2..][0] == s[2] && s[2..][1..] == s[3..];
      }
    }
  }

  lemma HangulInert(u: Unicode, s: Points, c: nat)
    requires Facts(u) && s != [] && (IsL(s[0]) || IsSyllable(s[0]) || s[0] >= 0x110000) && u.ccc(c) != 0
    ensures Composite(u, HangulResult(s), c) == None
  {}

  lemma {:induction false} HangulRefines(u: Unicode, out: Points, s: Points)
    requires Facts(u) && Ordered(u, s)
    requires s != [] && (IsL(s[0]) || IsSyllable(s[0]) || s[0] >= 0x110000)
    requires Step(u, out, s[0]) == out + [s[0]]
    ensures Steps(u, out, s) == out + Compose(u, s)
    decreases |s|, 0
  {
    var n, x := HangulTaken(s), HangulResult(s);
    HangulSteps(u, out, s);
    OrderedSuffix(u, s, n);
    assert Compose(u, s) == [x] + Compose(u, s[n..]);
    hide Composite, Step, Steps, Inert, Compose, Ordered, Facts, LastStarter, HangulTaken, HangulResult;
    forall c: nat | u.ccc(c) != 0 ensures Composite(u, x, c) == None { HangulInert(u, s, c); }
    InertAfter(u, out, x);
    if n < |s| {
      StepAfter(u, out, x, s[n]);
      assert s[n..][0] == s[n];
    }
    ComposeRefines(u, out + [x], s[n..]);
    Associate(out, [x], Compose(u, s[n..]));
  }

  /** The pass onto an open starter. */
  lemma {:induction false} OntoRefines(u: Unicode, out: Points, base: nat, p: int, kept: Points, s: Points)
    requires Facts(u) && Ordered(u, s) && Marks(u, p, kept) && Follows(u, p, s)
    requires u.ccc(base) == 0 && !IsL(base) && !IsSyllable(base)
    ensures Steps(u, out + [base] + kept, s) == out + ComposeOnto(u, base, p, kept, s)
    decreases |s|, 2
  {
    hide Step, Inert, Compose, Ordered, Marks, LastStarter;
    var all := out + [base] + kept;
    if s == [] {
      Associate(out, [base], kept);
    } else {
      var c, rest := s[0], s[1..];
      OrderedSuffix(u, s, 1);
      StepOnto(u, out, base, p, kept, c);
      if p < u.ccc(c) && u.pair(base, c).Some? {
        OntoRefines(u, out, u.pair(base, c).value, p, kept, rest);
      } else if u.ccc(c) == 0 {
        Associate(out + [base], kept, [c]);
        ComposeRefines(u, all, s);
        OpenEnd(out, base, kept, Compose(u, s));
      } else {
        MarksMore(u, p, kept, c);
        OntoRefines(u, out, base, u.ccc(c), kept + [c], rest);
      }
    }
  }

  lemma OpenEnd(out: Points, base: nat, kept: Points, rest: Points)
    ensures (out + [base] + kept) + rest == out + ([base] + kept + rest)
  {}

  lemma MarksMore(u: Unicode, p: int, kept: Points, c: nat)
    requires Marks(u, p, kept) && u.ccc(c) != 0 && p <= u.ccc(c)
    ensures Marks(u, u.ccc(c), kept + [c])
  {}

  /** The pass onto a mark with no starter to compose with. */
  lemma {:induction false} MarkRefines(u: Unicode, out: Points, base: nat, p: int, kept: Points, s: Points)
    requires Facts(u) && Ordered(u, s)
    requires u.ccc(base) != 0 && Inert(u, out + [base] + kept)
    requires kept != [] ==> u.ccc(kept[|kept| - 1]) != 0
    ensures Steps(u, out + [base] + kept, s) == out + ComposeOnto(u, base, p, kept, s)
    decreases |s|, 2
  {
    hide Step, Inert, Compose, Ordered, LastStarter, Composite;
    var all := out + [base] + kept;
    if s == [] {
      Associate(out, [base], kept);
    } else {
      var c, rest := s[0], s[1..];
      OrderedSuffix(u, s, 1);
      assert u.pair(base, c) == None;
      if u.ccc(c) == 0 {
        assert all[|all| - 1] == if kept == [] then base else kept[|kept| - 1];
        StepStarterAfterMark(u, all, c);
        ComposeRefines(u, all, s);
        OpenEnd(out, base, kept, Compose(u, s));
      } else {
        StepInert(u, all, c);
        Associate(out + [base], kept, [c]);
        MarkRefines(u, out, base, u.ccc(c), kept + [c], rest);
      }
    }
  }

  /** On every canonically ordered string the two-index pass of the source computes what the
      standard's algorithm computes. */
  lemma ComposeIsCanonicalComposition(u: Unicode, s: Points)
    requires Facts(u) && Ordered(u, s)
    ensures Compose(u, s) == Steps(u, [], s)
  {
    hide Compose, Steps, Ordered;
    if s != [] {
      assert Step(u, [], s[0]) == [] + [s[0]];
    }
    ComposeRefines(u, [], s);
    assert [] + Compose(u, s) == Compose(u, s);
  }
}
