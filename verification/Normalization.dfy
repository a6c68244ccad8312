/** Canonical decomposition and composition as functions, and what normalization preserves. */
module Normalization {
  import opened Basics
  import opened UnicodeData
  import opened CanonicalOrder

  // ---------------------------------------------------------------- decomposition

  /** The full decompositions of the characters of `s`, one after the other. */
  function Decomposed(u: Unicode, s: Points): Points {
    if s == [] then [] else Full(u, s[0]) + Decomposed(u, s[1..])
  }

  /** Normalization Form D: decomposed and in canonical order. */
  function Nfd(u: Unicode, s: Points): Points {
    Sorted(u, Decomposed(u, s))
  }

  lemma {:induction false} DecomposedJoin(u: Unicode, s: Points, t: Points)
    ensures Decomposed(u, s + t) == Decomposed(u, s) + Decomposed(u, t)
  {
    if s == [] {
      assert s + t == t;
    } else {
      hide Full;
      DecomposedJoin(u, s[1..], t);
      assert (s + t)[0] == s[0] && (s + t)[1..] == s[1..] + t;
      Associate(Full(u, s[0]), Decomposed(u, s[1..]), Decomposed(u, t));
    }
  }

  lemma DecomposedOne(u: Unicode, c: nat)
    ensures Decomposed(u, [c]) == Full(u, c)
  {
    assert [c][1..] == [];
    assert Full(u, c) + [] == Full(u, c);
  }

  /** Nothing in `s` can be decomposed. */
  predicate Undecomposable(u: Unicode, s: Points) {
    forall j :: 0 <= j < |s| ==> Full(u, s[j]) == [s[j]]
  }

  lemma {:induction false} DecomposedUnchanged(u: Unicode, s: Points)
    requires Undecomposable(u, s)
    ensures Decomposed(u, s) == s
  {
    if s != [] {
      forall j | 0 <= j < |s[1..]| ensures Full(u, s[1..][j]) == [s[1..][j]] { assert s[1..][j] == s[j + 1]; }
      DecomposedUnchanged(u, s[1..]);
      assert s == [s[0]] + s[1..];
    }
  }

  lemma FullUndecomposable(u: Unicode, c: nat)
    requires Facts(u)
    ensures Undecomposable(u, Full(u, c))
  {
    if !IsSyllable(c) && u.canonical(c) != [] {
      forall j | 0 <= j < |u.canonical(c)| ensures Full(u, u.canonical(c)[j]) == [u.canonical(c)[j]] {
        assert u.canonical(c)[j] in u.canonical(c);
      }
    }
  }

  lemma {:induction false} DecomposedUndecomposable(u: Unicode, s: Points)
    requires Facts(u)
    ensures Undecomposable(u, Decomposed(u, s))
  {
    if s != [] {
      hide Full, Facts;
      FullUndecomposable(u, s[0]);
      DecomposedUndecomposable(u, s[1..]);
    }
  }

  /** A canonical decomposition cannot be decomposed further. */
  lemma NfdUndecomposable(u: Unicode, s: Points)
    requires Facts(u)
    ensures Undecomposable(u, Nfd(u, s)) && Ordered(u, Nfd(u, s))
  {
    hide Full, Facts, Sorted, Ordered;
    var d, t := Decomposed(u, s), Nfd(u, s);
    DecomposedUndecomposable(u, s);
    SortedCorrect(u, d);
    forall j | 0 <= j < |t| ensures Full(u, t[j]) == [t[j]] {
      SortedMember(u, d, t[j]);
    }
  }

  lemma SortedMember(u: Unicode, s: Points, c: nat)
    requires c in Sorted(u, s)
    ensures c in s
  {
    SortedPermutes(u, s, |s|);
    assert s[..|s|] == s;
    assert c in multiset(Sorted(u, s));
    assert c in multiset(s);
  }

  // ---------------------------------------------------------------- composition

  /** The composition pass from a point where no starter is open. */
  function Compose(u: Unicode, s: Points): (r: Points)
    decreases |s|, 1
  {
    if s == [] then []
    else if IsL(s[0]) then
      if |s| > 1 && IsV(s[1]) then
        var lv := ComposeLV(s[0], s[1]);
        if |s| > 2 && IsT(s[2]) then [ComposeLVT(lv, s[2])] + Compose(u, s[3..])
        else [lv] + Compose(u, s[2..])
      else [s[0]] + Compose(u, s[1..])
    else if IsSyllable(s[0]) then
      if IsLV(s[0]) && |s| > 1 && IsT(s[1]) then [ComposeLVT(s[0], s[1])] + Compose(u, s[2..])
      else [s[0]] + Compose(u, s[1..])
    else if s[0] < 0x110000 then ComposeOnto(u, s[0], -1, [], s[1..])
    else [s[0]] + Compose(u, s[1..])
  }

  /** The composition pass onto the open character `base`, with the marks `kept` after it, the
      last of class `p` (-1 if there are none). */
  function ComposeOnto(u: Unicode, base: nat, p: int, kept: Points, s: Points): (r: Points)
    decreases |s|, 2
  {
    if s == [] then [base] + kept
    else
      var ccc := u.ccc(s[0]);
      if p < ccc && u.pair(base, s[0]).Some? then ComposeOnto(u, u.pair(base, s[0]).value, p, kept, s[1..])
      else if ccc == 0 then [base] + kept + Compose(u, s)
      else ComposeOnto(u, base, ccc, kept + [s[0]], s[1..])
  }

  /** Normalization Form C as the slow path computes it. */
  function Nfc(u: Unicode, s: Points): Points {
    Compose(u, Nfd(u, s))
  }

  // ---------------------------------------------------------------- canonical equivalence

  /** Canonical equivalence (D70): equal up to decomposition and reordering of marks. */
  ghost predicate Equivalent(u: Unicode, s: Points, t: Points) {
    SameViews(u, Decomposed(u, s), Decomposed(u, t))
  }

  /** What the pass may assume of the marks it keeps: all have a class, none above the last. */
  predicate KeptMarks(u: Unicode, p: int, kept: Points) {
    && (p == -1 <==> kept == [])
    && forall j :: 0 <= j < |kept| ==> Full(u, kept[j]) == [kept[j]] && 0 < u.ccc(kept[j]) <= p
  }

  /** No mark at the front of `s` is of a class below `p`. */
  predicate Follows(u: Unicode, p: int, s: Points) {
    s != [] && u.ccc(s[0]) != 0 ==> p <= u.ccc(s[0])
  }

  lemma SuffixFacts(u: Unicode, s: Points, n: nat)
    requires Undecomposable(u, s) && Ordered(u, s) && n <= |s|
    ensures Undecomposable(u, s[n..]) && Ordered(u, s[n..])
    ensures n > 0 ==> Follows(u, u.ccc(s[n - 1]), s[n..])
  {
    var t := s[n..];
    forall j | 0 <= j < |t| ensures Full(u, t[j]) == [t[j]] { assert t[j] == s[n + j]; }
    forall j | 0 < j < |t| && u.ccc(t[j]) != 0 ensures u.ccc(t[j - 1]) <= u.ccc(t[j]) {
      assert t[j] == s[n + j] && t[j - 1] == s[n + j - 1];
    }
    if n > 0 && t != [] { assert t[0] == s[n]; }
  }

  /** A composed character in front of the composed rest. */
  lemma FrontViews(u: Unicode, k: nat, x: nat, s: Points, n: nat, rest: Points)
    requires n <= |s| && Full(u, x) == s[..n]
    requires View(u, k, Decomposed(u, rest)) == View(u, k, s[n..])
    ensures View(u, k, Decomposed(u, [x] + rest)) == View(u, k, s)
  {
    hide View, Full;
    DecomposedJoin(u, [x], rest);
    DecomposedOne(u, x);
    ViewJoin(u, k, s[..n], Decomposed(u, rest));
    ViewJoin(u, k, s[..n], s[n..]);
    assert s == s[..n] + s[n..];
  }

  lemma SyllablesDecompose(u: Unicode, c: nat)
    requires IsSyllable(c)
    ensures Full(u, c) != [c]
  {
    assert |Full(u, c)| >= 2;
  }

  /** Decomposing what the pass returns changes no view of its input. */
  lemma {:induction false} ComposeViews(u: Unicode, k: nat, s: Points)
    requires Facts(u) && Undecomposable(u, s) && Ordered(u, s)
    ensures View(u, k, Decomposed(u, Compose(u, s))) == View(u, k, s)
    decreases |s|, 1
  {
    hide View, Facts, Ordered, ComposeOnto, ComposeLV, ComposeLVT;
    if s != [] {
      var c := s[0];
      assert Full(u, c) == [c];
      assert s[..1] == [c];
      SuffixFacts(u, s, 1);
      if IsSyllable(c) {
        SyllablesDecompose(u, c);
      } else if IsL(c) && |s| > 1 && IsV(s[1]) {
        HangulParts(c, s[1], if |s| > 2 then s[2] else 0);
        var n := if |s| > 2 && IsT(s[2]) then 3 else 2;
        assert s[..2] == [c, s[1]] && (n == 3 ==> s[..3] == [c, s[1], s[2]]);
        SuffixFacts(u, s, n);
        ComposeViews(u, k, s[n..]);
        FrontViews(u, k, Compose(u, s)[0], s, n, Compose(u, s[n..]));
      } else if !IsL(c) && c < 0x110000 {
        OntoViews(u, k, c, -1, [], s[1..]);
        assert [] + s[1..] == s[1..];
        assert s == [c] + s[1..];
      } else {
        ComposeViews(u, k, s[1..]);
        FrontViews(u, k, c, s, 1, Compose(u, s[1..]));
      }
    }
  }

  /** The same with an open character and kept marks. */
  lemma {:induction false} OntoViews(u: Unicode, k: nat, base: nat, p: int, kept: Points, s: Points)
    requires Facts(u) && Undecomposable(u, s) && Ordered(u, s)
    requires KeptMarks(u, p, kept) && Follows(u, p, s)
    ensures View(u, k, Decomposed(u, ComposeOnto(u, base, p, kept, s))) == View(u, k, Full(u, base) + (kept + s))
    decreases |s|, 2
  {
    hide View, Ordered, Compose, Full, Undecomposable, Facts, KeptMarks;
    if s == [] {
      assert [base] + kept + [] == [base] + kept;
      ClosedViews(u, k, base, p, kept, [], []);
    } else {
      var c, rest := s[0], s[1..];
      SuffixFacts(u, s, 1);
      assert s == [c] + rest;
      FullOfFirst(u, s);
      if p < u.ccc(c) && u.pair(base, c).Some? {
        OntoViews(u, k, u.pair(base, c).value, p, kept, rest);
        ComposedViews(u, k, base, c, p, kept, rest);
      } else if u.ccc(c) == 0 {
        ComposeViews(u, k, s);
        ClosedViews(u, k, base, p, kept, Compose(u, s), s);
      } else {
        KeepMark(u, p, kept, c);
        OntoViews(u, k, base, u.ccc(c), kept + [c], rest);
        assert kept + s == (kept + [c]) + rest;
      }
    }
  }

  /** A composed mark moves next to its base without changing a view. */
  lemma ComposedViews(u: Unicode, k: nat, base: nat, c: nat, p: int, kept: Points, rest: Points)
    requires Facts(u) && KeptMarks(u, p, kept) && Full(u, c) == [c]
    requires p < u.ccc(c) && u.pair(base, c).Some?
    ensures View(u, k, Full(u, u.pair(base, c).value) + (kept + rest))
         == View(u, k, Full(u, base) + (kept + ([c] + rest)))
  {
    hide View;
    assert kept != [] ==> u.ccc(kept[0]) <= p;
    ViewSwap(u, k, kept, c);
    ViewAround(u, k, Full(u, base), [c] + kept, kept + [c], rest);
    assert kept + ([c] + rest) == (kept + [c]) + rest;
    assert (Full(u, base) + [c]) + (kept + rest) == Full(u, base) + (([c] + kept) + rest);
  }

  lemma ClosedViews(u: Unicode, k: nat, base: nat, p: int, kept: Points, r: Points, s: Points)
    requires KeptMarks(u, p, kept)
    requires View(u, k, Decomposed(u, r)) == View(u, k, s)
    ensures View(u, k, Decomposed(u, [base] + kept + r)) == View(u, k, Full(u, base) + (kept + s))
  {
    hide View, Full, KeptMarks;
    BaseAndMarks(u, base, p, kept, r);
    var d := Full(u, base) + kept;
    ViewJoin(u, k, d, Decomposed(u, r));
    ViewJoin(u, k, d, s);
    Associate(Full(u, base), kept, s);
  }

  lemma FullOfFirst(u: Unicode, s: Points)
    requires s != [] && Undecomposable(u, s)
    ensures Full(u, s[0]) == [s[0]]
  {}

  lemma KeepMark(u: Unicode, p: int, kept: Points, c: nat)
    requires KeptMarks(u, p, kept) && u.ccc(c) != 0 && p <= u.ccc(c) && Full(u, c) == [c]
    ensures KeptMarks(u, u.ccc(c), kept + [c])
  {}

  lemma BaseAndMarks(u: Unicode, base: nat, p: int, kept: Points, rest: Points)
    requires KeptMarks(u, p, kept)
    ensures Decomposed(u, [base] + kept + rest) == Full(u, base) + kept + Decomposed(u, rest)
  {
    hide Full;
    DecomposedUnchanged(u, kept);
    DecomposedOne(u, base);
    DecomposedJoin(u, [base], kept);
    DecomposedJoin(u, [base] + kept, rest);
  }

  // ---------------------------------------------------------------- theorems

  /** Composition is undone by canonical decomposition, for every string that is decomposed and
      in canonical order. */
  lemma NfdOfCompose(u: Unicode, d: Points)
    requires Facts(u) && Undecomposable(u, d) && Ordered(u, d)
    ensures Nfd(u, Compose(u, d)) == d
  {
    hide View, Ordered, Undecomposable, Facts, Compose, Sorted;
    var r := Decomposed(u, Compose(u, d));
    forall k: nat ensures View(u, k, d) == View(u, k, r) {
      ComposeViews(u, k, d);
    }
    SortedUnique(u, r, d);
  }

  /** Normalization keeps the canonical decomposition, so it yields a canonically equivalent
      string, and normalizing twice is normalizing once. */
  lemma NfcIdempotent(u: Unicode, s: Points)
    requires Facts(u)
    ensures Nfd(u, Nfc(u, s)) == Nfd(u, s)
    ensures Equivalent(u, s, Nfc(u, s))
    ensures Nfc(u, Nfc(u, s)) == Nfc(u, s)
  {
    hide Ordered, Undecomposable, Facts, Compose, Sorted, SameViews;
    NfdUndecomposable(u, s);
    NfdOfCompose(u, Nfd(u, s));
    SameViewsIffSameSorted(u, Decomposed(u, s), Decomposed(u, Nfc(u, s)));
  }

  /** Two strings are canonically equivalent exactly if they normalize to the same string. */
  lemma NfcDecidesEquivalence(u: Unicode, s: Points, t: Points)
    requires Facts(u)
    ensures Equivalent(u, s, t) <==> Nfc(u, s) == Nfc(u, t)
  {
    hide Ordered, Undecomposable, Facts, Compose, Sorted, SameViews;
    SameViewsIffSameSorted(u, Decomposed(u, s), Decomposed(u, t));
    NfcIdempotent(u, s);
    NfcIdempotent(u, t);
  }
}
