/** What the composition exclusions are for: no normalized string holds an excluded character. */
module CompositionExclusions {
  import opened Basics
  import opened UnicodeData
  import opened Normalization
  import opened GeneratedFacts
  import U = UcdTables

  /** Some pair composes to `c`. */
  ghost predicate PairComposite(u: Unicode, c: nat) {
    exists a: nat, b: nat :: u.pair(a, b) == Some(c)
  }

  /** The composition pass writes characters it reads, syllables and characters that pairs compose to. */
  lemma {:induction false} ComposeWrites(u: Unicode, s: Points, c: nat)
    requires c in Compose(u, s)
    ensures c in s || IsSyllable(c) || PairComposite(u, c)
    decreases |s|, 1
  {
    hide ComposeOnto, PairComposite, ComposeLV, ComposeLVT;
    if !IsL(s[0]) && !IsSyllable(s[0]) && s[0] < 0x110000 {
      OntoWrites(u, s[0], -1, [], s[1..], c);
    } else {
      var n := if IsL(s[0]) && |s| > 1 && IsV(s[1]) then if |s| > 2 && IsT(s[2]) then 3 else 2
               else if IsSyllable(s[0]) && IsLV(s[0]) && |s| > 1 && IsT(s[1]) then 2 else 1;
      assert Compose(u, s)[1..] == Compose(u, s[n..]);
      if c != Compose(u, s)[0] { ComposeWrites(u, s[n..], c); }
    }
  }

  lemma {:induction false} OntoWrites(u: Unicode, base: nat, p: int, kept: Points, s: Points, c: nat)
    requires c in ComposeOnto(u, base, p, kept, s)
    ensures c == base || c in kept || c in s || IsSyllable(c) || PairComposite(u, c)
    decreases |s|, 2
  {
    hide Compose;
    if s != [] {
      var ccc := u.ccc(s[0]);
      if p < ccc && u.pair(base, s[0]).Some? {
        OntoWrites(u, u.pair(base, s[0]).value, p, kept, s[1..], c);
      } else if ccc == 0 {
        if c !in [base] + kept { ComposeWrites(u, s, c); }
      } else {
        OntoWrites(u, base, ccc, kept + [s[0]], s[1..], c);
      }
    }
  }

  /** A character with a canonical mapping survives normalization only if its mapping is a pair of
      which the first is a starter, it is a starter, and it is not a composition exclusion. */
  lemma ExcludedNeverWritten(ucd: U.Ucd, rank: nat -> nat, excluded: set<nat>, u: Unicode, s: Points, c: nat)
    requires UcdFacts(ucd, rank, excluded) && Means(ucd, rank, excluded, u)
    requires c in Nfc(u, s) && c in ucd.canonical
    ensures c !in excluded && |ucd.canonical[c]| == 2
    ensures U.CccOf(ucd, c) == 0 && U.CccOf(ucd, ucd.canonical[c][0]) == 0
  {
    FactsHold(ucd, rank, excluded, u);
    CanonicalIs(ucd, rank, excluded, u, c);
    FullParts(ucd, rank, excluded, c);
    NfdUndecomposable(u, s);
    ComposeWrites(u, Nfd(u, s), c);
    hide Nfd, Compose, U.Acyclic, U.UniqueComposites, U.FullDecomposition, Facts, OrderedAfter;
    assert c in Nfd(u, s) ==> Full(u, c) == [c];
    var a: nat, b: nat :| u.pair(a, b) == Some(c);
    assert U.Composes(ucd, excluded, a, b, c);
  }
}
