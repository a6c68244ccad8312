/** The tables that scripts/unicode_data_table.py builds are valid and mean what the Unicode
    Character Database says; the facts the normalization theorems need follow from facts about
    its raw fields. */
module GeneratedFacts {
  import opened Basics
  import opened UnicodeData
  import opened NormalizationTables
  import opened Multistage
  import opened UcdTables
  import opened CompositionTables

  /** Combining classes alone, to say what canonical order is. */
  function Classes(ucd: Ucd): Unicode {
    Unicode((c: nat) => [], (c: nat) => CccOf(ucd, c), (a: nat, b: nat) => None)
  }

  /** Facts of the Unicode Character Database about its raw fields. */
  ghost predicate UcdFacts(ucd: Ucd, rank: nat -> nat, excluded: set<nat>) {
    && Acyclic(ucd, rank) && UniqueComposites(ucd, excluded)
    && (forall c :: c in ucd.canonical ==> c < CODE_POINTS && ucd.canonical[c] != [] && !IsHangul(c))
    && (forall c, x :: c in ucd.canonical && x in ucd.canonical[c] ==> !IsSyllable(x))
    && (forall c: nat :: IsHangul(c) || c >= CODE_POINTS ==> CccOf(ucd, c) == 0)
    && (forall a: nat, b: nat, c: nat :: Composes(ucd, excluded, a, b, c) ==>
          a < CODE_POINTS && !IsHangul(a) && !IsHangul(b) && b !in ucd.canonical)
    && (forall c: nat :: c in ucd.canonical ==> OrderedAfter(Classes(ucd), 0, FullDecomposition(ucd, rank, c, false)))
  }

  lemma {:induction false} OrderedSame(u: Unicode, v: Unicode, p: nat, s: Points)
    requires forall c: nat :: u.ccc(c) == v.ccc(c)
    ensures OrderedAfter(u, p, s) == OrderedAfter(v, p, s)
    decreases |s|
  {
    if s != [] { OrderedSame(u, v, u.ccc(s[0]), s[1..]); }
  }

  lemma {:induction false} FullParts(ucd: Ucd, rank: nat -> nat, excluded: set<nat>, c: nat)
    requires UcdFacts(ucd, rank, excluded)
    ensures FullDecomposition(ucd, rank, c, false) != []
    ensures !IsSyllable(c) ==> forall e :: e in FullDecomposition(ucd, rank, c, false) ==> !IsSyllable(e)
    decreases rank(c) + 1, 0
  {
    if c in ucd.canonical { PartsOf(ucd, rank, excluded, ucd.canonical[c], rank(c)); }
  }

  lemma {:induction false} PartsOf(ucd: Ucd, rank: nat -> nat, excluded: set<nat>, s: Points, bound: nat)
    requires UcdFacts(ucd, rank, excluded) && forall x :: x in s ==> rank(x) < bound && !IsSyllable(x)
    ensures s != [] ==> Decomposed(ucd, rank, s, false, bound) != []
    ensures forall e :: e in Decomposed(ucd, rank, s, false, bound) ==> !IsSyllable(e)
    decreases bound, |s|
  {
    if s != [] {
      FullParts(ucd, rank, excluded, s[0]);
      PartsOf(ucd, rank, excluded, s[1..], bound);
    }
  }

  /** What the built tables mean, point by point. */
  ghost predicate Means(ucd: Ucd, rank: nat -> nat, excluded: set<nat>, u: Unicode)
    requires Acyclic(ucd, rank)
  {
    && (forall c: nat :: u.canonical(c) == Canonical(ucd, rank, c))
    && (forall c: nat :: u.ccc(c) == if c < CODE_POINTS then CccOf(ucd, c) else 0)
    && (forall a: nat, b: nat, c: nat :: u.pair(a, b) == Some(c) <==>
        a < CODE_POINTS && Composes(ucd, excluded, a, b, c))
  }

  lemma CanonicalIs(ucd: Ucd, rank: nat -> nat, excluded: set<nat>, u: Unicode, c: nat)
    requires UcdFacts(ucd, rank, excluded) && Means(ucd, rank, excluded, u)
    ensures u.canonical(c) == if c in ucd.canonical then FullDecomposition(ucd, rank, c, false) else []
    ensures !IsSyllable(c) ==> Full(u, c) == FullDecomposition(ucd, rank, c, false)
  {
    FullParts(ucd, rank, excluded, c);
    hide Acyclic, UniqueComposites, OrderedAfter;
  }

  lemma FullDecompositionsHold(ucd: Ucd, rank: nat -> nat, excluded: set<nat>, u: Unicode)
    requires UcdFacts(ucd, rank, excluded) && Means(ucd, rank, excluded, u)
    ensures FullDecompositions(u)
  {
    forall c: nat
      ensures u.canonical(c) != [c]
      ensures (forall e :: e in u.canonical(c) ==> Full(u, e) == [e]) && OrderedAfter(u, 0, u.canonical(c))
    {
      CanonicalIs(ucd, rank, excluded, u, c);
      assert c in [c];
      if c in ucd.canonical {
        FullIsFinal(ucd, rank, c);
        FullParts(ucd, rank, excluded, c);
        SameClasses(ucd, rank, excluded, u);
        OrderedSame(u, Classes(ucd), 0, u.canonical(c));
        hide FullDecomposition, OrderedAfter, Full;
        forall e | e in u.canonical(c) ensures Full(u, e) == [e] {
          CanonicalIs(ucd, rank, excluded, u, e);
          NoMapping(ucd, rank, e);
        }
      }
    }
  }

  lemma NoMapping(ucd: Ucd, rank: nat -> nat, c: nat)
    requires Acyclic(ucd, rank) && c !in ucd.canonical
    ensures FullDecomposition(ucd, rank, c, false) == [c]
  {}

  lemma SameClasses(ucd: Ucd, rank: nat -> nat, excluded: set<nat>, u: Unicode)
    requires UcdFacts(ucd, rank, excluded) && Means(ucd, rank, excluded, u)
    ensures forall c: nat :: u.ccc(c) == CccOf(ucd, c) && Classes(ucd).ccc(c) == CccOf(ucd, c)
  {
    hide Acyclic, UniqueComposites, OrderedAfter, FullDecomposition, Composes;
  }

  lemma PrimaryCompositesHold(ucd: Ucd, rank: nat -> nat, excluded: set<nat>, u: Unicode)
    requires UcdFacts(ucd, rank, excluded) && Means(ucd, rank, excluded, u)
    ensures PrimaryComposites(u)
  {
    forall a: nat, b: nat | u.pair(a, b).Some?
      ensures var c := u.pair(a, b).value;
              && a < 0x110000 && c < 0x110000 && u.ccc(a) == 0 && u.ccc(c) == 0
              && !IsHangul(a) && !IsHangul(b) && !IsHangul(c)
              && Full(u, b) == [b] && Full(u, c) == Full(u, a) + Full(u, b)
    {
      var c := u.pair(a, b).value;
      assert Composes(ucd, excluded, a, b, c);
      PairDecomposes(ucd, rank, c, a, b);
      NoMapping(ucd, rank, b);
      CanonicalIs(ucd, rank, excluded, u, a);
      CanonicalIs(ucd, rank, excluded, u, b);
      CanonicalIs(ucd, rank, excluded, u, c);
      hide FullDecomposition, OrderedAfter, Full, Acyclic, UniqueComposites;
    }
  }

  /** Facts about the raw fields give the facts the normalization theorems rely on. */
  lemma FactsHold(ucd: Ucd, rank: nat -> nat, excluded: set<nat>, u: Unicode)
    requires UcdFacts(ucd, rank, excluded) && Means(ucd, rank, excluded, u)
    ensures Facts(u)
  {
    FullDecompositionsHold(ucd, rank, excluded, u);
    PrimaryCompositesHold(ucd, rank, excluded, u);
    hide FullDecompositions, PrimaryComposites, FullDecomposition, OrderedAfter, Acyclic, UniqueComposites, Composes;
    forall c: nat | IsHangul(c) ensures u.ccc(c) == 0 {}
    forall c: nat | IsJamo(c) ensures u.canonical(c) == [] {}
    forall c: nat | c >= 0x110000 ensures u.ccc(c) == 0 && u.canonical(c) == [] {}
  }

  /** All tables; `None` where the script stops because something does not fit. `keys` is the
      iteration order of the canonical mappings. */
  method BuildTables(ucd: Ucd, excluded: set<nat>, keys: seq<nat>, ghost rank: nat -> nat) returns (r: Option<Tables>)
    requires UcdFacts(ucd, rank, excluded)
    requires forall k :: k in keys <==> k in ucd.canonical
    requires forall i, j :: 0 <= i < j < |keys| ==> keys[i] != keys[j]
    ensures r.Some? ==> Valid(r.value) && Means(ucd, rank, excluded, Meaning(r.value)) && Facts(Meaning(r.value))
  {
    hide UcdFacts, Facts, Valid, Meaning, Means;
    UsesFacts(ucd, rank, excluded);
    hide Acyclic, UniqueComposites;
    var decomposition := BuildDecomposition(ucd, rank);
    var classes := BuildCcc(ucd);
    var composition, pairs := BuildComposition(ucd, excluded, keys);
    if decomposition.None? || classes.None? || composition.None? { return None; }
    var d, c := decomposition.value, composition.value;
    var t := Tables(d.index, d.block, d.data, classes.value.0, classes.value.1, c.index, c.block, c.data);
    TablesMean(ucd, rank, excluded, keys, pairs, d, c, t);
    FactsHold(ucd, rank, excluded, Meaning(t));
    r := Some(t);
  }

  lemma UsesFacts(ucd: Ucd, rank: nat -> nat, excluded: set<nat>)
    requires UcdFacts(ucd, rank, excluded)
    ensures Acyclic(ucd, rank) && UniqueComposites(ucd, excluded)
  {}

  lemma TablesMean(ucd: Ucd, rank: nat -> nat, excluded: set<nat>, keys: seq<nat>, pairs: map<nat, seq<Pair>>,
      d: Section, c: Section, t: Tables)
    requires UcdFacts(ucd, rank, excluded) && forall k :: k in keys <==> k in ucd.canonical
    requires DecompositionSection(ucd, rank, d) && CompositionSection(pairs, c) &&
        Collected(ucd, excluded, pairs, keys, |keys|)
    requires t == Tables(d.index, d.block, d.data, t.cccIndex, t.cccBlock, c.index, c.block, c.data)
    requires Sized(t.cccIndex, t.cccBlock, NARROW)
    requires forall x: nat :: x < CODE_POINTS ==> Entry(t.cccIndex, t.cccBlock, NARROW, x, 0) == CccOf(ucd, x)
    ensures Valid(t) && Means(ucd, rank, excluded, Meaning(t))
  {
    UsesFacts(ucd, rank, excluded);
    forall x: nat ensures CanonicalAt(t, x) == Canonical(ucd, rank, x) { CanonicalRead(ucd, rank, d, t, x); }
    forall a: nat, b: nat, x: nat
      ensures PairAt(t, a, b) == Some(x) <==> a < CODE_POINTS && Composes(ucd, excluded, a, b, x)
    {
      PairFoundIff(ucd, excluded, keys, pairs, c, t, a, b, x);
    }
    TablesValid(ucd, rank, excluded, keys, pairs, d, c, t);
    hide Valid, UcdFacts, DecompositionSection, CompositionSection, Collected, CanonicalAt, PairAt, Canonical,
        Composes, Entry, Acyclic;
  }

  lemma TablesValid(ucd: Ucd, rank: nat -> nat, excluded: set<nat>, keys: seq<nat>, pairs: map<nat, seq<Pair>>,
      d: Section, c: Section, t: Tables)
    requires UcdFacts(ucd, rank, excluded) && forall k :: k in keys <==> k in ucd.canonical
    requires DecompositionSection(ucd, rank, d) && CompositionSection(pairs, c) &&
        Collected(ucd, excluded, pairs, keys, |keys|)
    requires t == Tables(d.index, d.block, d.data, t.cccIndex, t.cccBlock, c.index, c.block, c.data)
    requires Sized(t.cccIndex, t.cccBlock, NARROW)
    ensures Valid(t)
  {
    hide Entry;
    forall x: nat | x < CODE_POINTS
      ensures DecompositionEntry(t, x, 0) / 4 <= DecompositionEntry(t, x, 1) / 4 <= |t.decompositionData|
    {
      CanonicalRead(ucd, rank, d, t, x);
    }
    forall a: nat | a < CODE_POINTS
      ensures var lo, hi := CompositionEntry(t, a, 0), CompositionEntry(t, a, 1);
              && lo <= hi <= |t.compositionData| && PairsSorted(t.compositionData, lo, hi)
              && forall i :: lo <= i < hi && (i - lo) % 2 == 1 ==> t.compositionData[i] < 0x110000
    {
      RowValid(ucd, rank, excluded, keys, pairs, c, t, a);
    }
    hide DecompositionSection, CompositionSection, Collected, UcdFacts, DecompositionEntry, CompositionEntry,
        PairsSorted;
  }

  lemma RowValid(ucd: Ucd, rank: nat -> nat, excluded: set<nat>, keys: seq<nat>, pairs: map<nat, seq<Pair>>,
      c: Section, t: Tables, a: nat)
    requires UcdFacts(ucd, rank, excluded) && forall k :: k in keys <==> k in ucd.canonical
    requires Shape(t) && CompositionSection(pairs, c) && Reads(c, t) && Collected(ucd, excluded, pairs, keys, |keys|)
    requires a < CODE_POINTS
    ensures var lo, hi := CompositionEntry(t, a, 0), CompositionEntry(t, a, 1);
            && lo <= hi <= |t.compositionData| && PairsSorted(t.compositionData, lo, hi)
            && forall i :: lo <= i < hi && (i - lo) % 2 == 1 ==> t.compositionData[i] < 0x110000
  {
    hide UcdFacts, Collected, CompositionSection, CompositionEntry, Entry, Flat, SortedPairs, Assoc, Ascending,
        PairsSorted, PairsOf;
    PairsBounded(ucd, rank, excluded, keys, pairs, a);
    PairsRead(ucd, excluded, pairs, c, t, a, 0);
    var lo, sorted := CompositionEntry(t, a, 0), SortedPairs(ListOf(pairs, a));
    AscendingSlice(t.compositionData, lo, sorted);
    CompositesBounded(t.compositionData, lo, sorted);
    LowIsLow(t.compositionData, lo, lo + 2 * |sorted|);
  }

  lemma LowIsLow(data: Points, lo: nat, hi: nat)
    requires hi <= |data| && PairsSorted(data, lo, hi)
    ensures lo <= hi
  {}

  lemma PairsBounded(ucd: Ucd, rank: nat -> nat, excluded: set<nat>, keys: seq<nat>, pairs: map<nat, seq<Pair>>, a: nat)
    requires UcdFacts(ucd, rank, excluded) && Collected(ucd, excluded, pairs, keys, |keys|)
    ensures PairsOf(ucd, excluded, a, ListOf(pairs, a))
    ensures forall q :: q in SortedPairs(ListOf(pairs, a)) ==> q.1 < 0x110000
  {
    assert PairsOf(ucd, excluded, a, ListOf(pairs, a));
    hide Collected;
    forall q | q in SortedPairs(ListOf(pairs, a)) ensures q.1 < 0x110000 {
      assert (q.0, q.1) in ListOf(pairs, a);
      assert Composes(ucd, excluded, a, q.0, q.1);
    }
  }

  lemma CompositeAt(data: Points, lo: nat, s: seq<Pair>, i: nat) returns (k: nat)
    requires lo + 2 * |s| <= |data| && data[lo..lo + 2 * |s|] == Flat(s)
    requires lo <= i < lo + 2 * |s| && (i - lo) % 2 == 1
    ensures k < |s| && data[i] == s[k].1
  {
    k := (i - lo) / 2;
    assert i == lo + 2 * k + 1;
    assert data[lo..lo + 2 * |s|][2 * k + 1] == data[lo + 2 * k + 1];
  }

  lemma CompositesBounded(data: Points, lo: nat, s: seq<Pair>)
    requires lo + 2 * |s| <= |data| && data[lo..lo + 2 * |s|] == Flat(s)
    requires forall q :: q in s ==> q.1 < 0x110000
    ensures forall i :: lo <= i < lo + 2 * |s| && (i - lo) % 2 == 1 ==> data[i] < 0x110000
  {
    hide Flat;
    forall i | lo <= i < lo + 2 * |s| && (i - lo) % 2 == 1 ensures data[i] < 0x110000 {
      var k := CompositeAt(data, lo, s, i);
      assert s[k] in s;
    }
  }
}
