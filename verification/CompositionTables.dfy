/** The composition half of scripts/unicode_data_table.py, and the theorem that the tables it
    builds have the facts the normalization theorems rely on. */
module CompositionTables {
  import opened Basics
  import opened UnicodeData
  import opened NormalizationTables
  import opened Multistage
  import opened UcdTables

  lemma CollectNothing(ucd: Ucd, excluded: set<nat>, pairs: map<nat, seq<Pair>>, keys: seq<nat>, n: nat)
    requires n < |keys| && Collected(ucd, excluded, pairs, keys, n)
    requires forall a: nat, b: nat :: !Composes(ucd, excluded, a, b, keys[n])
    ensures Collected(ucd, excluded, pairs, keys, n + 1)
  {
    hide Composes, PairsOf;
    assert keys[..n + 1] == keys[..n] + [keys[n]];
  }

  /** The first loop of `build_composition`; `keys` is the iteration order of the dictionary. */
  method CollectPairs(ucd: Ucd, excluded: set<nat>, keys: seq<nat>) returns (pairs: map<nat, seq<Pair>>)
    requires UniqueComposites(ucd, excluded)
    requires forall k :: k in keys <==> k in ucd.canonical
    requires forall i, j :: 0 <= i < j < |keys| ==> keys[i] != keys[j]
    ensures Collected(ucd, excluded, pairs, keys, |keys|)
  {
    hide UniqueComposites, Collected;
    pairs := map[];
    NothingCollected(ucd, excluded, keys);
    for n := 0 to |keys|
      invariant Collected(ucd, excluded, pairs, keys, n)
    {
      var cp := keys[n];
      var mapping := ucd.canonical[cp];
      if |mapping| != 2 || cp in excluded || CccOf(ucd, cp) != 0 || CccOf(ucd, mapping[0]) != 0 {
        forall a: nat, b: nat ensures !Composes(ucd, excluded, a, b, cp) {
          assert |[a, b]| == 2 && [a, b][0] == a;
        }
        CollectNothing(ucd, excluded, pairs, keys, n);
      } else {
        assert mapping == [mapping[0], mapping[1]];
        CollectPair(ucd, excluded, pairs, keys, n, mapping[0], mapping[1]);
        pairs := pairs[mapping[0] := ListOf(pairs, mapping[0]) + [(mapping[1], cp)]];
      }
    }
  }

  lemma NothingCollected(ucd: Ucd, excluded: set<nat>, keys: seq<nat>)
    ensures Collected(ucd, excluded, map[], keys, 0)
  {}

  // ---------------------------------------------------------------- the section

  /** What is stored for a first character: its pairs, sorted. */
  function PairContent(pairs: map<nat, seq<Pair>>, a: nat): Points {
    Flat(SortedPairs(ListOf(pairs, a)))
  }

  ghost function PairContents(pairs: map<nat, seq<Pair>>): (r: seq<Points>)
    ensures |r| == CODE_POINTS && forall c :: 0 <= c < CODE_POINTS ==> r[c] == PairContent(pairs, c)
  {
    seq(CODE_POINTS, c requires 0 <= c => PairContent(pairs, c))
  }

  ghost predicate OffsetsSet(pairs: map<nat, seq<Pair>>, entries: seq<nat>, n: nat)
    requires n <= CODE_POINTS < |entries|
  {
    forall c :: 0 <= c < n ==> entries[c] == |Upto(PairContents(pairs), c)|
  }

  ghost predicate PairSlice(pairs: map<nat, seq<Pair>>, s: Section, c: nat)
    requires Sized(s.index, s.block, WIDE) && c < CODE_POINTS
  {
    var from, to := Entry(s.index, s.block, WIDE, c, 0), Entry(s.index, s.block, WIDE, c, 1);
    from <= to <= |s.data| && s.data[from..to] == PairContent(pairs, c)
  }

  ghost predicate CompositionSection(pairs: map<nat, seq<Pair>>, s: Section) {
    && Sized(s.index, s.block, WIDE)
    && forall c: nat :: c < CODE_POINTS ==> PairSlice(pairs, s, c)
  }

  lemma SliceFromOffsets(pairs: map<nat, seq<Pair>>, s: Section, entries: seq<nat>, empty: seq<bool>, c: nat)
    requires |entries| == CODE_POINTS + 1 && |empty| == BLOCK_COUNT
    requires OffsetsSet(pairs, entries, CODE_POINTS) && entries[CODE_POINTS] == |s.data|
    requires s.data == Upto(PairContents(pairs), CODE_POINTS) && EmptyBlocks(PairContents(pairs), empty, CODE_POINTS)
    requires Sized(s.index, s.block, WIDE) && c < CODE_POINTS
    requires forall k :: 0 <= k <= 1 ==>
               Entry(s.index, s.block, WIDE, c, k) == if empty[c / 256] then 0 else entries[c + k]
    ensures PairSlice(pairs, s, c)
  {
    hide Entry, Upto, PairContent;
    SliceAt(PairContents(pairs), c);
    hide PairContents;
  }

  lemma OffsetWritten(pairs: map<nat, seq<Pair>>, entries: seq<nat>, cp: nat)
    requires cp < CODE_POINTS < |entries| && OffsetsSet(pairs, entries, cp)
    ensures OffsetsSet(pairs, entries[cp := |Upto(PairContents(pairs), cp)|], cp + 1)
  {
    hide PairContents, Upto;
  }

  lemma LastOffset(pairs: map<nat, seq<Pair>>, entries: seq<nat>, e: nat)
    requires CODE_POINTS < |entries| && OffsetsSet(pairs, entries, CODE_POINTS)
    ensures OffsetsSet(pairs, entries[CODE_POINTS := e], CODE_POINTS)
  {
    hide PairContents, Upto;
  }

  lemma NoOffsets(pairs: map<nat, seq<Pair>>, entries: seq<nat>, empty: seq<bool>)
    requires |entries| == CODE_POINTS + 1 && |empty| == BLOCK_COUNT
    ensures Upto(PairContents(pairs), 0) == [0]
    ensures OffsetsSet(pairs, entries, 0) && EmptyBlocks(PairContents(pairs), empty, 0)
  {}

  /** The second loop of `build_composition`. */
  method BuildComposition(ucd: Ucd, excluded: set<nat>, keys: seq<nat>)
    returns (r: Option<Section>, ghost pairs: map<nat, seq<Pair>>)
    requires UniqueComposites(ucd, excluded)
    requires forall k :: k in keys <==> k in ucd.canonical
    requires forall i, j :: 0 <= i < j < |keys| ==> keys[i] != keys[j]
    ensures Collected(ucd, excluded, pairs, keys, |keys|)
    ensures r.Some? ==> CompositionSection(pairs, r.value)
  {
    hide UniqueComposites, Collected, Upto, PairContents, EmptyBlocks, OffsetsSet, SortedPairs, Flat;
    var lists := CollectPairs(ucd, excluded, keys);
    pairs := lists;
    ghost var contents := PairContents(lists);
    var data: Points := [0];
    var entries: seq<nat> := seq(CODE_POINTS + 1, _ => 0);
    var empty: seq<bool> := seq(BLOCK_COUNT, _ => true);
    NoOffsets(lists, entries, empty);
    for cp := 0 to CODE_POINTS
      invariant |entries| == CODE_POINTS + 1 && |empty| == BLOCK_COUNT
      invariant data == Upto(contents, cp)
      invariant OffsetsSet(lists, entries, cp) && EmptyBlocks(contents, empty, cp)
    {
      OffsetWritten(lists, entries, cp);
      UptoNext(contents, cp);
      BlockMarked(contents, empty, cp);
      entries := entries[cp := |data|];
      var sorted := SortedPairs(ListOf(lists, cp));
      var flat := WritePairs(sorted);
      if sorted != [] {
        data := data + flat;
        empty := empty[cp / 256 := false];
      } else {
        assert data + flat == data;
      }
    }
    r := PackComposition(lists, entries, empty, data);
  }

  /** `data.extend((second, composite))` for every pair. */
  method WritePairs(s: seq<Pair>) returns (data: Points)
    ensures data == Flat(s) && (s == [] ==> data == [])
  {
    data := [];
    for k := 0 to |s|
      invariant data == Flat(s[..k])
    {
      assert s[..k + 1][..k] == s[..k] && s[..k + 1][k] == s[k];
      data := data + [s[k].0, s[k].1];
    }
    assert s[..|s|] == s;
  }

  method PackComposition(ghost pairs: map<nat, seq<Pair>>, entries0: seq<nat>, empty: seq<bool>, data: Points)
    returns (r: Option<Section>)
    requires |entries0| == CODE_POINTS + 1 && |empty| == BLOCK_COUNT
    requires data == Upto(PairContents(pairs), CODE_POINTS)
    requires OffsetsSet(pairs, entries0, CODE_POINTS) && EmptyBlocks(PairContents(pairs), empty, CODE_POINTS)
    ensures r.Some? ==> CompositionSection(pairs, r.value)
  {
    hide Upto, PairContents, EmptyBlocks, OffsetsSet, PairSlice, Entry;
    LastOffset(pairs, entries0, |data|);
    var entries := entries0[CODE_POINTS := |data|];
    if |data| > 0xFFFF { return None; }
    var table := BuildMultistage(entries, WIDE, empty);
    if table.None? { return None; }
    var s := Section(table.value.0, table.value.1, data);
    forall c: nat | c < CODE_POINTS ensures PairSlice(pairs, s, c) {
      SliceFromOffsets(pairs, s, entries, empty, c);
    }
    r := Some(s);
  }

  // ---------------------------------------------------------------- reading back

  predicate Reads(s: Section, t: Tables) {
    t.compositionIndex == s.index && t.compositionBlock == s.block && t.compositionData == s.data
  }

  /** The slice of `a` at run time. */
  lemma PairsRead(ucd: Ucd, excluded: set<nat>, pairs: map<nat, seq<Pair>>, s: Section, t: Tables, a: nat, b: nat)
    requires Shape(t) && CompositionSection(pairs, s) && Reads(s, t) && a < CODE_POINTS
    requires PairsOf(ucd, excluded, a, ListOf(pairs, a))
    ensures var lo, hi := CompositionEntry(t, a, 0), CompositionEntry(t, a, 1);
            var sorted := SortedPairs(ListOf(pairs, a));
            && hi == lo + 2 * |sorted| <= |t.compositionData| && t.compositionData[lo..hi] == Flat(sorted)
            && Ascending(sorted) && PairAt(t, a, b) == Assoc(sorted, b, 0)
  {
    hide Entry, Flat, Assoc, Ascending, SortedPairs;
    assert PairSlice(pairs, s, a);
    var lo, sorted := CompositionEntry(t, a, 0), SortedPairs(ListOf(pairs, a));
    SortAscends(ListOf(pairs, a));
    PairInIsAssoc(t.compositionData, lo, sorted, 0, b);
  }

  /** The search finds a composite if and only if the pair composes to it. */
  lemma PairFoundIff(ucd: Ucd, excluded: set<nat>, keys: seq<nat>, pairs: map<nat, seq<Pair>>, s: Section, t: Tables,
      a: nat, b: nat, c: nat)
    requires Shape(t) && CompositionSection(pairs, s) && Reads(s, t)
    requires Collected(ucd, excluded, pairs, keys, |keys|) && forall k :: k in keys <==> k in ucd.canonical
    requires UniqueComposites(ucd, excluded)
    ensures PairAt(t, a, b) == Some(c) <==> a < CODE_POINTS && Composes(ucd, excluded, a, b, c)
  {
    assert keys[..|keys|] == keys;
    if a < CODE_POINTS {
      assert PairsOf(ucd, excluded, a, ListOf(pairs, a));
      PairsRead(ucd, excluded, pairs, s, t, a, b);
      AssocIff(ucd, excluded, a, SortedPairs(ListOf(pairs, a)), b, c);
    }
  }

  lemma AssocIff(ucd: Ucd, excluded: set<nat>, a: nat, s: seq<Pair>, b: nat, c: nat)
    requires forall y: nat, z: nat :: (y, z) in s <==> Composes(ucd, excluded, a, y, z)
    requires UniqueComposites(ucd, excluded)
    ensures Assoc(s, b, 0) == Some(c) <==> Composes(ucd, excluded, a, b, c)
  {
    hide Composes;
    var r := Assoc(s, b, 0);
    if Composes(ucd, excluded, a, b, c) {
      assert (b, c) in s;
      var j :| 0 <= j < |s| && s[j] == (b, c);
      assert s[j].0 == b;
      assert r.Some?;
      assert Composes(ucd, excluded, a, b, r.value);
    }
  }
}
