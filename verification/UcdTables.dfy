/** scripts/unicode_data_table.py: from the fields of the Unicode Character Database to the tables
    that normalization reads. */
module UcdTables {
  import opened Basics
  import opened UnicodeData
  import opened NormalizationTables
  import opened Multistage

  /** Decomposition mappings and combining classes as read from UnicodeData.txt. */
  datatype Ucd = Ucd(canonical: map<nat, Points>, compatibility: map<nat, Points>, ccc: map<nat, nat>)

  function CccOf(ucd: Ucd, c: nat): nat {
    if c in ucd.ccc then ucd.ccc[c] else 0
  }

  // ---------------------------------------------------------------- full decomposition

  /** Decompositions lead to characters of lower rank. */
  ghost predicate Acyclic(ucd: Ucd, rank: nat -> nat) {
    && (forall c, x :: c in ucd.canonical && x in ucd.canonical[c] ==> rank(x) < rank(c))
    && (forall c, x :: c in ucd.compatibility && x in ucd.compatibility[c] ==> rank(x) < rank(c))
  }

  function MappingOf(ucd: Ucd, c: nat, compatibility: bool): Option<Points> {
    if c in ucd.canonical then Some(ucd.canonical[c])
    else if compatibility && c in ucd.compatibility then Some(ucd.compatibility[c])
    else None
  }

  function FullDecomposition(ucd: Ucd, ghost rank: nat -> nat, c: nat, compatibility: bool): (d: Points)
    requires Acyclic(ucd, rank)
    decreases rank(c) + 1, 0
  {
    match MappingOf(ucd, c, compatibility)
    case None => [c]
    case Some(mapping) => Decomposed(ucd, rank, mapping, compatibility, rank(c))
  }

  function Decomposed(ucd: Ucd, ghost rank: nat -> nat, s: Points, compatibility: bool, ghost bound: nat): (d: Points)
    requires Acyclic(ucd, rank) && forall x :: x in s ==> rank(x) < bound
    decreases bound, |s|
  {
    if s == [] then []
    else FullDecomposition(ucd, rank, s[0], compatibility) + Decomposed(ucd, rank, s[1..], compatibility, bound)
  }

  /** Nothing in a full canonical decomposition decomposes further. */
  lemma {:induction false} FullIsFinal(ucd: Ucd, rank: nat -> nat, c: nat)
    requires Acyclic(ucd, rank)
    ensures forall e :: e in FullDecomposition(ucd, rank, c, false) ==> e !in ucd.canonical
    decreases rank(c) + 1, 0
  {
    if c in ucd.canonical { DecomposedIsFinal(ucd, rank, ucd.canonical[c], rank(c)); }
  }

  lemma {:induction false} DecomposedIsFinal(ucd: Ucd, rank: nat -> nat, s: Points, bound: nat)
    requires Acyclic(ucd, rank) && forall x :: x in s ==> rank(x) < bound
    ensures forall e :: e in Decomposed(ucd, rank, s, false, bound) ==> e !in ucd.canonical
    decreases bound, |s|
  {
    if s != [] {
      FullIsFinal(ucd, rank, s[0]);
      DecomposedIsFinal(ucd, rank, s[1..], bound);
    }
  }

  /** A pair decomposes to the decompositions of its two parts. */
  lemma PairDecomposes(ucd: Ucd, rank: nat -> nat, c: nat, a: nat, b: nat)
    requires Acyclic(ucd, rank) && c in ucd.canonical && ucd.canonical[c] == [a, b]
    ensures FullDecomposition(ucd, rank, c, false)
         == FullDecomposition(ucd, rank, a, false) + FullDecomposition(ucd, rank, b, false)
  {
    assert [a, b][1..] == [b] && [b][1..] == [];
    assert a in [a, b] && b in [a, b];
    var x, y := FullDecomposition(ucd, rank, a, false), FullDecomposition(ucd, rank, b, false);
    assert Decomposed(ucd, rank, [b], false, rank(c)) == y + Decomposed(ucd, rank, [], false, rank(c));
    assert y + [] == y;
  }

  // ---------------------------------------------------------------- concatenated slices

  /** A leading zero and the first `n` contents. */
  function Upto(contents: seq<Points>, n: nat): (data: Points)
    requires n <= |contents|
    ensures |data| > 0
  {
    if n == 0 then [0] else Upto(contents, n - 1) + contents[n - 1]
  }

  lemma {:induction false} UptoPrefix(contents: seq<Points>, m: nat, n: nat)
    requires m <= n <= |contents|
    ensures Upto(contents, m) <= Upto(contents, n)
  {
    if m < n { UptoPrefix(contents, m, n - 1); }
  }

  /** Where one slice ends the next begins. */
  lemma SliceAt(contents: seq<Points>, c: nat)
    requires c < |contents|
    ensures |Upto(contents, c)| <= |Upto(contents, c + 1)| <= |Upto(contents, |contents|)|
    ensures Upto(contents, |contents|)[|Upto(contents, c)|..|Upto(contents, c + 1)|] == contents[c]
  {
    UptoPrefix(contents, c + 1, |contents|);
    assert Upto(contents, c + 1) == Upto(contents, c) + contents[c];
    assert Upto(contents, |contents|)[..|Upto(contents, c + 1)|] == Upto(contents, c + 1);
  }

  /** Blocks marked empty have no content. */
  predicate EmptyBlocks(contents: seq<Points>, empty: seq<bool>, n: nat)
    requires n <= |contents| && |empty| == BLOCK_COUNT && |contents| <= CODE_POINTS
  {
    forall c :: 0 <= c < n && empty[c / 256] ==> contents[c] == []
  }

  // ---------------------------------------------------------------- decomposition tables

  /** What `build_decomposition` stores for a code point. */
  function Content(ucd: Ucd, ghost rank: nat -> nat, c: nat): Points
    requires Acyclic(ucd, rank)
  {
    if IsSyllable(c) then []
    else if c in ucd.canonical then FullDecomposition(ucd, rank, c, false)
    else if c in ucd.compatibility then FullDecomposition(ucd, rank, c, true)
    else []
  }

  function Flags(ucd: Ucd, ghost rank: nat -> nat, c: nat): (f: nat)
    requires Acyclic(ucd, rank)
    ensures f < 4
  {
    if IsSyllable(c) then 0
    else if c in ucd.canonical then
      if FullDecomposition(ucd, rank, c, true) != FullDecomposition(ucd, rank, c, false) then 2 else 0
    else if c in ucd.compatibility then 1
    else 0
  }

  ghost function Contents(ucd: Ucd, rank: nat -> nat): (r: seq<Points>)
    requires Acyclic(ucd, rank)
    ensures |r| == CODE_POINTS && forall c :: 0 <= c < CODE_POINTS ==> r[c] == Content(ucd, rank, c)
  {
    seq(CODE_POINTS, c requires 0 <= c => Content(ucd, rank, c))
  }

  /** The canonical decomposition a lookup should give. */
  function Canonical(ucd: Ucd, ghost rank: nat -> nat, c: nat): Points
    requires Acyclic(ucd, rank)
  {
    if c < CODE_POINTS && !IsSyllable(c) && c in ucd.canonical then FullDecomposition(ucd, rank, c, false) else []
  }

  datatype Section = Section(index: seq<Byte>, block: seq<nat>, data: Points)

  /** What a section gives for a code point: its slice, from one entry to the next. */
  ghost predicate DecompositionSection(ucd: Ucd, rank: nat -> nat, s: Section)
    requires Acyclic(ucd, rank)
  {
    && Sized(s.index, s.block, WIDE)
    && forall c: nat :: c < CODE_POINTS ==> SliceOf(ucd, rank, s, c)
  }

  ghost predicate SliceOf(ucd: Ucd, rank: nat -> nat, s: Section, c: nat)
    requires Acyclic(ucd, rank) && Sized(s.index, s.block, WIDE) && c < CODE_POINTS
  {
    var from, to := Entry(s.index, s.block, WIDE, c, 0), Entry(s.index, s.block, WIDE, c, 1);
    && from / 4 <= to / 4 <= |s.data| && s.data[from / 4..to / 4] == Content(ucd, rank, c)
    && (Content(ucd, rank, c) != [] ==> from % 4 == Flags(ucd, rank, c))
  }

  /** Entries below `n` hold offset and flags. */
  ghost predicate EntriesSet(ucd: Ucd, rank: nat -> nat, entries: seq<nat>, n: nat)
    requires Acyclic(ucd, rank) && n <= CODE_POINTS < |entries|
  {
    forall c :: 0 <= c < n ==> entries[c] == 4 * |Upto(Contents(ucd, rank), c)| + Flags(ucd, rank, c)
  }

  lemma SliceFromEntries(ucd: Ucd, rank: nat -> nat, s: Section, entries: seq<nat>, empty: seq<bool>, c: nat)
    requires Acyclic(ucd, rank) && |entries| == CODE_POINTS + 1 && |empty| == BLOCK_COUNT
    requires EntriesSet(ucd, rank, entries, CODE_POINTS) && entries[CODE_POINTS] == 4 * |s.data|
    requires s.data == Upto(Contents(ucd, rank), CODE_POINTS) && EmptyBlocks(Contents(ucd, rank), empty, CODE_POINTS)
    requires Sized(s.index, s.block, WIDE) && c < CODE_POINTS
    requires forall k :: 0 <= k <= 1 ==>
               Entry(s.index, s.block, WIDE, c, k) == if empty[c / 256] then 0 else entries[c + k]
    ensures SliceOf(ucd, rank, s, c)
  {
    hide FullDecomposition, Entry, Acyclic, Upto;
    SliceAt(Contents(ucd, rank), c);
    hide Contents;
  }

  /** The part of the loop body that decides what to store. */
  method DecompositionOf(ucd: Ucd, ghost rank: nat -> nat, cp: nat) returns (decomposition: Points, flags: nat)
    requires Acyclic(ucd, rank)
    ensures decomposition == Content(ucd, rank, cp) && flags == Flags(ucd, rank, cp)
  {
    hide Acyclic, FullDecomposition;
    decomposition, flags := [], 0;
    if SBASE <= cp < SBASE + SCOUNT {
    } else if cp in ucd.canonical {
      decomposition := FullDecomposition(ucd, rank, cp, false);
      if FullDecomposition(ucd, rank, cp, true) != decomposition { flags := 2; }
    } else if cp in ucd.compatibility {
      decomposition := FullDecomposition(ucd, rank, cp, true);
      flags := 1;
    }
  }

  /** `build_decomposition`; `None` where the script stops because the data does not fit. */
  method BuildDecomposition(ucd: Ucd, ghost rank: nat -> nat) returns (r: Option<Section>)
    requires Acyclic(ucd, rank)
    ensures r.Some? ==> DecompositionSection(ucd, rank, r.value)
  {
    ghost var contents := Contents(ucd, rank);
    hide Acyclic, Upto, Contents, EmptyBlocks, EntriesSet, Content, Flags;
    var data: Points := [0];
    var entries: seq<nat> := seq(CODE_POINTS + 1, _ => 0);
    var empty: seq<bool> := seq(BLOCK_COUNT, _ => true);
    NothingWritten(ucd, rank, entries, empty);
    for cp := 0 to CODE_POINTS
      invariant |entries| == CODE_POINTS + 1 && |empty| == BLOCK_COUNT
      invariant data == Upto(contents, cp)
      invariant EntriesSet(ucd, rank, entries, cp) && EmptyBlocks(contents, empty, cp)
    {
      var decomposition, flags := DecompositionOf(ucd, rank, cp);
      EntryWritten(ucd, rank, entries, cp);
      UptoNext(contents, cp);
      BlockMarked(contents, empty, cp);
      entries := entries[cp := 4 * |data| + flags];
      if decomposition != [] {
        data := data + decomposition;
        empty := empty[cp / 256 := false];
      } else {
        assert data + decomposition == data;
      }
    }
    r := PackDecomposition(ucd, rank, entries, empty, data);
  }

  /** The last entry and the size check. */
  method PackDecomposition(ucd: Ucd, ghost rank: nat -> nat, entries0: seq<nat>, empty: seq<bool>, data: Points)
    returns (r: Option<Section>)
    requires Acyclic(ucd, rank) && |entries0| == CODE_POINTS + 1 && |empty| == BLOCK_COUNT
    requires data == Upto(Contents(ucd, rank), CODE_POINTS)
    requires EntriesSet(ucd, rank, entries0, CODE_POINTS) && EmptyBlocks(Contents(ucd, rank), empty, CODE_POINTS)
    ensures r.Some? ==> DecompositionSection(ucd, rank, r.value)
  {
    hide Acyclic, Upto, Contents, FullDecomposition, EmptyBlocks, EntriesSet, SliceOf, Entry;
    LastEntry(ucd, rank, entries0, 4 * |data|);
    var entries := entries0[CODE_POINTS := 4 * |data|];
    if |data| >= 16384 { return None; }
    var table := BuildMultistage(entries, WIDE, empty);
    if table.None? { return None; }
    var s := Section(table.value.0, table.value.1, data);
    forall c: nat | c < CODE_POINTS ensures SliceOf(ucd, rank, s, c) {
      SliceFromEntries(ucd, rank, s, entries, empty, c);
    }
    r := Some(s);
  }

  lemma NothingWritten(ucd: Ucd, rank: nat -> nat, entries: seq<nat>, empty: seq<bool>)
    requires Acyclic(ucd, rank) && |entries| == CODE_POINTS + 1 && |empty| == BLOCK_COUNT
    ensures Upto(Contents(ucd, rank), 0) == [0]
    ensures EntriesSet(ucd, rank, entries, 0) && EmptyBlocks(Contents(ucd, rank), empty, 0)
  {}

  lemma EntryWritten(ucd: Ucd, rank: nat -> nat, entries: seq<nat>, cp: nat)
    requires Acyclic(ucd, rank) && cp < CODE_POINTS < |entries| && EntriesSet(ucd, rank, entries, cp)
    ensures EntriesSet(ucd, rank, entries[cp := 4 * |Upto(Contents(ucd, rank), cp)| + Flags(ucd, rank, cp)], cp + 1)
  {
    hide Contents, Flags, Upto;
  }

  lemma LastEntry(ucd: Ucd, rank: nat -> nat, entries: seq<nat>, e: nat)
    requires Acyclic(ucd, rank) && CODE_POINTS < |entries| && EntriesSet(ucd, rank, entries, CODE_POINTS)
    ensures EntriesSet(ucd, rank, entries[CODE_POINTS := e], CODE_POINTS)
  {
    hide Contents, Flags, Upto;
  }

  lemma UptoNext(contents: seq<Points>, n: nat)
    requires n < |contents|
    ensures Upto(contents, n + 1) == Upto(contents, n) + contents[n]
  {}

  /** Marking the block of `cp` as used, or leaving it if there is nothing to store. */
  lemma BlockMarked(contents: seq<Points>, empty: seq<bool>, cp: nat)
    requires cp < |contents| <= CODE_POINTS && |empty| == BLOCK_COUNT && EmptyBlocks(contents, empty, cp)
    ensures EmptyBlocks(contents, empty[cp / 256 := false], cp + 1)
    ensures contents[cp] == [] ==> EmptyBlocks(contents, empty, cp + 1)
  {}

  /** The runtime lookup gives back the full canonical decomposition, and none for Hangul
      syllables and compatibility decompositions. */
  lemma CanonicalRead(ucd: Ucd, rank: nat -> nat, s: Section, t: Tables, c: nat)
    requires Acyclic(ucd, rank) && DecompositionSection(ucd, rank, s) && Shape(t)
    requires t.decompositionIndex == s.index && t.decompositionBlock == s.block && t.decompositionData == s.data
    ensures CanonicalAt(t, c) == Canonical(ucd, rank, c)
    ensures c < CODE_POINTS ==>
        DecompositionEntry(t, c, 0) / 4 <= DecompositionEntry(t, c, 1) / 4 <= |t.decompositionData|
  {
    hide FullDecomposition, Entry, Acyclic;
    if c < CODE_POINTS {
      assert SliceOf(ucd, rank, s, c);
    }
  }

  // ---------------------------------------------------------------- classes

  /** `build_ccc` */
  method BuildCcc(ucd: Ucd) returns (r: Option<(seq<Byte>, seq<nat>)>)
    ensures r.Some? ==>
      && Sized(r.value.0, r.value.1, NARROW)
      && forall c: nat :: c < CODE_POINTS ==> Entry(r.value.0, r.value.1, NARROW, c, 0) == CccOf(ucd, c)
  {
    var entries := seq(CODE_POINTS, c requires 0 <= c => CccOf(ucd, c));
    var empty := seq(BLOCK_COUNT, b requires 0 <= b < BLOCK_COUNT =>
                     forall c :: 256 * b <= c < 256 * b + 256 ==> CccOf(ucd, c) == 0);
    hide Entry, CccOf;
    r := BuildMultistage(entries, NARROW, empty);
    if r.Some? {
      var (index, rows) := r.value;
      forall c: nat | c < CODE_POINTS ensures Entry(index, rows, NARROW, c, 0) == CccOf(ucd, c) {
        assert Entry(index, rows, NARROW, c, 0) == if empty[c / 256] then 0 else entries[c + 0];
      }
    }
  }

  // ---------------------------------------------------------------- composition pairs

  type Pair = (nat, nat)

  /** The canonical pairs that compose: `a` and `b` to `c`. */
  predicate Composes(ucd: Ucd, excluded: set<nat>, a: nat, b: nat, c: nat) {
    && c in ucd.canonical && ucd.canonical[c] == [a, b] && c !in excluded
    && CccOf(ucd, c) == 0 && CccOf(ucd, a) == 0
  }

  /** No two characters compose from one pair. */
  ghost predicate UniqueComposites(ucd: Ucd, excluded: set<nat>) {
    forall a: nat, b: nat, c: nat, d: nat :: Composes(ucd, excluded, a, b, c) && Composes(ucd, excluded, a, b, d) ==>
        c == d
  }

  predicate Distinct(s: seq<Pair>) {
    forall i, j :: 0 <= i < j < |s| ==> s[i].0 != s[j].0
  }

  predicate Ascending(s: seq<Pair>) {
    forall i, j :: 0 <= i < j < |s| ==> s[i].0 < s[j].0
  }

  /** Python's order of tuples. */
  predicate Before(p: Pair, q: Pair) {
    p.0 < q.0 || (p.0 == q.0 && p.1 <= q.1)
  }

  function InsertPair(s: seq<Pair>, p: Pair): (r: seq<Pair>)
    ensures forall q :: q in r <==> q in s || q == p
  {
    if s == [] || Before(p, s[0]) then [p] + s
    else
      assert s == [s[0]] + s[1..];
      [s[0]] + InsertPair(s[1..], p)
  }

  /** Python's `sorted` on a list of tuples. */
  function SortedPairs(s: seq<Pair>): (r: seq<Pair>)
    ensures forall q :: q in r <==> q in s
  {
    if s == [] then []
    else
      assert s == [s[0]] + s[1..];
      InsertPair(SortedPairs(s[1..]), s[0])
  }

  lemma {:induction false} InsertAscending(s: seq<Pair>, p: Pair)
    requires Ascending(s) && forall q :: q in s ==> q.0 != p.0
    ensures Ascending(InsertPair(s, p))
  {
    if s != [] && !Before(p, s[0]) {
      InsertAscending(s[1..], p);
      var r := InsertPair(s[1..], p);
      forall j | 0 <= j < |r| ensures s[0].0 < r[j].0 {
        assert r[j] in r;
        assert r[j] in s[1..] || r[j] == p;
      }
    }
  }

  /** Pairs with distinct first parts are sorted strictly by them. */
  lemma {:induction false} SortAscends(s: seq<Pair>)
    requires Distinct(s)
    ensures Ascending(SortedPairs(s))
  {
    if s != [] {
      SortAscends(s[1..]);
      forall q | q in SortedPairs(s[1..]) ensures q.0 != s[0].0 {
        var j :| 0 <= j < |s[1..]| && s[1..][j] == q;
        assert s[j + 1] == q;
      }
      InsertAscending(SortedPairs(s[1..]), s[0]);
    }
  }

  function Flat(s: seq<Pair>): (r: Points)
    ensures |r| == 2 * |s|
    ensures forall j :: 0 <= j < |s| ==> r[2 * j] == s[j].0 && r[2 * j + 1] == s[j].1
  {
    if s == [] then [] else Flat(s[..|s| - 1]) + [s[|s| - 1].0, s[|s| - 1].1]
  }

  function Assoc(s: seq<Pair>, b: nat, i: nat): (r: Option<nat>)
    requires i <= |s|
    ensures r.Some? ==> (b, r.value) in s
    ensures r.None? ==> forall j :: i <= j < |s| ==> s[j].0 != b
    decreases |s| - i
  {
    if i == |s| then None else if s[i].0 == b then Some(s[i].1) else Assoc(s, b, i + 1)
  }

  /** The pair search over a slice is the association list. */
  lemma {:induction false} PairInIsAssoc(data: Points, lo: nat, s: seq<Pair>, i: nat, b: nat)
    requires lo + 2 * |s| <= |data| && data[lo..lo + 2 * |s|] == Flat(s) && i <= |s|
    ensures PairIn(data, lo + 2 * i, lo + 2 * |s|, b) == Assoc(s, b, i)
    decreases |s| - i
  {
    if i < |s| {
      assert data[lo + 2 * i] == data[lo..lo + 2 * |s|][2 * i] == s[i].0;
      assert data[lo + 2 * i + 1] == data[lo..lo + 2 * |s|][2 * i + 1] == s[i].1;
      PairInIsAssoc(data, lo, s, i + 1, b);
    }
  }

  lemma SecondAt(data: Points, lo: nat, s: seq<Pair>, i: nat) returns (k: nat)
    requires lo + 2 * |s| <= |data| && data[lo..lo + 2 * |s|] == Flat(s)
    requires lo <= i < lo + 2 * |s| && (i - lo) % 2 == 0
    ensures k < |s| && i == lo + 2 * k && data[i] == s[k].0
  {
    k := (i - lo) / 2;
    assert data[lo..lo + 2 * |s|][2 * k] == data[lo + 2 * k];
  }

  lemma AscendingSlice(data: Points, lo: nat, s: seq<Pair>)
    requires lo + 2 * |s| <= |data| && data[lo..lo + 2 * |s|] == Flat(s) && Ascending(s)
    ensures PairsSorted(data, lo, lo + 2 * |s|)
  {
    hide Flat;
    var hi := lo + 2 * |s|;
    forall i, j | lo <= i < j < hi && (i - lo) % 2 == 0 && (j - lo) % 2 == 0 ensures data[i] < data[j] {
      var k := SecondAt(data, lo, s, i);
      var l := SecondAt(data, lo, s, j);
    }
    HalfEven(lo, |s|);
  }

  lemma HalfEven(lo: nat, n: nat)
    ensures (lo + 2 * n - lo) % 2 == 0
  {}

  /** Only pairs of `a` that compose, each second part once. */
  ghost predicate PairsOf(ucd: Ucd, excluded: set<nat>, a: nat, s: seq<Pair>) {
    Distinct(s) && forall b: nat, c: nat :: (b, c) in s ==> Composes(ucd, excluded, a, b, c)
  }

  function ListOf(pairs: map<nat, seq<Pair>>, a: nat): seq<Pair> {
    if a in pairs then pairs[a] else []
  }

  /** The lists hold exactly the pairs of the first `n` characters. */
  ghost predicate Collected(ucd: Ucd, excluded: set<nat>, pairs: map<nat, seq<Pair>>, keys: seq<nat>, n: nat)
    requires n <= |keys|
  {
    && (forall a: nat :: PairsOf(ucd, excluded, a, ListOf(pairs, a)))
    && (forall a: nat, b: nat, c: nat :: (b, c) in ListOf(pairs, a) ==> c in keys[..n])
    && (forall a: nat, b: nat, c: nat :: c in keys[..n] && Composes(ucd, excluded, a, b, c) ==>
        (b, c) in ListOf(pairs, a))
  }

  lemma CollectPair(ucd: Ucd, excluded: set<nat>, pairs: map<nat, seq<Pair>>, keys: seq<nat>, n: nat, a: nat, b: nat)
    requires n < |keys| && keys[n] !in keys[..n] && UniqueComposites(ucd, excluded)
    requires Collected(ucd, excluded, pairs, keys, n) && Composes(ucd, excluded, a, b, keys[n])
    ensures Collected(ucd, excluded, pairs[a := ListOf(pairs, a) + [(b, keys[n])]], keys, n + 1)
  {
    var more := pairs[a := ListOf(pairs, a) + [(b, keys[n])]];
    assert keys[..n + 1] == keys[..n] + [keys[n]];
    NewPair(ucd, excluded, a, ListOf(pairs, a), b, keys[n]);
    forall x: nat ensures PairsOf(ucd, excluded, x, ListOf(more, x)) {
      assert PairsOf(ucd, excluded, x, ListOf(pairs, x));
    }
    hide PairsOf, Composes;
    forall x: nat, y: nat, z: nat | (y, z) in ListOf(more, x) ensures z in keys[..n + 1] {
      if x != a { assert (y, z) in ListOf(pairs, x); }
    }
    forall x: nat, y: nat, z: nat | z in keys[..n + 1] && Composes(ucd, excluded, x, y, z)
      ensures (y, z) in ListOf(more, x)
    {
      if z == keys[n] { OneMapping(ucd, excluded, a, b, x, y, z); }
    }
  }

  lemma OneMapping(ucd: Ucd, excluded: set<nat>, a: nat, b: nat, x: nat, y: nat, c: nat)
    requires Composes(ucd, excluded, a, b, c) && Composes(ucd, excluded, x, y, c)
    ensures a == x && b == y
  {
    assert [a, b][0] == [x, y][0] && [a, b][1] == [x, y][1];
  }

  lemma NewPair(ucd: Ucd, excluded: set<nat>, a: nat, s: seq<Pair>, b: nat, c: nat)
    requires PairsOf(ucd, excluded, a, s) && Composes(ucd, excluded, a, b, c) && UniqueComposites(ucd, excluded)
    requires forall p: Pair :: p in s ==> p.1 != c
    ensures PairsOf(ucd, excluded, a, s + [(b, c)])
  {
    hide Composes;
    forall i | 0 <= i < |s| ensures s[i].0 != b {
      assert s[i] in s;
      assert (s[i].0, s[i].1) == s[i];
    }
  }
}
