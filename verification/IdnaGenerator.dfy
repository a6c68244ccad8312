/** `generate_idna` of scripts/idna_table.py: from the lines of the mapping table to the tables that
    the lookup reads, and exactly when those are right. */
module IdnaGenerator {
  import opened Basics
  import opened IdnaStrings
  import opened IdnaTable

  const HIGH := 0xE0000
  const END := 0x110000

  // ---------------------------------------------------------------- layout constants

  /** An ignored line at or above U+E0000. */
  predicate IsHigh(l: Line) { l.code == 0 && l.first >= 0xE0000 }

  /** The smallest range around all such lines; empty at the end if there is none. */
  ghost predicate HighRange(lines: seq<Line>, n: nat, start: nat, end: nat)
    requires n <= |lines|
  {
    if forall i :: 0 <= i < n ==> !IsHigh(lines[i]) then start == END && end == END
    else
      && (forall i :: 0 <= i < n && IsHigh(lines[i]) ==> start <= lines[i].first && lines[i].last < end)
      && (exists i :: 0 <= i < n && IsHigh(lines[i]) && lines[i].first == start)
      && (exists i :: 0 <= i < n && IsHigh(lines[i]) && lines[i].last + 1 == end)
  }

  /** `find_high_ignored_range`, with the default of its caller. */
  method FindHighIgnoredRange(lines: seq<Line>) returns (start: nat, end: nat)
    ensures HighRange(lines, |lines|, start, end)
  {
    start, end := END, END;
    var found := false;
    for i := 0 to |lines|
      invariant found <==> !forall k :: 0 <= k < i ==> !IsHigh(lines[k])
      invariant HighRange(lines, i, start, end)
    {
      if lines[i].code == 0 && lines[i].first >= HIGH {
        ghost var s, e := start, end;
        if !found || lines[i].first < start { start := lines[i].first; }
        if !found || lines[i].last + 1 > end { end := lines[i].last + 1; }
        HighMore(lines, i, s, e, start, end);
        found := true;
      }
    }
  }

  lemma HighMore(lines: seq<Line>, n: nat, s: nat, e: nat, start: nat, end: nat)
    requires n < |lines| && HighRange(lines, n, s, e) && IsHigh(lines[n])
    requires var none := forall k :: 0 <= k < n ==> !IsHigh(lines[k]);
             && start == (if none || lines[n].first < s then lines[n].first else s)
             && end == (if none || lines[n].last + 1 > e then lines[n].last + 1 else e)
    ensures HighRange(lines, n + 1, start, end)
  {
    if !forall k :: 0 <= k < n ==> !IsHigh(lines[k]) {
      var i :| 0 <= i < n && IsHigh(lines[i]) && lines[i].first == s;
      var j :| 0 <= j < n && IsHigh(lines[j]) && lines[j].last + 1 == e;
      assert IsHigh(lines[i]) && IsHigh(lines[j]);
    }
  }

  /** A line below the high range that allows something. */
  predicate IsActive(l: Line, highStart: nat) { l.first < highStart && l.code != 2 }

  /** The first block boundary above all such lines. */
  ghost predicate LowEnd(lines: seq<Line>, n: nat, highStart: nat, lowEnd: nat)
    requires n <= |lines|
  {
    && (forall i :: 0 <= i < n && IsActive(lines[i], highStart) ==> lines[i].last < lowEnd)
    && (lowEnd == 64 ||
        exists i :: 0 <= i < n && IsActive(lines[i], highStart) && lowEnd == (lines[i].last / 64 + 1) * 64)
  }

  /** `compute_low_range_end` */
  method ComputeLowRangeEnd(lines: seq<Line>, highStart: nat) returns (lowEnd: nat)
    ensures LowEnd(lines, |lines|, highStart, lowEnd)
  {
    var last: nat := 0;
    for i := 0 to |lines|
      invariant forall k :: 0 <= k < i && IsActive(lines[k], highStart) ==> lines[k].last <= last
      invariant last == 0 || exists k :: 0 <= k < i && IsActive(lines[k], highStart) && lines[k].last == last
    {
      if lines[i].first >= highStart { continue; }
      if lines[i].code != 2 && lines[i].last > last { last := lines[i].last; }
    }
    lowEnd := (last / 64 + 1) * 64;
    assert last < lowEnd;
  }

  /** Between the two ranges everything is disallowed. */
  lemma {:induction false} BetweenDisallowed(lines: seq<Line>, n: nat, highStart: nat, lowEnd: nat, cp: nat)
    requires n <= |lines| && LowEnd(lines, |lines|, highStart, lowEnd) && lowEnd <= cp < highStart
    ensures StatusOf(lines, n, cp) == Disallowed
  {
    if n > 0 { BetweenDisallowed(lines, n - 1, highStart, lowEnd, cp); }
  }

  // ---------------------------------------------------------------- distinct statuses

  /** The statuses of one block. */
  function StatusBlock(lines: seq<Line>, lowEnd: nat, b: nat): (row: seq<Status>)
    ensures |row| == BLOCK_SIZE
    ensures forall i :: 0 <= i < BLOCK_SIZE ==>
              row[i] == if 64 * b + i < lowEnd then StatusOf(lines, |lines|, 64 * b + i) else Disallowed
  {
    seq(BLOCK_SIZE, i requires 0 <= i =>
          if 64 * b + i < lowEnd then StatusOf(lines, |lines|, 64 * b + i) else Disallowed)
  }

  predicate IsPlain(row: seq<Status>) {
    forall i :: 0 <= i < |row| ==> row[i].Valid? || row[i].Disallowed?
  }

  /** The distinct blocks below `lowEnd` with a code point that is mapped or ignored. */
  function MixedStatuses(lines: seq<Line>, lowEnd: nat, n: nat): set<seq<Status>> {
    set b | 0 <= b < n && !IsPlain(StatusBlock(lines, lowEnd, b)) :: StatusBlock(lines, lowEnd, b)
  }

  lemma MixedStatusesMore(lines: seq<Line>, lowEnd: nat, n: nat)
    ensures MixedStatuses(lines, lowEnd, n + 1) == MixedStatuses(lines, lowEnd, n) +
              (if IsPlain(StatusBlock(lines, lowEnd, n)) then {} else {StatusBlock(lines, lowEnd, n)})
  {
    hide StatusBlock, IsPlain;
  }

  /** An offset holds one string only. */
  lemma {:induction false} StringAtUnique(s: Octets, p: nat, a: Points, b: Points)
    requires StringAt(s, p, a) && StringAt(s, p, b)
    ensures a == b
    decreases |a|
  {
    hide StringAt, PointAt;
    StringStep(s, p, a);
    StringStep(s, p, b);
    if a != [] {
      StringAtUnique(s, p + CharBytes(s[p]), a[1..], b[1..]);
      assert a == [a[0]] + a[1..] && b == [b[0]] + b[1..];
    }
  }

  /** Equal codes stand for equal statuses, and the other way round. */
  lemma CodesExact(strings: map<Points, nat>, utf8: Octets, v: nat, w: nat, s: Status, t: Status)
    requires Known(strings, utf8) && |utf8| < 0xFFFD && Codes(strings, v, s) && Codes(strings, w, t)
    ensures v == w <==> s == t
    ensures v == VALID || v == DISALLOWED <==> s.Valid? || s.Disallowed?
  {
    hide StringAt;
    if v == w && s.Mapped? && t.Mapped? { StringAtUnique(utf8, v, s.cps, t.cps); }
  }

  /** The flat table codes the statuses. */
  ghost predicate Coded(lines: seq<Line>, strings: map<Points, nat>, flat: seq<nat>) {
    forall cp :: 0 <= cp < |flat| ==> Codes(strings, flat[cp], StatusOf(lines, |lines|, cp))
  }

  lemma BlockEntry(lines: seq<Line>, strings: map<Points, nat>, flat: seq<nat>, b: nat, i: nat)
    requires Coded(lines, strings, flat) && i < BLOCK_SIZE
    ensures Codes(strings, Block(flat, b)[i], StatusBlock(lines, |flat|, b)[i])
  {
    hide Codes;
    if 64 * b + i < |flat| {
      assert Block(flat, b)[i] == flat[64 * b + i];
    } else {
      hide StatusOf;
      DisallowedCode(strings);
    }
  }

  lemma DisallowedCode(strings: map<Points, nat>)
    ensures Codes(strings, DISALLOWED, Disallowed)
  {}

  lemma BlocksExact(lines: seq<Line>, strings: map<Points, nat>, utf8: Octets, flat: seq<nat>, b: nat, c: nat)
    requires Coded(lines, strings, flat) && Known(strings, utf8) && |utf8| < 0xFFFD
    ensures Block(flat, b) == Block(flat, c) <==> StatusBlock(lines, |flat|, b) == StatusBlock(lines, |flat|, c)
    ensures IsBool(Block(flat, b)) <==> IsPlain(StatusBlock(lines, |flat|, b))
  {
    hide Block, StatusBlock, Codes, Known, Coded;
    forall i | 0 <= i < BLOCK_SIZE
      ensures Block(flat, b)[i] == Block(flat, c)[i] <==>
          StatusBlock(lines, |flat|, b)[i] == StatusBlock(lines, |flat|, c)[i]
      ensures Block(flat, b)[i] == VALID || Block(flat, b)[i] == DISALLOWED <==>
              StatusBlock(lines, |flat|, b)[i].Valid? || StatusBlock(lines, |flat|, b)[i].Disallowed?
    {
      BlockEntry(lines, strings, flat, b, i);
      BlockEntry(lines, strings, flat, c, i);
      CodesExact(strings, utf8, Block(flat, b)[i], Block(flat, c)[i],
                 StatusBlock(lines, |flat|, b)[i], StatusBlock(lines, |flat|, c)[i]);
    }
  }

  /** As many distinct blocks of values as of statuses. */
  lemma {:induction false} SameCount(lines: seq<Line>, strings: map<Points, nat>, utf8: Octets, flat: seq<nat>, n: nat)
    requires Coded(lines, strings, flat) && Known(strings, utf8) && |utf8| < 0xFFFD
    ensures |MixedBlocks(flat, n)| == |MixedStatuses(lines, |flat|, n)|
  {
    hide Block, StatusBlock, IsBool, IsPlain, Coded, Known, MixedBlocks, MixedStatuses;
    if n > 0 {
      var m := n - 1;
      SameCount(lines, strings, utf8, flat, m);
      MixedBlocksMore(flat, m);
      MixedStatusesMore(lines, |flat|, m);
      BlocksExact(lines, strings, utf8, flat, m, m);
      SameMember(lines, strings, utf8, flat, m);
      AddToSet(MixedBlocks(flat, m), Block(flat, m));
      AddToSet(MixedStatuses(lines, |flat|, m), StatusBlock(lines, |flat|, m));
      NothingAdded(MixedBlocks(flat, m));
      NothingAdded(MixedStatuses(lines, |flat|, m));
    } else {
      NoBlocks(lines, flat);
    }
  }

  lemma NothingAdded<T>(s: set<T>)
    ensures s + {} == s
  {}

  lemma NoBlocks(lines: seq<Line>, flat: seq<nat>)
    ensures MixedBlocks(flat, 0) == {} && MixedStatuses(lines, |flat|, 0) == {}
  {}

  lemma SameMember(lines: seq<Line>, strings: map<Points, nat>, utf8: Octets, flat: seq<nat>, m: nat)
    requires Coded(lines, strings, flat) && Known(strings, utf8) && |utf8| < 0xFFFD
    ensures Block(flat, m) in MixedBlocks(flat, m) <==> StatusBlock(lines, |flat|, m) in MixedStatuses(lines, |flat|, m)
  {
    hide Block, StatusBlock, IsBool, IsPlain, Coded, Known, MixedBlocks;
    forall b: nat | b < m
      ensures Block(flat, b) == Block(flat, m) <==> StatusBlock(lines, |flat|, b) == StatusBlock(lines, |flat|, m)
      ensures IsBool(Block(flat, b)) <==> IsPlain(StatusBlock(lines, |flat|, b))
    {
      BlocksExact(lines, strings, utf8, flat, b, m);
    }
    InMixed(flat, m, Block(flat, m));
  }

  // ---------------------------------------------------------------- the whole table

  /** Above both ranges the status is ignored exactly within the high range. */
  ghost predicate HighIgnored(lines: seq<Line>, t: Tables) {
    forall cp: nat :: HighRight(lines, t, cp)
  }

  predicate HighRight(lines: seq<Line>, t: Tables, cp: nat) {
    cp >= t.lowEnd && cp >= t.highStart ==>
      StatusOf(lines, |lines|, cp) == if cp < t.highEnd then Mapped([]) else Disallowed
  }

  /** The lookup answers what the lines say. */
  ghost predicate Right(lines: seq<Line>, t: Tables) {
    forall cp: nat :: RightAt(lines, t, cp)
  }

  predicate RightAt(lines: seq<Line>, t: Tables, cp: nat) {
    Answers(t, cp, StatusOf(lines, |lines|, cp))
  }

  /** The tables that the script makes of the lines. */
  ghost predicate Generated(lines: seq<Line>, t: Tables)
    requires LinesOk(lines)
  {
    && HighRange(lines, |lines|, t.highStart, t.highEnd) && LowEnd(lines, |lines|, t.highStart, t.lowEnd)
    && t.utf8 == StringTable(lines, |lines|)
    && exists strings, flat :: GeneratedFrom(lines, t, strings, flat)
  }

  ghost predicate GeneratedFrom(lines: seq<Line>, t: Tables, strings: map<Points, nat>, flat: seq<nat>) {
    && Known(strings, t.utf8) && [] in strings && strings[[]] == IGNORED
    && |flat| == t.lowEnd && Coded(lines, strings, flat) && Built(flat, t.levels)
  }

  /** `generate_idna` with its two size assertions; for lines of code points it fails exactly if the
      string table is too large for 16-bit offsets. */
  method GenerateIdna(lines: seq<Line>) returns (r: Option<Tables>)
    requires LinesOk(lines)
    ensures |StringTable(lines, |lines|)| >= 0xFFFD ==> r.None?
    ensures (forall i :: 0 <= i < |lines| ==> lines[i].last < END) ==>
              (r.None? ==> |StringTable(lines, |lines|)| >= 0xFFFD)
    ensures r.Some? ==> Generated(lines, r.value)
  {
    hide Known, LinesOk, HighRange, Codes, StringTable, Sequences, MixedOk, BoolOk, StageOk;
    var highStart, highEnd := FindHighIgnoredRange(lines);
    var lowEnd := ComputeLowRangeEnd(lines, highStart);
    var strings, utf8 := BuildStrings(lines);
    var flat := FillFlat(lines, strings, lowEnd);
    var levels := BuildTwoLevel(flat);
    if |utf8| >= 0xFFFD || |levels.stage1| > 0x8000 { return None; }
    var t := Tables(levels, utf8, lowEnd, highStart, highEnd);
    assert GeneratedFrom(lines, t, strings, flat);
    return Some(t);
  }

  /** The lookup answers what the lines say, for every code point, exactly if at most 512 distinct
      blocks hold a mapped or ignored code point and, from the high range on, the ignored code
      points are exactly those of the range. */
  lemma LookupExact(lines: seq<Line>, t: Tables)
    requires LinesOk(lines) && Generated(lines, t) && |t.utf8| < 0xFFFD
    ensures Right(lines, t) <==>
            |MixedStatuses(lines, t.lowEnd, (t.lowEnd + 63) / 64)| <= 512 && HighIgnored(lines, t)
  {
    hide Known, Built, LinesOk, HighRange, LowEnd, Codes, StringTable, RightAt, Coded, MixedBlocks, MixedStatuses,
        HighIgnored;
    var strings, flat :| GeneratedFrom(lines, t, strings, flat);
    SameCount(lines, strings, t.utf8, flat, BlockCount(flat));
    if |MixedBlocks(flat, BlockCount(flat))| <= 512 {
      HighExact(lines, t, strings, flat);
    } else {
      var cp := TooManyMixed(flat, t.levels);
      WrongAnswer(lines, t, strings, flat, cp);
    }
  }

  lemma WrongAnswer(lines: seq<Line>, t: Tables, strings: map<Points, nat>, flat: seq<nat>, cp: nat)
    requires GeneratedFrom(lines, t, strings, flat) && cp < |flat| && flat[cp] != VALID && flat[cp] != DISALLOWED
    requires InBounds(t.levels, cp) ==> LowLookup(t.levels, cp) == VALID || LowLookup(t.levels, cp) == DISALLOWED
    ensures !RightAt(lines, t, cp)
  {
    hide Known, Built, InBounds, LowLookup, StringAt;
    assert Codes(strings, flat[cp], StatusOf(lines, |lines|, cp));
  }

  /** With few enough blocks only the high range is left to decide. */
  lemma HighExact(lines: seq<Line>, t: Tables, strings: map<Points, nat>, flat: seq<nat>)
    requires GeneratedFrom(lines, t, strings, flat) && LowEnd(lines, |lines|, t.highStart, t.lowEnd)
    requires |t.utf8| < 0xFFFD && |MixedBlocks(flat, BlockCount(flat))| <= 512
    ensures Right(lines, t) <==> HighIgnored(lines, t)
  {
    hide Known, Built, LowEnd, Answers, Coded, MixedBlocks, Codes;
    forall cp: nat ensures RightAt(lines, t, cp) <==> HighRight(lines, t, cp) {
      if cp < t.lowEnd {
        LowAnswer(lines, t, strings, flat, cp);
      } else {
        if cp < t.highStart { BetweenDisallowed(lines, |lines|, t.highStart, t.lowEnd, cp); }
        HighAnswer(t, strings, cp, StatusOf(lines, |lines|, cp));
      }
    }
  }

  /** The tables then represent the statuses, as mapping requires. */
  lemma RightRepresents(lines: seq<Line>, t: Tables)
    requires Right(lines, t)
    ensures Represents(t, (cp: nat) => StatusOf(lines, |lines|, cp))
  {
    forall cp: nat ensures Answers(t, cp, StatusOf(lines, |lines|, cp)) {
      assert RightAt(lines, t, cp);
    }
  }

  lemma LowAnswer(lines: seq<Line>, t: Tables, strings: map<Points, nat>, flat: seq<nat>, cp: nat)
    requires GeneratedFrom(lines, t, strings, flat) && cp < t.lowEnd
    requires |t.utf8| < 0xFFFD && |MixedBlocks(flat, BlockCount(flat))| <= 512
    ensures Answers(t, cp, StatusOf(lines, |lines|, cp))
  {
    hide Known, Built, MixedBlocks, InBounds, LowLookup, Codes, Stands;
    TwoLevelIsFlat(flat, t.levels, cp);
    CodesStand(strings, t.utf8, flat[cp], StatusOf(lines, |lines|, cp));
  }

  lemma HighAnswer(t: Tables, strings: map<Points, nat>, cp: nat, s: Status)
    requires Known(strings, t.utf8) && [] in strings && strings[[]] == IGNORED && cp >= t.lowEnd
    ensures Answers(t, cp, s) <==> s == if t.highStart <= cp < t.highEnd then Mapped([]) else Disallowed
  {
    assert StringAt(t.utf8, 0, []);
    if s.Mapped? && StringAt(t.utf8, 0, s.cps) { StringAtUnique(t.utf8, 0, s.cps, []); }
    hide StringAt;
  }
}
