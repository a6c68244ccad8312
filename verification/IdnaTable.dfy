/** The IDNA mapping table: its generator (scripts/idna_table.py) and `idna_lookup`
    (src/mapping.cpp). */
module IdnaTable {
  import opened Basics
  import opened Bits
  import opened BitReading
  import opened IdnaStrings

  const BLOCK_SIZE := 64
  const BOOL_FLAG := 0x8000
  const VALID := 0xFFFF
  const DISALLOWED := 0xFFFE
  const IGNORED := 0

  // ---------------------------------------------------------------- meaning

  /** What the mapping table says about a code point; an ignored one maps to nothing. */
  datatype Status = Valid | Disallowed | Mapped(cps: Points)

  /** A line of the table: 0 ignored, 1 valid, 2 disallowed, 3 mapped. */
  datatype Line = Line(first: nat, last: nat, code: nat, cps: Points)

  predicate LinesOk(lines: seq<Line>) {
    forall i :: 0 <= i < |lines| ==> lines[i].code < 4 && (lines[i].code == 3 ==> Writable(lines[i].cps))
  }

  function LineStatus(l: Line): Status {
    if l.code == 0 then Mapped([]) else if l.code == 1 then Valid else if l.code == 2 then Disallowed else Mapped(l.cps)
  }

  /** The last of the first `n` lines that covers `cp` decides. */
  function StatusOf(lines: seq<Line>, n: nat, cp: nat): Status
    requires n <= |lines|
  {
    if n == 0 then Disallowed
    else if lines[n - 1].first <= cp <= lines[n - 1].last then LineStatus(lines[n - 1])
    else StatusOf(lines, n - 1, cp)
  }

  // ---------------------------------------------------------------- flat table and strings

  /** Every known sequence has its string. */
  predicate Known(strings: map<Points, nat>, utf8: Octets) {
    forall cps :: cps in strings ==> strings[cps] < |utf8| && StringAt(utf8, strings[cps], cps)
  }

  /** The flat value that stands for a status. */
  predicate Codes(strings: map<Points, nat>, v: nat, s: Status) {
    match s
    case Valid => v == VALID
    case Disallowed => v == DISALLOWED
    case Mapped(cps) => cps in strings && v == strings[cps]
  }

  lemma KnownMore(strings: map<Points, nat>, utf8: Octets, cps: Points)
    requires Known(strings, utf8) && Writable(cps)
    ensures Known(strings[cps := |utf8|], utf8 + EncodeString(cps))
  {
    var e := EncodeString(cps);
    StringWritten(utf8, cps);
    NotEmpty(cps);
    hide EncodeString, StringAt;
    var more := strings[cps := |utf8|];
    forall k | k in more ensures more[k] < |utf8 + e| && StringAt(utf8 + e, more[k], k) {
      if k != cps { StringAtStays(utf8, strings[k], k, e); }
    }
  }

  lemma NotEmpty(cps: Points)
    requires Writable(cps)
    ensures EncodeString(cps) != []
  {}

  /** The sequences that the first `n` lines map to, and the empty one. */
  function Sequences(lines: seq<Line>, n: nat): (r: set<Points>)
    requires n <= |lines|
  {
    if n == 0 then {[]} else Sequences(lines, n - 1) + (if lines[n - 1].code == 3 then {lines[n - 1].cps} else {})
  }

  /** The string table of the first `n` lines: each sequence once, in order of appearance. */
  function StringTable(lines: seq<Line>, n: nat): Octets
    requires LinesOk(lines) && n <= |lines|
  {
    if n == 0 then [0]
    else
      var l := lines[n - 1];
      StringTable(lines, n - 1) +
      if l.code == 3 && l.cps !in Sequences(lines, n - 1) then EncodeString(l.cps) else []
  }

  /** `for cp in seq: extend(encode_utf8(cp))`, then the terminator. */
  method WriteString(cps: Points) returns (s: Octets)
    requires Writable(cps)
    ensures s == EncodeString(cps)
  {
    hide EncodeUtf8;
    s := [];
    assert cps[0..] == cps && [] + EncodeString(cps) == EncodeString(cps);
    for i := 0 to |cps|
      invariant Writable(cps[i..]) && s + EncodeString(cps[i..]) == EncodeString(cps)
    {
      assert cps[i..][0] == cps[i] && cps[i..][1..] == cps[i + 1..];
      Associate(s, EncodeUtf8(cps[i]), EncodeString(cps[i + 1..]));
      s := s + EncodeUtf8(cps[i]);
    }
    s := s + [0];
  }

  /** What the first `n` lines put into the string table. */
  ghost predicate StringsOk(lines: seq<Line>, strings: map<Points, nat>, utf8: Octets, n: nat)
    requires LinesOk(lines) && n <= |lines|
  {
    && Known(strings, utf8) && [] in strings && strings[[]] == IGNORED
    && utf8 == StringTable(lines, n) && strings.Keys == Sequences(lines, n)
  }

  lemma FirstString(lines: seq<Line>)
    requires LinesOk(lines)
    ensures StringsOk(lines, map[[] := IGNORED], [0], 0)
  {}

  lemma KeysMore<K, V>(m: map<K, V>, k: K, v: V)
    ensures m[k := v].Keys == m.Keys + {k}
  {}

  lemma SequencesStep(lines: seq<Line>, strings: map<Points, nat>, utf8: Octets, n: nat)
    requires LinesOk(lines) && n < |lines| && StringsOk(lines, strings, utf8, n)
    ensures var cps := lines[n].cps;
            if lines[n].code == 3 && cps !in strings
            then Writable(cps) && StringsOk(lines, strings[cps := |utf8|], utf8 + EncodeString(cps), n + 1)
            else StringsOk(lines, strings, utf8, n + 1)
  {
    hide EncodeString, Known;
    if lines[n].code == 3 && lines[n].cps !in strings {
      KnownMore(strings, utf8, lines[n].cps);
      KeysMore(strings, lines[n].cps, |utf8|);
    } else {
      assert StringTable(lines, n) + [] == StringTable(lines, n);
    }
  }

  lemma {:induction false} SequencesHave(lines: seq<Line>, n: nat, k: nat)
    requires k < n <= |lines| && lines[k].code == 3
    ensures lines[k].cps in Sequences(lines, n)
  {
    if k < n - 1 { SequencesHave(lines, n - 1, k); }
  }

  /** The first loop of `build_flat_and_mappings`: each mapped sequence once. */
  method BuildStrings(lines: seq<Line>) returns (strings: map<Points, nat>, utf8: Octets)
    requires LinesOk(lines)
    ensures StringsOk(lines, strings, utf8, |lines|)
    ensures forall i :: 0 <= i < |lines| && lines[i].code == 3 ==> lines[i].cps in strings
  {
    FirstString(lines);
    hide StringsOk, LinesOk, EncodeString;
    utf8 := [0];
    strings := map[[] := IGNORED];
    for i := 0 to |lines|
      invariant StringsOk(lines, strings, utf8, i)
    {
      SequencesStep(lines, strings, utf8, i);
      if lines[i].code == 3 && lines[i].cps !in strings {
        strings := strings[lines[i].cps := |utf8|];
        var s := WriteString(lines[i].cps);
        utf8 := utf8 + s;
      }
    }
    AllHave(lines, strings, utf8);
  }

  lemma AllHave(lines: seq<Line>, strings: map<Points, nat>, utf8: Octets)
    requires LinesOk(lines) && StringsOk(lines, strings, utf8, |lines|)
    ensures forall i :: 0 <= i < |lines| && lines[i].code == 3 ==> lines[i].cps in strings
  {
    hide Known, StringTable, Sequences;
    forall k | 0 <= k < |lines| && lines[k].code == 3 ensures lines[k].cps in strings {
      SequencesHave(lines, |lines|, k);
    }
  }

  /** The second loop: later lines overwrite earlier ones. */
  method FillFlat(lines: seq<Line>, strings: map<Points, nat>, lowEnd: nat) returns (flat: seq<nat>)
    requires LinesOk(lines) && [] in strings && strings[[]] == IGNORED
    requires forall i :: 0 <= i < |lines| && lines[i].code == 3 ==> lines[i].cps in strings
    ensures |flat| == lowEnd && forall cp :: 0 <= cp < lowEnd ==> Codes(strings, flat[cp], StatusOf(lines, |lines|, cp))
  {
    flat := seq(lowEnd, _ => DISALLOWED);
    for i := 0 to |lines|
      invariant |flat| == lowEnd
      invariant forall cp :: 0 <= cp < lowEnd ==> Codes(strings, flat[cp], StatusOf(lines, i, cp))
    {
      var l := lines[i];
      var hi := if l.last + 1 <= lowEnd then l.last + 1 else lowEnd;
      if l.first >= hi { continue; }
      var val := if l.code == 0 then IGNORED
                 else if l.code == 1 then VALID
                 else if l.code == 2 then DISALLOWED
                 else strings[l.cps];
      ghost var before := flat;
      for cp := l.first to hi
        invariant |flat| == lowEnd
        invariant forall c :: 0 <= c < lowEnd ==> flat[c] == if l.first <= c < cp then val else before[c]
      {
        flat := flat[cp := val];
      }
    }
  }

  /** What a stored value stands for once the string table is complete. */
  predicate Stands(utf8: Octets, v: nat, s: Status) {
    match s
    case Valid => v == VALID
    case Disallowed => v == DISALLOWED
    case Mapped(cps) => v < |utf8| && v < DISALLOWED && StringAt(utf8, v, cps)
  }

  lemma CodesStand(strings: map<Points, nat>, utf8: Octets, v: nat, s: Status)
    requires Known(strings, utf8) && |utf8| < 0xFFFD && Codes(strings, v, s)
    ensures Stands(utf8, v, s)
  {}

  // ---------------------------------------------------------------- two levels

  type Row = seq<nat>

  function Block(flat: seq<nat>, b: nat): (row: Row)
    ensures |row| == BLOCK_SIZE
    ensures forall i :: 0 <= i < BLOCK_SIZE ==> row[i] == if 64 * b + i < |flat| then flat[64 * b + i] else DISALLOWED
  {
    seq(BLOCK_SIZE, i requires 0 <= i => if 64 * b + i < |flat| then flat[64 * b + i] else DISALLOWED)
  }

  predicate IsBool(row: Row) {
    forall i :: 0 <= i < |row| ==> row[i] == VALID || row[i] == DISALLOWED
  }

  function ValidBits(row: Row): (s: BitString)
    ensures |s| == |row| && forall i :: 0 <= i < |s| ==> s[i] == (row[i] == VALID)
  {
    seq(|row|, i requires 0 <= i < |row| => row[i] == VALID)
  }

  /** The distinct blocks among the first `n` that are not all valid or disallowed. */
  function MixedBlocks(flat: seq<nat>, n: nat): set<Row> {
    set b | 0 <= b < n && !IsBool(Block(flat, b)) :: Block(flat, b)
  }

  lemma MixedBlocksMore(flat: seq<nat>, n: nat)
    ensures MixedBlocks(flat, n + 1) == MixedBlocks(flat, n) + (if IsBool(Block(flat, n)) then {} else {Block(flat, n)})
  {
    hide Block, IsBool;
  }

  lemma InMixed(flat: seq<nat>, n: nat, row: Row)
    ensures row in MixedBlocks(flat, n) <==> exists b: nat :: b < n && !IsBool(Block(flat, b)) && Block(flat, b) == row
  {
    hide Block, IsBool;
    if row in MixedBlocks(flat, n) {
      var b :| 0 <= b < n && !IsBool(Block(flat, b)) && Block(flat, b) == row;
    }
  }

  datatype TwoLevel = TwoLevel(stage1: seq<nat>, mixed: seq<nat>, words: seq<nat>)

  predicate RowStored(mixed: seq<nat>, row: Row, base: nat) {
    |row| == 64 && base + 64 <= |mixed| && mixed[base..base + 64] == row
  }

  /** The known rows are the mixed blocks so far, each is stored at its offset, and offsets count
      up in steps of 64. */
  ghost predicate MixedOk(rows: map<Row, nat>, mixed: seq<nat>, flat: seq<nat>, n: nat) {
    && |mixed| == 64 * |rows| && rows.Keys == MixedBlocks(flat, n)
    && AllStored(rows, mixed) && AllNumbered(rows, flat, n)
  }

  ghost predicate AllStored(rows: map<Row, nat>, mixed: seq<nat>) {
    forall row :: row in rows ==> RowStored(mixed, row, rows[row])
  }

  ghost predicate AllNumbered(rows: map<Row, nat>, flat: seq<nat>, n: nat) {
    forall k :: 0 <= k < |rows| ==> Numbered(rows, flat, n, k)
  }

  /** Row number `k` is one of the first `n` blocks. */
  ghost predicate Numbered(rows: map<Row, nat>, flat: seq<nat>, n: nat, k: nat) {
    exists b :: 0 <= b < n && MixedAt(rows, flat, b, 64 * k)
  }

  ghost predicate MixedAt(rows: map<Row, nat>, flat: seq<nat>, b: nat, base: nat) {
    !IsBool(Block(flat, b)) && Block(flat, b) in rows && rows[Block(flat, b)] == base
  }

  predicate BoolOk(index: map<nat, nat>, words: seq<nat>, n: nat) {
    && |words| <= n
    && forall w :: w in index ==> index[w] < |words| && words[index[w]] == w
  }

  /** What the first stage holds for the first `n` blocks. */
  ghost predicate StageOk(stage1: seq<nat>, rows: map<Row, nat>, index: map<nat, nat>, flat: seq<nat>, n: nat)
    requires n <= |stage1|
  {
    forall b :: 0 <= b < n ==>
      var row := Block(flat, b);
      if IsBool(row) then Value(ValidBits(row)) in index && stage1[b] == BOOL_FLAG + index[Value(ValidBits(row))]
      else row in rows && stage1[b] == rows[row]
  }

  lemma RowStays(mixed: seq<nat>, row: Row, base: nat, added: Row)
    requires RowStored(mixed, row, base)
    ensures RowStored(mixed + added, row, base)
  {
    assert (mixed + added)[base..base + 64] == mixed[base..base + 64];
  }

  lemma RowAdded(mixed: seq<nat>, row: Row)
    requires |row| == 64
    ensures RowStored(mixed + row, row, |mixed|)
  {}

  lemma NumberStays(rows: map<Row, nat>, more: map<Row, nat>, flat: seq<nat>, n: nat, k: nat)
    requires Numbered(rows, flat, n, k) && forall r :: r in rows ==> r in more && more[r] == rows[r]
    ensures Numbered(more, flat, n + 1, k)
  {
    var b :| 0 <= b < n && MixedAt(rows, flat, b, 64 * k);
    assert MixedAt(more, flat, b, 64 * k);
  }

  lemma NumberAdded(more: map<Row, nat>, flat: seq<nat>, n: nat, k: nat)
    requires MixedAt(more, flat, n, 64 * k)
    ensures Numbered(more, flat, n + 1, k)
  {}

  lemma AddToSet<T>(s: set<T>, x: T)
    ensures |s + {x}| == if x in s then |s| else |s| + 1
  {
    if x in s { assert s + {x} == s; }
  }

  lemma KeyCount<K, V>(m: map<K, V>)
    ensures |m| == |m.Keys|
  {}

  lemma OneMoreRow(rows: map<Row, nat>, row: Row, base: nat)
    requires row !in rows
    ensures |rows[row := base]| == |rows| + 1
  {
    KeysMore(rows, row, base);
    AddToSet(rows.Keys, row);
    KeyCount(rows);
    KeyCount(rows[row := base]);
  }

  lemma StoredMore(rows: map<Row, nat>, mixed: seq<nat>, row: Row)
    requires AllStored(rows, mixed) && |row| == 64
    ensures AllStored(rows[row := |mixed|], mixed + row)
  {
    hide RowStored;
    var more := rows[row := |mixed|];
    forall r | r in more ensures RowStored(mixed + row, r, more[r]) {
      if r == row { RowAdded(mixed, row); } else { RowStays(mixed, r, rows[r], row); }
    }
  }

  lemma NumberedMore(rows: map<Row, nat>, flat: seq<nat>, n: nat)
    requires AllNumbered(rows, flat, n) && !IsBool(Block(flat, n)) && Block(flat, n) !in rows
    ensures AllNumbered(rows[Block(flat, n) := 64 * |rows|], flat, n + 1)
  {
    hide Block, IsBool, Numbered;
    var more, m := rows[Block(flat, n) := 64 * |rows|], n + 1;
    OneMoreRow(rows, Block(flat, n), 64 * |rows|);
    forall k | 0 <= k < |more| ensures Numbered(more, flat, m, k) {
      if k < |rows| { NumberStays(rows, more, flat, n, k); } else { NumberAdded(more, flat, n, k); }
    }
  }

  lemma MixedMore(rows: map<Row, nat>, mixed: seq<nat>, flat: seq<nat>, n: nat)
    requires MixedOk(rows, mixed, flat, n) && !IsBool(Block(flat, n)) && Block(flat, n) !in rows
    ensures MixedOk(rows[Block(flat, n) := |mixed|], mixed + Block(flat, n), flat, n + 1)
  {
    hide Block, IsBool, MixedBlocks, AllStored, AllNumbered;
    var row := Block(flat, n);
    OneMoreRow(rows, row, |mixed|);
    KeysMore(rows, row, |mixed|);
    MixedBlocksMore(flat, n);
    StoredMore(rows, mixed, row);
    NumberedMore(rows, flat, n);
  }

  lemma MixedStays(rows: map<Row, nat>, mixed: seq<nat>, flat: seq<nat>, n: nat)
    requires MixedOk(rows, mixed, flat, n) && (IsBool(Block(flat, n)) || Block(flat, n) in rows)
    ensures MixedOk(rows, mixed, flat, n + 1)
  {
    hide RowStored, Numbered, MixedBlocks, IsBool, Block;
    MixedBlocksMore(flat, n);
    var m := n + 1;
    forall k | 0 <= k < |rows| ensures Numbered(rows, flat, m, k) { NumberStays(rows, rows, flat, n, k); }
  }

  lemma BoolMore(index: map<nat, nat>, words: seq<nat>, n: nat, w: nat)
    requires BoolOk(index, words, n)
    ensures BoolOk(index[w := |words|], words + [w], n + 1)
  {}

  /** `for i, v in enumerate(block)`: one bit per valid code point. */
  method PackBits(row: Row) returns (bits: nat)
    requires |row| == BLOCK_SIZE
    ensures bits == Value(ValidBits(row))
  {
    hide Value, Power2;
    var s := ValidBits(row);
    bits := 0;
    NoBits();
    for i := 0 to |row|
      invariant bits == Value(s[..i])
    {
      assert s[..i + 1] == s[..i] + [s[i]];
      ValueJoin(s[..i], [s[i]]);
      OneBit(s[i]);
      if row[i] == VALID { bits := bits + Power2(i); }
    }
    assert s[..|row|] == s;
  }

  lemma NoBits()
    ensures Value([]) == 0
  {}

  lemma OneBit(b: bool)
    ensures Value([b]) == Bit(b)
  {
    assert [b][1..] == [];
  }

  function BlockCount(flat: seq<nat>): nat { (|flat| + 63) / 64 }

  ghost predicate BuiltAs(flat: seq<nat>, t: TwoLevel, rows: map<Row, nat>, index: map<nat, nat>) {
    && |t.stage1| == BlockCount(flat) && MixedOk(rows, t.mixed, flat, |t.stage1|)
    && BoolOk(index, t.words, |t.stage1|) && StageOk(t.stage1, rows, index, flat, |t.stage1|)
  }

  /** `t` stores the blocks of `flat`, each once. */
  ghost predicate Built(flat: seq<nat>, t: TwoLevel) {
    exists rows: map<Row, nat>, index: map<nat, nat> :: BuiltAs(flat, t, rows, index)
  }

  /** `build_two_level` */
  method BuildTwoLevel(flat: seq<nat>) returns (t: TwoLevel)
    ensures Built(flat, t)
  {
    hide Block, IsBool, MixedOk, BoolOk, StageOk, Value, ValidBits;
    var blocks := BlockCount(flat);
    var stage1: seq<nat>, mixed: seq<nat>, words: seq<nat> := [], [], [];
    var mixedMap: map<Row, nat>, boolMap: map<nat, nat> := map[], map[];
    NothingBuilt(flat);
    for bi := 0 to blocks
      invariant |stage1| == bi
      invariant MixedOk(mixedMap, mixed, flat, bi) && BoolOk(boolMap, words, bi)
      invariant StageOk(stage1, mixedMap, boolMap, flat, bi)
    {
      var block := Block(flat, bi);
      ghost var oldRows, oldIndex := mixedMap, boolMap;
      if IsBool(block) {
        var bits := PackBits(block);
        MixedStays(mixedMap, mixed, flat, bi);
        BoolMore(boolMap, words, bi, bits);
        BoolStays(boolMap, words, bi);
        if bits !in boolMap {
          boolMap := boolMap[bits := |words|];
          words := words + [bits];
        }
        StageMore(stage1, oldRows, mixedMap, oldIndex, boolMap, flat, bi, BOOL_FLAG + boolMap[bits]);
        stage1 := stage1 + [BOOL_FLAG + boolMap[bits]];
      } else {
        BoolStays(boolMap, words, bi);
        if block !in mixedMap {
          MixedMore(mixedMap, mixed, flat, bi);
          mixedMap := mixedMap[block := |mixed|];
          mixed := mixed + block;
        } else {
          MixedStays(mixedMap, mixed, flat, bi);
        }
        StageMore(stage1, oldRows, mixedMap, oldIndex, boolMap, flat, bi, mixedMap[block]);
        stage1 := stage1 + [mixedMap[block]];
      }
    }
    t := TwoLevel(stage1, mixed, words);
    assert BuiltAs(flat, t, mixedMap, boolMap);
  }

  lemma NothingBuilt(flat: seq<nat>)
    ensures MixedOk(map[], [], flat, 0) && BoolOk(map[], [], 0) && StageOk([], map[], map[], flat, 0)
  {}

  lemma BoolStays(index: map<nat, nat>, words: seq<nat>, n: nat)
    requires BoolOk(index, words, n)
    ensures BoolOk(index, words, n + 1)
  {}

  lemma StageMore(stage1: seq<nat>, rows: map<Row, nat>, more: map<Row, nat>, index: map<nat, nat>,
                  longer: map<nat, nat>, flat: seq<nat>, n: nat, e: nat)
    requires |stage1| == n && StageOk(stage1, rows, index, flat, n)
    requires forall r :: r in rows ==> r in more && more[r] == rows[r]
    requires forall w :: w in index ==> w in longer && longer[w] == index[w]
    requires var row := Block(flat, n);
             if IsBool(row) then Value(ValidBits(row)) in longer && e == BOOL_FLAG + longer[Value(ValidBits(row))]
             else row in more && e == more[row]
    ensures StageOk(stage1 + [e], more, longer, flat, n + 1)
  {
    hide Block, IsBool, Value, ValidBits;
  }

  // ---------------------------------------------------------------- idna_lookup

  /** The tables with the constants of src/mapping_tables.cpp. */
  datatype Tables = Tables(levels: TwoLevel, utf8: Octets, lowEnd: nat, highStart: nat, highEnd: nat)

  /** The two-level part of the lookup reads within the tables. */
  predicate InBounds(t: TwoLevel, cp: nat) {
    && cp / 64 < |t.stage1|
    && var r := t.stage1[cp / 64];
       if r >= BOOL_FLAG then r - BOOL_FLAG < |t.words| else r + 64 <= |t.mixed|
  }

  /** Bit 15 of the first-stage entry tells a block of bits from a block of values. */
  function LowLookup(t: TwoLevel, cp: nat): nat
    requires InBounds(t, cp)
  {
    var r := t.stage1[cp / 64];
    if r >= BOOL_FLAG then
      var bit := (r - BOOL_FLAG) * 64 + cp % 64;
      assert bit / 64 == r - BOOL_FLAG;
      if Shifted(t.words[bit / 64], bit % 64) % 2 == 1 then VALID else DISALLOWED
    else t.mixed[r + cp % 64]
  }

  function Lookup(t: Tables, cp: nat): nat
    requires cp < t.lowEnd ==> InBounds(t.levels, cp)
  {
    if cp < t.lowEnd then LowLookup(t.levels, cp)
    else if t.highStart <= cp < t.highEnd then IGNORED
    else DISALLOWED
  }

  lemma {:induction false} ShiftedBit(v: nat, n: nat, k: nat)
    requires k < n
    ensures (Shifted(v, k) % 2 == 1) == LowBits(v, n)[k]
    decreases k
  {
    if k == 0 {
      ShiftNone(v);
    } else {
      MaskShift(v, k);
      ShiftedBit(v / 2, n - 1, k - 1);
    }
  }

  lemma ShiftNone(v: nat)
    ensures Shifted(v, 0) == v
  {
    assert Power2(0) == 1;
  }

  lemma BitRead(s: BitString, k: nat)
    requires k < |s|
    ensures (Shifted(Value(s), k) % 2 == 1) == s[k]
  {
    ShiftedBit(Value(s), |s|, k);
    LowBitsOfValue(s);
  }

  lemma BoolRead(t: TwoLevel, row: Row, cp: nat, i: nat)
    requires cp / 64 < |t.stage1| && t.stage1[cp / 64] == BOOL_FLAG + i && i < |t.words|
    requires |row| == 64 && IsBool(row) && t.words[i] == Value(ValidBits(row))
    ensures InBounds(t, cp) && LowLookup(t, cp) == row[cp % 64]
  {
    hide Value, Shifted;
    assert (i * 64 + cp % 64) / 64 == i && (i * 64 + cp % 64) % 64 == cp % 64;
    BitRead(ValidBits(row), cp % 64);
  }

  lemma MixedRead(t: TwoLevel, row: Row, cp: nat, base: nat)
    requires cp / 64 < |t.stage1| && t.stage1[cp / 64] == base < BOOL_FLAG && RowStored(t.mixed, row, base)
    ensures InBounds(t, cp) && LowLookup(t, cp) == row[cp % 64]
  {
    assert t.mixed[base..base + 64][cp % 64] == t.mixed[base + cp % 64];
  }

  /** With at most 512 distinct mixed blocks the two levels answer like the flat table. */
  lemma TwoLevelIsFlat(flat: seq<nat>, t: TwoLevel, cp: nat)
    requires Built(flat, t) && |MixedBlocks(flat, BlockCount(flat))| <= 512 && cp < |flat|
    ensures InBounds(t, cp) && LowLookup(t, cp) == flat[cp]
  {
    MixedCount(flat, t);
    hide Block, MixedBlocks, InBounds, LowLookup, MixedOk, BoolOk, StageOk;
    var rows: map<Row, nat>, index: map<nat, nat> :| BuiltAs(flat, t, rows, index);
    BlockHolds(flat, cp);
    BlockRead(flat, t, rows, index, cp);
  }

  lemma BlockHolds(flat: seq<nat>, cp: nat)
    requires cp < |flat|
    ensures Block(flat, cp / 64)[cp % 64] == flat[cp] && cp / 64 < BlockCount(flat)
  {}

  lemma BlockRead(flat: seq<nat>, t: TwoLevel, rows: map<Row, nat>, index: map<nat, nat>, cp: nat)
    requires BuiltAs(flat, t, rows, index) && |t.mixed| <= BOOL_FLAG && cp / 64 < BlockCount(flat)
    ensures InBounds(t, cp) && LowLookup(t, cp) == Block(flat, cp / 64)[cp % 64]
  {
    hide Block, IsBool, RowStored, Numbered, Value, ValidBits, InBounds, LowLookup, MixedBlocks;
    var row := Block(flat, cp / 64);
    if IsBool(row) {
      BoolRead(t, row, cp, index[Value(ValidBits(row))]);
    } else {
      assert RowStored(t.mixed, row, rows[row]);
      StoredBelow(t.mixed, row, rows[row]);
      MixedRead(t, row, cp, rows[row]);
    }
  }

  /** One stretch of 64 entries for every distinct mixed block. */
  lemma MixedCount(flat: seq<nat>, t: TwoLevel)
    requires Built(flat, t)
    ensures |t.mixed| == 64 * |MixedBlocks(flat, BlockCount(flat))|
  {
    hide Block, IsBool, RowStored, Numbered, StageOk, BoolOk, MixedBlocks;
    var rows: map<Row, nat>, index: map<nat, nat> :| BuiltAs(flat, t, rows, index);
    KeyCount(rows);
  }

  lemma StoredBelow(mixed: seq<nat>, row: Row, base: nat)
    requires RowStored(mixed, row, base)
    ensures base + 64 <= |mixed|
  {}

  /** With more, and the script does not check, some code point that has a mapping or is ignored
      is taken for one of a block of bits. */
  lemma TooManyMixed(flat: seq<nat>, t: TwoLevel) returns (cp: nat)
    requires Built(flat, t) && |MixedBlocks(flat, BlockCount(flat))| > 512
    ensures cp < |flat| && flat[cp] != VALID && flat[cp] != DISALLOWED
    ensures InBounds(t, cp) ==> LowLookup(t, cp) == VALID || LowLookup(t, cp) == DISALLOWED
  {
    hide MixedBlocks, Block, IsBool, BoolOk, StageOk, MixedAt, AllStored;
    MixedCount(flat, t);
    var rows: map<Row, nat>, index: map<nat, nat> :| BuiltAs(flat, t, rows, index);
    assert Numbered(rows, flat, |t.stage1|, 512);
    var b: nat :| b < |t.stage1| && MixedAt(rows, flat, b, 64 * 512);
    hide MixedOk;
    cp := Misread(flat, t, rows, index, b);
  }

  /** The block stored at offset 0x8000 is taken for a block of bits. */
  lemma Misread(flat: seq<nat>, t: TwoLevel, rows: map<Row, nat>, index: map<nat, nat>, b: nat) returns (cp: nat)
    requires |t.stage1| == BlockCount(flat) && StageOk(t.stage1, rows, index, flat, |t.stage1|)
    requires b < |t.stage1| && MixedAt(rows, flat, b, 64 * 512)
    ensures cp < |flat| && flat[cp] != VALID && flat[cp] != DISALLOWED
    ensures InBounds(t, cp) ==> LowLookup(t, cp) == VALID || LowLookup(t, cp) == DISALLOWED
  {
    var row := Block(flat, b);
    assert t.stage1[b] == rows[row] == BOOL_FLAG;
    var i :| 0 <= i < |row| && row[i] != VALID && row[i] != DISALLOWED;
    cp := 64 * b + i;
    assert cp / 64 == b;
    hide *;
    if InBounds(t, cp) { OnlyTwoAnswers(t, cp); }
  }

  /** The two-level table is right for every code point exactly when the flat table has at most 512
      distinct blocks that are not all valid or disallowed. */
  lemma TwoLevelExact(flat: seq<nat>, t: TwoLevel)
    requires Built(flat, t)
    ensures (forall cp: nat :: cp < |flat| ==> InBounds(t, cp) && LowLookup(t, cp) == flat[cp])
       <==> |MixedBlocks(flat, BlockCount(flat))| <= 512
  {
    hide Built, LowLookup, MixedBlocks, InBounds;
    if |MixedBlocks(flat, BlockCount(flat))| <= 512 {
      forall cp: nat | cp < |flat| ensures InBounds(t, cp) && LowLookup(t, cp) == flat[cp] {
        TwoLevelIsFlat(flat, t, cp);
      }
    } else {
      var cp := TooManyMixed(flat, t);
    }
  }

  lemma OnlyTwoAnswers(t: TwoLevel, cp: nat)
    requires InBounds(t, cp) && t.stage1[cp / 64] >= BOOL_FLAG
    ensures LowLookup(t, cp) == VALID || LowLookup(t, cp) == DISALLOWED
  {}

  // ---------------------------------------------------------------- the whole table

  /** The lookup answers what the status says. */
  ghost predicate Represents(t: Tables, status: nat -> Status) {
    forall cp: nat :: Answers(t, cp, status(cp))
  }

  predicate Answers(t: Tables, cp: nat, s: Status) {
    (cp < t.lowEnd ==> InBounds(t.levels, cp)) && Stands(t.utf8, Lookup(t, cp), s)
  }

  // ---------------------------------------------------------------- a table over the bound

  /** 513 blocks: the first code point of block `b` has the mapping at offset `b`, the rest of the
      block is valid. */
  function Crowded(): (flat: seq<nat>)
    ensures |flat| == 64 * 513
  {
    seq(64 * 513, i requires 0 <= i => if i % 64 == 0 then i / 64 else VALID)
  }

  lemma {:induction false} CrowdedBlocks(n: nat)
    requires n <= 513
    ensures |MixedBlocks(Crowded(), n)| == n
  {
    if n > 0 {
      var b, m := n - 1, MixedBlocks(Crowded(), n - 1);
      hide Crowded, Block, IsBool, MixedBlocks;
      CrowdedBlocks(b);
      CrowdedBlock(b);
      forall c: nat | c < b ensures Block(Crowded(), c) != Block(Crowded(), b) { CrowdedBlock(c); }
      InMixed(Crowded(), b, Block(Crowded(), b));
      MixedBlocksMore(Crowded(), b);
      AddToSet(m, Block(Crowded(), b));
    }
  }

  lemma CrowdedBlock(b: nat)
    requires b < 513
    ensures Block(Crowded(), b)[0] == b && !IsBool(Block(Crowded(), b))
  {
    assert (64 * b) % 64 == 0 && (64 * b) / 64 == b;
    assert Crowded()[64 * b] == b;
  }

  /** Every table built for it is wrong somewhere. */
  lemma CrowdedTableIsWrong(t: TwoLevel) returns (cp: nat)
    requires Built(Crowded(), t)
    ensures |MixedBlocks(Crowded(), 513)| == 513
    ensures cp < |Crowded()| && !(InBounds(t, cp) && LowLookup(t, cp) == Crowded()[cp])
  {
    hide Built, MixedBlocks, Crowded;
    CrowdedBlocks(513);
    cp := TooManyMixed(Crowded(), t);
  }
}
