/** `build_multistage` of scripts/unicode_data_table.py: rows of per-code-point entries, stored
    once each, and the lookup that reads them back. */
module Multistage {
  import opened Basics
  import opened NormalizationTables

  type Row = seq<nat>

  const CODE_POINTS := 0x110000

  /** The row of one block: zeros if the block is empty. */
  function RowOf(entries: seq<nat>, cols: nat, empty: seq<bool>, b: nat): (row: Row)
    requires b < |empty| && 256 * b + cols <= |entries|
    ensures |row| == cols
  {
    if empty[b] then seq(cols, _ => 0) else entries[256 * b..256 * b + cols]
  }

  function RowAt(rows: seq<nat>, cols: nat, id: nat): (row: Row)
    requires id * cols + cols <= |rows|
    ensures |row| == cols
  {
    rows[id * cols..id * cols + cols]
  }

  lemma AppendRow(rows: seq<nat>, cols: nat, n: nat, row: Row)
    requires |rows| == n * cols && |row| == cols
    ensures |rows + row| == (n + 1) * cols
    ensures RowAt(rows + row, cols, n) == row
  {
    assert (n + 1) * cols == n * cols + cols;
  }

  lemma KeepRow(rows: seq<nat>, cols: nat, n: nat, row: Row, id: nat)
    requires |rows| == n * cols && |row| == cols && id < n
    ensures id * cols + cols <= |rows|
    ensures RowAt(rows + row, cols, id) == RowAt(rows, cols, id)
  {
    Room(cols, n, id);
  }

  lemma Room(cols: nat, n: nat, id: nat)
    requires id < n
    ensures id * cols + cols <= n * cols
  {
    MulMonotone(id + 1, n, cols, cols);
    assert (id + 1) * cols == id * cols + cols;
  }

  /** Row number `id` is stored and is `row`. */
  ghost predicate StoredAt(rows: seq<nat>, cols: nat, n: nat, row: Row, id: nat) {
    |row| == cols && id < n && id * cols + cols <= |rows| && RowAt(rows, cols, id) == row
  }

  /** Every known row is stored at its number. */
  ghost predicate Stored(ids: map<Row, nat>, rows: seq<nat>, cols: nat) {
    && |rows| == |ids| * cols
    && forall row :: row in ids ==> StoredAt(rows, cols, |ids|, row, ids[row])
  }

  lemma StillStored(rows: seq<nat>, cols: nat, n: nat, row: Row, id: nat, added: Row)
    requires |rows| == n * cols && StoredAt(rows, cols, n, row, id) && |added| == cols
    ensures StoredAt(rows + added, cols, n + 1, row, id)
  {
    KeepRow(rows, cols, n, added, id);
  }

  lemma NewlyStored(rows: seq<nat>, cols: nat, n: nat, row: Row)
    requires |rows| == n * cols && |row| == cols
    ensures |rows + row| == (n + 1) * cols && StoredAt(rows + row, cols, n + 1, row, n)
  {
    AppendRow(rows, cols, n, row);
  }

  lemma OneMore(ids: map<Row, nat>, row: Row, id: nat)
    requires row !in ids
    ensures |ids[row := id]| == |ids| + 1
  {
    assert ids[row := id].Keys == ids.Keys + {row};
  }

  lemma StoreRow(ids: map<Row, nat>, rows: seq<nat>, cols: nat, row: Row)
    requires Stored(ids, rows, cols) && |row| == cols && row !in ids
    ensures Stored(ids[row := |ids|], rows + row, cols)
  {
    hide StoredAt;
    var more := ids[row := |ids|];
    OneMore(ids, row, |ids|);
    NewlyStored(rows, cols, |ids|, row);
    forall r | r in more ensures StoredAt(rows + row, cols, |more|, r, more[r]) {
      if r != row { StillStored(rows, cols, |ids|, r, ids[r], row); }
    }
  }

  /** What a block index stands for: some known row's number. */
  ghost predicate Indexed(ids: map<Row, nat>, index: seq<nat>, entries: seq<nat>, cols: nat, empty: seq<bool>)
    requires |index| <= |empty| && 256 * |empty| + cols <= |entries| + 256
  {
    forall b :: 0 <= b < |index| ==>
        RowOf(entries, cols, empty, b) in ids && index[b] == ids[RowOf(entries, cols, empty, b)]
  }

  lemma IndexNext(ids: map<Row, nat>, more: map<Row, nat>, index: seq<nat>, entries: seq<nat>, cols: nat,
      empty: seq<bool>)
    requires |index| < |empty| && 256 * |empty| + cols <= |entries| + 256
    requires Indexed(ids, index, entries, cols, empty)
    requires forall r :: r in ids ==> r in more && more[r] == ids[r]
    requires RowOf(entries, cols, empty, |index|) in more
    ensures Indexed(more, index + [more[RowOf(entries, cols, empty, |index|)]], entries, cols, empty)
  {
    hide RowOf;
  }

  /** `build_multistage`; `None` if there are too many rows for a byte index. */
  method BuildMultistage(entries: seq<nat>, cols: nat, empty: seq<bool>) returns (r: Option<(seq<Byte>, seq<nat>)>)
    requires cols >= 256 && |empty| == BLOCK_COUNT && |entries| >= 256 * (BLOCK_COUNT - 1) + cols
    ensures r.Some? ==>
      var (index, rows) := r.value;
      && Sized(index, rows, cols)
      && forall c: nat, k: nat :: c < CODE_POINTS && 256 + k <= cols ==>
           Entry(index, rows, cols, c, k) == if empty[c / 256] then 0 else entries[c + k]
  {
    hide Stored, Indexed, RowOf, Entry;
    var index: seq<nat>, rows: seq<nat>, ids: map<Row, nat> := [], [], map[];
    NothingStored(cols, entries, empty);
    for block := 0 to BLOCK_COUNT
      invariant |index| == block && Stored(ids, rows, cols) && Indexed(ids, index, entries, cols, empty)
      invariant block > 0 ==> ids != map[]
    {
      var row := RowOf(entries, cols, empty, block);
      ghost var before := ids;
      if row !in ids {
        StoreRow(ids, rows, cols, row);
        ids, rows := ids[row := |ids|], rows + row;
      }
      IndexNext(before, ids, index, entries, cols, empty);
      index := index + [ids[row]];
    }
    if |ids| > 256 { return None; }
    Bytes(ids, rows, cols, index, entries, empty);
    var bytes: seq<Byte> := seq(|index|, i requires 0 <= i < |index| && index[i] < 256 => index[i]);
    ReadBack(ids, rows, cols, index, bytes, entries, empty);
    r := Some((bytes, rows));
  }

  lemma NothingStored(cols: nat, entries: seq<nat>, empty: seq<bool>)
    requires 256 * |empty| + cols <= |entries| + 256
    ensures Stored(map[], [], cols) && Indexed(map[], [], entries, cols, empty)
  {}

  lemma Bytes(ids: map<Row, nat>, rows: seq<nat>, cols: nat, index: seq<nat>, entries: seq<nat>, empty: seq<bool>)
    requires |index| <= |empty| && 256 * |empty| + cols <= |entries| + 256
    requires Stored(ids, rows, cols) && Indexed(ids, index, entries, cols, empty) && |ids| <= 256
    ensures forall i :: 0 <= i < |index| ==> index[i] < |ids|
  {
    forall i | 0 <= i < |index| ensures index[i] < |ids| {
      assert RowOf(entries, cols, empty, i) in ids;
    }
  }

  lemma ReadBack(ids: map<Row, nat>, rows: seq<nat>, cols: nat, index: seq<nat>, bytes: seq<Byte>, entries: seq<nat>,
      empty: seq<bool>)
    requires cols >= 256 && |empty| == BLOCK_COUNT && |entries| >= 256 * (BLOCK_COUNT - 1) + cols
    requires |index| == |bytes| == BLOCK_COUNT && forall b :: 0 <= b < BLOCK_COUNT ==> index[b] == bytes[b] < |ids|
    requires Stored(ids, rows, cols) && Indexed(ids, index, entries, cols, empty) && |ids| > 0
    ensures Sized(bytes, rows, cols)
    ensures forall c: nat, k: nat :: c < CODE_POINTS && 256 + k <= cols ==>
              Entry(bytes, rows, cols, c, k) == if empty[c / 256] then 0 else entries[c + k]
  {
    Room(cols, |ids|, 0);
    hide Entry, StoredAt, RowOf;
    forall c: nat, k: nat | c < CODE_POINTS && 256 + k <= cols
      ensures Entry(bytes, rows, cols, c, k) == if empty[c / 256] then 0 else entries[c + k]
    {
      var row := RowOf(entries, cols, empty, c / 256);
      assert row in ids && index[c / 256] == ids[row];
      ReadEntry(rows, cols, |ids|, bytes, entries, empty, c, k);
    }
  }

  lemma ReadEntry(rows: seq<nat>, cols: nat, n: nat, bytes: seq<Byte>, entries: seq<nat>, empty: seq<bool>, c: nat,
      k: nat)
    requires cols >= 256 && |empty| == |bytes| == BLOCK_COUNT && |entries| >= 256 * (BLOCK_COUNT - 1) + cols
    requires |rows| == n * cols >= cols && c < CODE_POINTS && 256 + k <= cols
    requires StoredAt(rows, cols, n, RowOf(entries, cols, empty, c / 256), bytes[c / 256])
    ensures Entry(bytes, rows, cols, c, k) == if empty[c / 256] then 0 else entries[c + k]
  {
    var b := c / 256;
    RowStartIs(bytes[b], rows, cols, n);
    assert RowAt(rows, cols, bytes[b])[c % 256 + k] == rows[bytes[b] * cols + (c % 256 + k)];
  }

  lemma RowStartIs(bi: Byte, rows: seq<nat>, cols: nat, n: nat)
    requires cols > 0 && |rows| == n * cols && bi < n && |rows| >= cols
    ensures RowStart(bi, rows, cols) == bi * cols
  {
    Quotient(0, n, cols);
  }
}
