/** The multi-stage tables of src/table_store.hpp that normalization reads, and what they mean. */
module NormalizationTables {
  import opened Basics
  import opened UnicodeData

  /** Index by `cp >> 8` into rows of 257 (decomposition, composition) or 256 (class) entries. */
  datatype Tables = Tables(
    decompositionIndex: seq<Byte>, decompositionBlock: seq<nat>, decompositionData: Points,
    cccIndex: seq<Byte>, cccBlock: seq<nat>,
    compositionIndex: seq<Byte>, compositionBlock: seq<nat>, compositionData: Points)

  const BLOCK_COUNT := 0x1100
  const WIDE := 257
  const NARROW := 256

  /** Sections of a table have matching sizes. */
  predicate Sized(index: seq<Byte>, block: seq<nat>, cols: nat) {
    |index| == BLOCK_COUNT && |block| >= cols > 0
  }

  /** A block index out of range reads row 0. */
  function RowStart(bi: Byte, block: seq<nat>, cols: nat): (start: nat)
    requires |block| >= cols > 0
    ensures start + cols <= |block|
  {
    if bi >= |block| / cols then 0
    else
      RowFits(bi, |block|, cols);
      bi * cols
  }

  lemma RowFits(bi: nat, size: nat, cols: nat)
    requires cols > 0 && bi < size / cols
    ensures 0 <= bi * cols && bi * cols + cols <= size
  {
    assert (bi + 1) * cols <= (size / cols) * cols;
  }

  /** Entry `k` at or after the entry of code point `c`. */
  function Entry(index: seq<Byte>, block: seq<nat>, cols: nat, c: nat, k: nat): nat
    requires Sized(index, block, cols) && c < 0x110000 && 256 + k <= cols
  {
    block[RowStart(index[c / 256], block, cols) + c % 256 + k]
  }

  predicate Shape(t: Tables) {
    && Sized(t.decompositionIndex, t.decompositionBlock, WIDE)
    && Sized(t.cccIndex, t.cccBlock, NARROW)
    && Sized(t.compositionIndex, t.compositionBlock, WIDE)
  }

  function DecompositionEntry(t: Tables, c: nat, k: nat): nat
    requires Shape(t) && c < 0x110000 && k <= 1
  {
    Entry(t.decompositionIndex, t.decompositionBlock, WIDE, c, k)
  }

  function CompositionEntry(t: Tables, c: nat, k: nat): nat
    requires Shape(t) && c < 0x110000 && k <= 1
  {
    Entry(t.compositionIndex, t.compositionBlock, WIDE, c, k)
  }

  /** The pairs of a composition row: seconds in strictly increasing order at even distances. */
  predicate PairsSorted(data: Points, lo: nat, hi: nat)
    requires hi <= |data|
  {
    && lo <= hi && (hi - lo) % 2 == 0
    && forall i, j :: lo <= i < j < hi && (i - lo) % 2 == 0 && (j - lo) % 2 == 0 ==> data[i] < data[j]
  }

  /** Slices lie within the data, and pairs are sorted and compose to code points. */
  ghost predicate Valid(t: Tables) {
    && Shape(t)
    && (forall c: nat {:trigger DecompositionEntry(t, c, 0)} :: c < 0x110000 ==>
          DecompositionEntry(t, c, 0) / 4 <= DecompositionEntry(t, c, 1) / 4 <= |t.decompositionData|)
    && (forall c: nat {:trigger CompositionEntry(t, c, 0)} :: c < 0x110000 ==>
          var lo, hi := CompositionEntry(t, c, 0), CompositionEntry(t, c, 1);
          && lo <= hi <= |t.compositionData| && PairsSorted(t.compositionData, lo, hi)
          && forall i :: lo <= i < hi && (i - lo) % 2 == 1 ==> t.compositionData[i] < 0x110000)
  }

  /** The stored canonical decomposition; flag bit 0 marks a compatibility-only entry. */
  function CanonicalAt(t: Tables, c: nat): (d: Points)
    requires Shape(t)
  {
    if IsSyllable(c) || c >= 0x110000 then []
    else
      var from, to := DecompositionEntry(t, c, 0), DecompositionEntry(t, c, 1);
      if !(from / 4 <= to / 4 <= |t.decompositionData|) || from % 2 == 1 then []
      else t.decompositionData[from / 4..to / 4]
  }

  function CccAt(t: Tables, c: nat): nat
    requires Shape(t)
  {
    if c >= 0x110000 then 0 else Entry(t.cccIndex, t.cccBlock, NARROW, c, 0)
  }

  /** The composite stored with `second` among the pairs from `lo` to `hi`. */
  function PairIn(data: Points, lo: nat, hi: nat, second: nat): Option<nat>
    requires hi <= |data|
    decreases hi - lo
  {
    if lo + 1 >= hi then None
    else if data[lo] == second then Some(data[lo + 1])
    else PairIn(data, lo + 2, hi, second)
  }

  function PairAt(t: Tables, a: nat, b: nat): Option<nat>
    requires Shape(t)
  {
    if a >= 0x110000 || CompositionEntry(t, a, 1) > |t.compositionData| then None
    else PairIn(t.compositionData, CompositionEntry(t, a, 0), CompositionEntry(t, a, 1), b)
  }

  /** What the tables say about code points. */
  function Meaning(t: Tables): Unicode
    requires Shape(t)
  {
    Unicode((c: nat) => CanonicalAt(t, c), (c: nat) => CccAt(t, c), (a: nat, b: nat) => PairAt(t, a, b))
  }

  // ---------------------------------------------------------------- the pair search

  lemma FirstPair(data: Points, lo: nat, hi: nat, at: nat)
    requires hi <= |data| && PairsSorted(data, lo, hi)
    requires lo <= at < hi && (at - lo) % 2 == 0
    ensures at + 1 < hi
    ensures at > lo ==> lo + 2 <= at && data[lo] < data[at] && PairsSorted(data, lo + 2, hi) && (at - (lo + 2)) % 2 == 0
  {
    if at > lo {
      forall i, j | lo + 2 <= i < j < hi && (i - (lo + 2)) % 2 == 0 && (j - (lo + 2)) % 2 == 0
        ensures data[i] < data[j]
      {
        assert (i - lo) % 2 == 0 && (j - lo) % 2 == 0;
      }
    }
  }

  lemma {:induction false} PairFound(data: Points, lo: nat, hi: nat, at: nat, second: nat)
    requires hi <= |data| && PairsSorted(data, lo, hi)
    requires lo <= at < hi && (at - lo) % 2 == 0 && data[at] == second
    ensures at + 1 < hi && PairIn(data, lo, hi, second) == Some(data[at + 1])
    decreases hi - lo
  {
    FirstPair(data, lo, hi, at);
    if at > lo {
      hide PairsSorted;
      PairFound(data, lo + 2, hi, at, second);
    }
  }

  lemma {:induction false} PairMissing(data: Points, lo: nat, hi: nat, second: nat)
    requires hi <= |data|
    requires forall i :: lo <= i < hi && (i - lo) % 2 == 0 ==> data[i] != second
    ensures PairIn(data, lo, hi, second) == None
    decreases hi - lo
  {
    if lo + 1 < hi {
      forall i | lo + 2 <= i < hi && (i - (lo + 2)) % 2 == 0 ensures data[i] != second {
        assert (i - lo) % 2 == 0;
      }
      PairMissing(data, lo + 2, hi, second);
    }
  }

  /** Half the distance, rounded down to an even number, lands on a pair strictly in between. */
  lemma Middle(lo: nat, left: nat, right: nat, half: nat)
    requires lo <= left && left + 2 < right && (left - lo) % 2 == 0 && (right - lo) % 2 == 0
    requires half == (right - left) / 2
    ensures left < left + (half - half % 2) < right && (left + (half - half % 2) - lo) % 2 == 0
  {}

  /** The binary search at stride two of `has_composition` and `compose`. */
  method FindSecond(data: Points, lo: nat, hi: nat, second: nat) returns (left: nat)
    requires lo < hi <= |data| && PairsSorted(data, lo, hi)
    ensures lo <= left && left + 1 < hi
    ensures PairIn(data, lo, hi, second) == if data[left] == second then Some(data[left + 1]) else None
  {
    hide PairIn;
    left := lo;
    var right := hi;
    while left + 2 < right
      invariant lo <= left <= right <= hi && left < hi
      invariant (left - lo) % 2 == 0 && (right - lo) % 2 == 0
      invariant left == right ==> data[left] == second
      invariant left < right ==>
                  && (forall i :: lo <= i < left && (i - lo) % 2 == 0 ==> data[i] < second)
                  && (forall i :: right <= i < hi && (i - lo) % 2 == 0 ==> data[i] > second)
      decreases right - left
    {
      var half := (right - left) / 2;
      var middle := left + (half - half % 2);
      Middle(lo, left, right, half);
      var key := data[middle];
      if key <= second { left := middle; }
      if key >= second { right := middle; }
    }
    if data[left] == second {
      PairFound(data, lo, hi, left, second);
    } else {
      PairMissing(data, lo, hi, second);
    }
  }
}
