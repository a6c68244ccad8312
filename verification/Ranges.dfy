/** Sorted range tables: their generator (`build_ranges`, scripts/unicode_data_table.py) and the
    binary search that reads them (`find_range`, src/validity.cpp). */
module Ranges {
  import opened Basics

  /** Code points `first` to `last` share `value`. */
  datatype Range = Range(first: nat, last: nat, value: nat)

  /** Ranges are not empty, do not overlap, and come in increasing order. */
  predicate Separate(start: seq<nat>, last: seq<nat>) {
    && |start| == |last|
    && (forall i :: 0 <= i < |start| ==> start[i] <= last[i])
    && (forall i, j :: 0 <= i < j < |start| ==> last[i] < start[j])
  }

  predicate Within(start: seq<nat>, last: seq<nat>, i: nat, cp: nat)
    requires |start| == |last| && i < |start|
  {
    start[i] <= cp <= last[i]
  }

  /** Index of the first range that contains `cp`, the number of ranges if none does. */
  function RangeIndex(start: seq<nat>, last: seq<nat>, cp: nat, i: nat): (r: nat)
    requires |start| == |last| && i <= |start|
    ensures i <= r <= |start|
    ensures r < |start| ==> Within(start, last, r, cp)
    ensures forall k :: i <= k < r ==> !Within(start, last, k, cp)
    decreases |start| - i
  {
    if i == |start| || Within(start, last, i, cp) then i else RangeIndex(start, last, cp, i + 1)
  }

  /** `find_range` */
  method FindRange(start: seq<nat>, last: seq<nat>, cp: nat) returns (r: nat)
    requires Separate(start, last)
    ensures r == RangeIndex(start, last, cp, 0)
  {
    var lo, hi := 0, |last|;
    while lo < hi
      invariant 0 <= lo <= hi <= |last|
      invariant forall i :: 0 <= i < lo ==> last[i] < cp
      invariant forall i :: hi <= i < |last| ==> cp <= last[i]
    {
      var mid := lo + (hi - lo) / 2;
      if last[mid] < cp {
        lo := mid + 1;
      } else {
        hi := mid;
      }
    }
    r := if lo < |start| && cp >= start[lo] then lo else |start|;
    OnlyAt(start, last, cp, lo);
  }

  /** The first range that ends at or after `cp` is the only one that can contain it. */
  lemma OnlyAt(start: seq<nat>, last: seq<nat>, cp: nat, lo: nat)
    requires Separate(start, last) && lo <= |last|
    requires forall i :: 0 <= i < lo ==> last[i] < cp
    requires forall i :: lo <= i < |last| ==> cp <= last[i]
    ensures RangeIndex(start, last, cp, 0) == if lo < |start| && cp >= start[lo] then lo else |start|
  {
    var r := RangeIndex(start, last, cp, 0);
    if lo < |start| && cp >= start[lo] {
      assert Within(start, last, lo, cp);
    }
  }

  // ---------------------------------------------------------------- build_ranges

  function Starts(rs: seq<Range>): (s: seq<nat>)
    ensures |s| == |rs| && forall i :: 0 <= i < |s| ==> s[i] == rs[i].first
  {
    seq(|rs|, i requires 0 <= i < |rs| => rs[i].first)
  }

  function Lasts(rs: seq<Range>): (s: seq<nat>)
    ensures |s| == |rs| && forall i :: 0 <= i < |s| ==> s[i] == rs[i].last
  {
    seq(|rs|, i requires 0 <= i < |rs| => rs[i].last)
  }

  predicate Increasing(keys: seq<nat>) {
    forall i, j :: 0 <= i < j < |keys| ==> keys[i] < keys[j]
  }

  /** Code point `cp` has value `v` in some range. */
  predicate Holds(rs: seq<Range>, cp: nat, v: nat) {
    exists i :: 0 <= i < |rs| && rs[i].first <= cp <= rs[i].last && rs[i].value == v
  }

  /** The ranges say about every code point what the first `n` keys of `values` say. */
  ghost predicate Represents(rs: seq<Range>, values: map<nat, nat>, keys: seq<nat>, n: nat)
    requires n <= |keys| && forall k :: k in keys ==> k in values
  {
    && Separate(Starts(rs), Lasts(rs))
    && (forall i :: 0 <= i < |rs| ==> rs[i].last in keys[..n])
    && (forall cp, v :: Holds(rs, cp, v) <==> cp in keys[..n] && values[cp] == v)
  }

  lemma AppendRange(rs: seq<Range>, r: Range, cp: nat, v: nat)
    ensures Holds(rs + [r], cp, v) <==> Holds(rs, cp, v) || (r.first <= cp <= r.last && r.value == v)
  {
    var s := rs + [r];
    if i :| 0 <= i < |rs| && rs[i].first <= cp <= rs[i].last && rs[i].value == v {
      assert s[i] == rs[i];
    }
    if r.first <= cp <= r.last && r.value == v { assert s[|rs|] == r; }
    if i :| 0 <= i < |s| && s[i].first <= cp <= s[i].last && s[i].value == v {
      assert i < |rs| ==> rs[i] == s[i];
    }
  }

  lemma NextKey(keys: seq<nat>, n: nat, cp: nat)
    requires n < |keys|
    ensures cp in keys[..n + 1] <==> cp in keys[..n] || cp == keys[n]
  {
    assert keys[..n + 1] == keys[..n] + [keys[n]];
  }

  /** All ranges end before the next key. */
  lemma EndsBefore(rs: seq<Range>, values: map<nat, nat>, keys: seq<nat>, n: nat)
    requires forall k :: k in keys ==> k in values
    requires n < |keys| && Increasing(keys) && Represents(rs, values, keys, n)
    ensures forall i :: 0 <= i < |rs| ==> rs[i].last < keys[n]
  {
    forall k | k in keys[..n] ensures k < keys[n] {}
  }

  lemma AddRange(rs: seq<Range>, values: map<nat, nat>, keys: seq<nat>, n: nat)
    requires forall k :: k in keys ==> k in values
    requires n < |keys| && Increasing(keys) && Represents(rs, values, keys, n)
    ensures Represents(rs + [Range(keys[n], keys[n], values[keys[n]])], values, keys, n + 1)
  {
    var r := Range(keys[n], keys[n], values[keys[n]]);
    var s := rs + [r];
    EndsBefore(rs, values, keys, n);
    assert Separate(Starts(s), Lasts(s)) by {
      assert Starts(s) == Starts(rs) + [r.first] && Lasts(s) == Lasts(rs) + [r.last];
    }
    forall i | 0 <= i < |s| ensures s[i].last in keys[..n + 1] {
      NextKey(keys, n, s[i].last);
      assert i < |rs| ==> s[i] == rs[i];
    }
    hide Separate, Holds;
    forall cp, v ensures Holds(s, cp, v) <==> cp in keys[..n + 1] && values[cp] == v {
      AppendRange(rs, r, cp, v);
      NextKey(keys, n, cp);
    }
  }

  lemma ExtendRange(rs: seq<Range>, values: map<nat, nat>, keys: seq<nat>, n: nat)
    requires forall k :: k in keys ==> k in values
    requires n < |keys| && Increasing(keys) && Represents(rs, values, keys, n)
    requires rs != [] && rs[|rs| - 1].value == values[keys[n]] && rs[|rs| - 1].last + 1 == keys[n]
    ensures Represents(rs[..|rs| - 1] + [Range(rs[|rs| - 1].first, keys[n], values[keys[n]])], values, keys, n + 1)
  {
    var init, tip := rs[..|rs| - 1], rs[|rs| - 1];
    var r := Range(tip.first, keys[n], tip.value);
    var s := init + [r];
    assert rs == init + [tip];
    EndsBefore(rs, values, keys, n);
    assert Separate(Starts(s), Lasts(s)) by {
      assert Starts(s) == Starts(rs) && Lasts(s) == Lasts(rs)[|rs| - 1 := keys[n]];
    }
    forall i | 0 <= i < |s| ensures s[i].last in keys[..n + 1] {
      NextKey(keys, n, s[i].last);
      assert i < |init| ==> s[i] == rs[i];
    }
    hide Separate, Holds;
    forall cp, v ensures Holds(s, cp, v) <==> cp in keys[..n + 1] && values[cp] == v {
      AppendRange(init, r, cp, v);
      AppendRange(init, tip, cp, v);
      NextKey(keys, n, cp);
    }
  }

  /** `build_ranges`; `keys` is Python's `sorted(values)`. */
  method BuildRanges(values: map<nat, nat>, keys: seq<nat>) returns (ranges: seq<Range>)
    requires Increasing(keys) && forall k :: k in keys <==> k in values
    ensures Separate(Starts(ranges), Lasts(ranges))
    ensures forall cp, v :: Holds(ranges, cp, v) <==> cp in values && values[cp] == v
  {
    hide Holds, Separate;
    ranges := [];
    NoRanges(values, keys);
    for n := 0 to |keys|
      invariant Represents(ranges, values, keys, n)
    {
      var cp := keys[n];
      var value := values[cp];
      if ranges != [] && ranges[|ranges| - 1].value == value && ranges[|ranges| - 1].last + 1 == cp {
        ExtendRange(ranges, values, keys, n);
        ranges := ranges[..|ranges| - 1] + [Range(ranges[|ranges| - 1].first, cp, value)];
      } else {
        AddRange(ranges, values, keys, n);
        ranges := ranges + [Range(cp, cp, value)];
      }
    }
    assert keys[..|keys|] == keys;
  }

  lemma NoRanges(values: map<nat, nat>, keys: seq<nat>)
    requires forall k :: k in keys ==> k in values
    ensures Represents([], values, keys, 0)
  {}

  /** What the search finds in ranges that hold `values`: the stored value, or none. */
  lemma LookupIsMap(rs: seq<Range>, values: map<nat, nat>, cp: nat)
    requires forall c, v :: Holds(rs, c, v) <==> c in values && values[c] == v
    ensures var i := RangeIndex(Starts(rs), Lasts(rs), cp, 0);
            if i < |rs| then cp in values && rs[i].value == values[cp] else cp !in values
  {
    var i := RangeIndex(Starts(rs), Lasts(rs), cp, 0);
    if i < |rs| {
      assert rs[i].first <= cp <= rs[i].last;
      assert Holds(rs, cp, rs[i].value);
    } else if cp in values {
      assert Holds(rs, cp, values[cp]);
      var k :| 0 <= k < |rs| && rs[k].first <= cp <= rs[k].last;
      assert Within(Starts(rs), Lasts(rs), k, cp);
    }
  }

  /** Building and searching: the ranges of a map give back the map. */
  method BuildAndFind(values: map<nat, nat>, keys: seq<nat>, cp: nat) returns (found: Option<nat>)
    requires Increasing(keys) && forall k :: k in keys <==> k in values
    ensures found == if cp in values then Some(values[cp]) else None
  {
    hide Holds, Separate;
    var ranges := BuildRanges(values, keys);
    var i := FindRange(Starts(ranges), Lasts(ranges), cp);
    LookupIsMap(ranges, values, cp);
    found := if i < |ranges| then Some(ranges[i].value) else None;
  }
}
