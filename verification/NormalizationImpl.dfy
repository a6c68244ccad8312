/** The loops of src/normalization.cpp over the stored tables, proved against the functions of
    `Normalization` and `NormalizationFastPath`. */
module NormalizationImpl {
  import opened Basics
  import opened UnicodeData
  import opened CanonicalOrder
  import opened Normalization
  import opened NormalizationFastPath
  import opened NormalizationTables
  import opened CompositionAlgorithm

  /** A `std::u32string` that is edited in place. */
  class Text {
    var chars: Points

    constructor (s: Points)
      ensures chars == s
    {
      chars := s;
    }
  }

  // ---------------------------------------------------------------- decomposition

  /** Length of the stored canonical decomposition, 0 if there is none to apply. */
  method StoredLength(t: Tables, c: nat) returns (length: nat)
    requires Valid(t) && !IsSyllable(c)
    ensures length == |Meaning(t).canonical(c)|
  {
    length := 0;
    if c < 0x110000 {
      var from, to := DecompositionEntry(t, c, 0), DecompositionEntry(t, c, 1);
      length := to / 4 - from / 4;
      if length > 0 && from % 2 == 1 { length := 0; }
    }
  }

  method ComputeDecompositionLength(t: Tables, s: Points) returns (needed: bool, additional: nat)
    requires Valid(t)
    ensures |s| + additional == |Decomposed(Meaning(t), s)|
    ensures !needed ==> Decomposed(Meaning(t), s) == s
  {
    hide Meaning, Decomposed, Shape;
    ghost var u := Meaning(t);
    Ends(u, s);
    needed, additional := false, 0;
    for i := 0 to |s|
      invariant i + additional == |Decomposed(u, s[..i])|
      invariant !needed ==> Undecomposable(u, s[..i])
    {
      var length := 0;
      if IsSyllable(s[i]) {
        length := 2;
        if (s[i] - SBASE) % TCOUNT != 0 { length := 3; }
      } else {
        length := StoredLength(t, s[i]);
      }
      assert s[..i + 1] == s[..i] + [s[i]];
      DecomposedJoin(u, s[..i], [s[i]]);
      DecomposedOne(u, s[i]);
      if length != 0 {
        needed := true;
        additional := additional + (length - 1);
      }
    }
    if !needed { DecomposedUnchanged(u, s); }
  }

  /** Writes `d` to the places just below `at`, last character first. */
  method WriteBelow(text: Text, at: nat, d: Points) returns (down: nat)
    requires |d| <= at <= |text.chars|
    modifies text
    ensures down == at - |d|
    ensures text.chars == old(text.chars)[..down] + d + old(text.chars)[at..]
  {
    ghost var before := text.chars;
    down := at;
    var n: nat := |d|;
    while n > 0
      invariant n <= |d| && down == at - |d| + n && |text.chars| == |before|
      invariant text.chars == before[..down] + d[n..] + before[at..]
    {
      n := n - 1;
      down := down - 1;
      text.chars := text.chars[down := d[n]];
    }
    assert d[0..] == d;
  }

  /** Expands in place from the back: what is still to be read is never overwritten. */
  method Decompose(t: Tables, text: Text, additional: nat)
    requires Valid(t)
    requires |text.chars| + additional == |Decomposed(Meaning(t), text.chars)|
    modifies text
    ensures text.chars == Decomposed(Meaning(t), old(text.chars))
  {
    hide Meaning, Full, Decomposed, Shape;
    ghost var u := Meaning(t);
    var inputCount: nat := |text.chars|;
    ghost var s := text.chars;
    text.chars := text.chars + seq(additional, _ => 0);
    var descending := |text.chars|;
    Ends(u, s);
    while inputCount > 0
      invariant inputCount <= |s| && inputCount <= descending == |Decomposed(u, s[..inputCount])| <= |text.chars|
      invariant text.chars[..inputCount] == s[..inputCount]
      invariant text.chars[descending..] == Decomposed(u, s[inputCount..])
    {
      inputCount := inputCount - 1;
      var c := text.chars[inputCount];
      assert c == text.chars[..inputCount + 1][inputCount] == s[inputCount];
      DecomposeSplit(u, s, inputCount);
      DecomposedAtLeast(u, s[..inputCount]);
      var d := Characters(t, c);
      ghost var before, at := text.chars, descending;
      descending := WriteBelow(text, descending, d);
      Written(before, text.chars, s, inputCount, descending, at, d);
    }
    assert text.chars[0..] == text.chars;
  }

  lemma Ends(u: Unicode, s: Points)
    ensures s[..|s|] == s && s[0..] == s && Decomposed(u, s[|s|..]) == [] && Decomposed(u, s[..0]) == []
  {}

  lemma Written(before: Points, after: Points, s: Points, i: nat, down: nat, at: nat, d: Points)
    requires i < |s| && i <= down <= at <= |before| && i + 1 <= |before|
    requires before[..i + 1] == s[..i + 1]
    requires after == before[..down] + d + before[at..] && |d| == at - down
    ensures after[down..] == d + before[at..] && after[..i] == s[..i]
  {
    assert after[..i] == before[..i] == before[..i + 1][..i] == s[..i + 1][..i] == s[..i];
  }

  /** What is read for one character. */
  method Characters(t: Tables, c: nat) returns (d: Points)
    requires Valid(t)
    ensures d == Full(Meaning(t), c)
  {
    if IsSyllable(c) {
      var index := c - SBASE;
      d := [LBASE + index / NCOUNT, VBASE + (index % NCOUNT) / TCOUNT];
      if index % TCOUNT != 0 { d := d + [TBASE + index % TCOUNT]; }
    } else {
      var length := StoredLength(t, c);
      d := [c];
      if length > 0 {
        var base := DecompositionEntry(t, c, 0) / 4;
        d := t.decompositionData[base..base + length];
      }
    }
  }

  lemma DecomposeSplit(u: Unicode, s: Points, i: nat)
    requires i < |s|
    ensures Decomposed(u, s[..i + 1]) == Decomposed(u, s[..i]) + Full(u, s[i])
    ensures Decomposed(u, s[i..]) == Full(u, s[i]) + Decomposed(u, s[i + 1..])
  {
    assert s[..i + 1] == s[..i] + [s[i]];
    DecomposedJoin(u, s[..i], [s[i]]);
    DecomposedOne(u, s[i]);
    assert s[i..][0] == s[i] && s[i..][1..] == s[i + 1..];
  }

  lemma {:induction false} DecomposedAtLeast(u: Unicode, s: Points)
    ensures |Decomposed(u, s)| >= |s|
  {
    if s != [] { DecomposedAtLeast(u, s[1..]); }
  }

  // ---------------------------------------------------------------- canonical order

  /** Insertion sort of the marks, in place. */
  method SortMarks(t: Tables, text: Text)
    requires Shape(t)
    modifies text
    ensures text.chars == Sorted(Meaning(t), old(text.chars))
  {
    hide Meaning, Shape, Place;
    ghost var u := Meaning(t);
    ghost var s := text.chars;
    if |text.chars| == 0 { return; }
    FirstSorted(u, s);
    for idx := 1 to |text.chars|
      invariant |text.chars| == |s|
      invariant text.chars[..idx] == SortedUpTo(u, s, idx)
      invariant text.chars[idx..] == s[idx..]
    {
      assert text.chars[idx] == text.chars[idx..][0] == s[idx..][0] == s[idx];
      InsertMark(t, text, idx);
    }
    assert text.chars[..|s|] == text.chars;
  }

  lemma FirstSorted(u: Unicode, s: Points)
    requires s != []
    ensures SortedUpTo(u, s, 1) == s[..1]
  {
    assert SortedUpTo(u, s, 0) == [];
    assert s[..1] == [s[0]];
  }

  /** Moves the mark at `idx` down past the marks of higher class before it. */
  method InsertMark(t: Tables, text: Text, idx: nat)
    requires Shape(t) && idx < |text.chars|
    modifies text
    ensures |text.chars| == |old(text.chars)|
    ensures text.chars[..idx + 1] == Place(Meaning(t), old(text.chars)[..idx], old(text.chars)[idx])
    ensures text.chars[idx + 1..] == old(text.chars)[idx + 1..]
  {
    ghost var u := Meaning(t);
    ghost var s := text.chars;
    ghost var p := s[..idx];
    var c := text.chars[idx];
    var ccc := CccAt(t, c);
    if ccc == 0 {
      assert s[..idx + 1] == p + [c];
      return;
    }
    hide Meaning, Slot, Shape, Place;
    var back := idx;
    while back != 0 && CccAt(t, text.chars[back - 1]) > ccc
      invariant 0 <= back <= idx && |text.chars| == |s|
      invariant Slot(u, p, idx, c) == Slot(u, p, back, c)
      invariant text.chars[..back] == s[..back]
      invariant back < idx ==> text.chars[back + 1..idx + 1] == s[back..idx]
      invariant text.chars[idx + 1..] == s[idx + 1..]
      decreases back
    {
      assert text.chars[back - 1] == text.chars[..back][back - 1] == s[back - 1] == p[back - 1];
      SlotDown(t, p, back, c);
      ghost var before := text.chars;
      text.chars := text.chars[back := text.chars[back - 1]];
      Shifted(before, text.chars, s, back, idx);
      back := back - 1;
    }
    SlotStops(t, p, back, c);
    ghost var before := text.chars;
    text.chars := text.chars[back := c];
    MarkPlaced(before, text.chars, s, back, idx, c);
    PlaceIs(t, p, c);
  }

  lemma SlotDown(t: Tables, p: Points, k: nat, c: nat)
    requires Shape(t) && 0 < k <= |p| && CccAt(t, p[k - 1]) > CccAt(t, c)
    ensures Slot(Meaning(t), p, k, c) == Slot(Meaning(t), p, k - 1, c)
  {}

  lemma SlotStops(t: Tables, p: Points, k: nat, c: nat)
    requires Shape(t) && k <= |p| && (k > 0 ==> CccAt(t, p[k - 1]) <= CccAt(t, c))
    ensures Slot(Meaning(t), p, k, c) == k
  {}

  lemma PlaceIs(t: Tables, p: Points, c: nat)
    requires Shape(t) && CccAt(t, c) != 0
    ensures Place(Meaning(t), p, c) == InsertAt(p, Slot(Meaning(t), p, |p|, c), c)
  {}

  lemma Shifted(before: Points, after: Points, s: Points, back: nat, idx: nat)
    requires 0 < back <= idx < |s| == |before| && after == before[back := before[back - 1]]
    requires before[..back] == s[..back] && before[idx + 1..] == s[idx + 1..]
    requires back < idx ==> before[back + 1..idx + 1] == s[back..idx]
    ensures after[..back - 1] == s[..back - 1] && after[idx + 1..] == s[idx + 1..]
    ensures after[back..idx + 1] == s[back - 1..idx]
  {
    assert before[back - 1] == before[..back][back - 1] == s[back - 1];
    assert after[back..idx + 1] == [s[back - 1]] + before[back + 1..idx + 1];
    assert after[..back - 1] == before[..back][..back - 1];
  }

  lemma MarkPlaced(before: Points, after: Points, s: Points, back: nat, idx: nat, c: nat)
    requires back <= idx < |s| == |before| && after == before[back := c] && c == s[idx]
    requires before[..back] == s[..back] && before[idx + 1..] == s[idx + 1..]
    requires back < idx ==> before[back + 1..idx + 1] == s[back..idx]
    ensures |after| == |s|
    ensures after[..idx + 1] == InsertAt(s[..idx], back, c)
    ensures after[idx + 1..] == s[idx + 1..]
  {
    assert after[..idx + 1] == before[..back] + [c] + before[back + 1..idx + 1];
    assert s[..idx][..back] == s[..back] && s[..idx][back..] == s[back..idx];
    assert back == idx ==> before[back + 1..idx + 1] == [];
  }

  method DecomposeNfc(t: Tables, text: Text)
    requires Valid(t)
    modifies text
    ensures text.chars == Nfd(Meaning(t), old(text.chars))
  {
    hide Meaning, Decomposed, Sorted;
    var needed, additional := ComputeDecompositionLength(t, text.chars);
    if needed { Decompose(t, text, additional); }
    SortMarks(t, text);
  }

  // ---------------------------------------------------------------- composition

  /** The search of `has_composition`, also returning the composite as `compose` reads it. */
  method FindPair(t: Tables, a: nat, b: nat) returns (found: bool, composite: nat)
    requires Valid(t)
    ensures found <==> Meaning(t).pair(a, b).Some?
    ensures found ==> Meaning(t).pair(a, b) == Some(composite) && composite < 0x110000
  {
    found, composite := false, 0;
    if a < 0x110000 {
      var lo, hi := CompositionEntry(t, a, 0), CompositionEntry(t, a, 1);
      if hi != lo {
        var left := FindSecond(t.compositionData, lo, hi, b);
        if t.compositionData[left] == b {
          found, composite := true, t.compositionData[left + 1];
          CompositeBound(t, a, b, lo, hi);
        }
      }
    }
  }

  lemma CompositeBound(t: Tables, a: nat, b: nat, lo: nat, hi: nat)
    requires Valid(t) && a < 0x110000 && lo == CompositionEntry(t, a, 0) && hi == CompositionEntry(t, a, 1)
    requires PairIn(t.compositionData, lo, hi, b).Some?
    ensures PairIn(t.compositionData, lo, hi, b).value < 0x110000
  {
    PairValueStored(t.compositionData, lo, lo, hi, b);
  }

  lemma {:induction false} PairValueStored(data: Points, from: nat, lo: nat, hi: nat, b: nat)
    requires from <= lo <= hi <= |data| && (lo - from) % 2 == 0 && PairIn(data, lo, hi, b).Some?
    requires forall i :: from <= i < hi && (i - from) % 2 == 1 ==> data[i] < 0x110000
    ensures PairIn(data, lo, hi, b).value < 0x110000
    decreases hi - lo
  {
    if data[lo] == b {
      assert (lo + 1 - from) % 2 == 1;
    } else {
      PairValueStored(data, from, lo + 2, hi, b);
    }
  }

  /** One turn of `ComposeOnto` on a non-empty rest. */
  lemma OntoStep(u: Unicode, base: nat, p: int, kept: Points, s: Points)
    requires s != []
    ensures ComposeOnto(u, base, p, kept, s)
         == if p < u.ccc(s[0]) && u.pair(base, s[0]).Some?
            then ComposeOnto(u, u.pair(base, s[0]).value, p, kept, s[1..])
            else if u.ccc(s[0]) == 0 then [base] + kept + Compose(u, s)
            else ComposeOnto(u, base, u.ccc(s[0]), kept + [s[0]], s[1..])
  {}

  lemma OntoEnd(u: Unicode, base: nat, p: int, kept: Points)
    ensures ComposeOnto(u, base, p, kept, []) == [base] + kept + Compose(u, [])
  {
    assert [base] + kept + [] == [base] + kept;
  }

  /** The buffer in the inner loop of `compose`, entered with buffer `s` at (i0, o0): the open
      character at `o0`, the marks kept up to `o`, and from `i + 1` on what is still to be read. */
  ghost predicate InMarks(u: Unicode, s: Points, i0: nat, o0: nat, buf: Points, i: nat, o: nat, p: int) {
    && o0 <= i0 <= i < |s| == |buf| && o0 <= o <= i
    && buf[..o0] == s[..o0] && buf[i + 1..] == s[i + 1..]
    && ComposeOnto(u, s[o0], -1, [], s[i0 + 1..]) == ComposeOnto(u, buf[o0], p, buf[o0 + 1..o + 1], s[i + 1..])
  }

  lemma InMarksStart(u: Unicode, s: Points, i0: nat, o0: nat)
    requires o0 <= i0 < |s|
    ensures InMarks(u, s, i0, o0, s, i0, o0, -1)
  {
    hide ComposeOnto;
    assert s[o0 + 1..o0 + 1] == [];
  }

  lemma InMarksComposed(u: Unicode, s: Points, i0: nat, o0: nat, buf: Points, i: nat, o: nat, p: int, composite: nat)
    requires InMarks(u, s, i0, o0, buf, i, o, p) && i + 1 < |s|
    requires p < u.ccc(buf[i + 1]) && u.pair(buf[o0], buf[i + 1]) == Some(composite)
    ensures InMarks(u, s, i0, o0, buf[o0 := composite], i + 1, o, p)
  {
    hide ComposeOnto;
    NextChar(buf, s, i, buf[i + 1]);
    OntoStep(u, buf[o0], p, buf[o0 + 1..o + 1], s[i + 1..]);
    BaseReplaced(buf, buf[o0 := composite], s, o0, o, i, composite);
  }

  lemma InMarksKept(u: Unicode, s: Points, i0: nat, o0: nat, buf: Points, i: nat, o: nat, p: int)
    requires InMarks(u, s, i0, o0, buf, i, o, p) && i + 1 < |s|
    requires !(p < u.ccc(buf[i + 1]) && u.pair(buf[o0], buf[i + 1]).Some?) && u.ccc(buf[i + 1]) != 0
    ensures InMarks(u, s, i0, o0, buf[o + 1 := buf[i + 1]], i + 1, o + 1, u.ccc(buf[i + 1]))
  {
    hide ComposeOnto;
    NextChar(buf, s, i, buf[i + 1]);
    OntoStep(u, buf[o0], p, buf[o0 + 1..o + 1], s[i + 1..]);
    MarkKept(buf, buf[o + 1 := buf[i + 1]], s, o0, o + 1, i, buf[i + 1]);
  }

  /** At the end of the inner loop the open character is closed. */
  lemma InMarksEnd(u: Unicode, s: Points, i0: nat, o0: nat, buf: Points, i: nat, o: nat, p: int)
    requires InMarks(u, s, i0, o0, buf, i, o, p)
    requires i + 1 < |s| ==> !(p < u.ccc(buf[i + 1]) && u.pair(buf[o0], buf[i + 1]).Some?) && u.ccc(buf[i + 1]) == 0
    ensures MarksDone(u, s, i0, o0, buf, i, o)
  {
    hide ComposeOnto, Compose;
    var kept := buf[o0 + 1..o + 1];
    assert buf[o0..o + 1] == [buf[o0]] + kept;
    if i + 1 < |s| {
      NextChar(buf, s, i, buf[i + 1]);
      OntoStep(u, buf[o0], p, kept, s[i + 1..]);
    } else {
      assert s[i + 1..] == [];
      OntoEnd(u, buf[o0], p, kept);
    }
  }

  /** What the inner loop of `compose` leaves behind: everything it consumed, composed, from `o0`
      to `o`. */
  ghost predicate MarksDone(u: Unicode, s: Points, i0: nat, o0: nat, buf: Points, i: nat, o: nat) {
    && o0 <= i0 <= i < |s| == |buf| && o0 <= o <= i
    && buf[..o0] == s[..o0] && buf[i + 1..] == s[i + 1..]
    && ComposeOnto(u, s[o0], -1, [], s[i0 + 1..]) == buf[o0..o + 1] + Compose(u, s[i + 1..])
  }

  /** The inner loop of `compose`: composes what follows `i0` onto the character at `o0` and moves
      the marks it keeps down behind it. */
  method ComposeMarks(t: Tables, text: Text, i0: nat, o0: nat) returns (i: nat, o: nat)
    requires Valid(t) && o0 <= i0 < |text.chars|
    modifies text
    ensures i0 <= i < |text.chars| == |old(text.chars)| && o0 <= o <= i
    ensures MarksDone(Meaning(t), old(text.chars), i0, o0, text.chars, i, o)
  {
    ghost var u := Meaning(t);
    hide Meaning, Valid, InMarks, MarksDone, CccAt, PairAt;
    ghost var s := text.chars;
    i, o := i0, o0;
    var previous: int := -1;
    InMarksStart(u, s, i0, o0);
    while i + 1 < |text.chars|
      invariant o0 <= i0 <= i < |s| == |text.chars| && o0 <= o <= i
      invariant InMarks(u, s, i0, o0, text.chars, i, o, previous)
      decreases |text.chars| - i
    {
      var c := text.chars[i + 1];
      ClassIs(t, c);
      var ccc := CccAt(t, c);
      var found, composite := false, 0;
      if previous < ccc { found, composite := FindPair(t, text.chars[o0], c); }
      if found {
        InMarksComposed(u, s, i0, o0, text.chars, i, o, previous, composite);
        text.chars := text.chars[o0 := composite];
        i := i + 1;
        continue;
      }
      if ccc == 0 { break; }
      InMarksKept(u, s, i0, o0, text.chars, i, o, previous);
      previous := ccc;
      o := o + 1;
      text.chars := text.chars[o := c];
      i := i + 1;
    }
    InMarksEnd(u, s, i0, o0, text.chars, i, o, previous);
  }

  lemma ClassIs(t: Tables, c: nat)
    requires Valid(t)
    ensures Meaning(t).ccc(c) == CccAt(t, c)
  {}

  lemma NextChar(buf: Points, s: Points, i: nat, c: nat)
    requires i + 1 < |buf| == |s| && buf[i + 1..] == s[i + 1..] && c == buf[i + 1]
    ensures s[i + 1..] != [] && s[i + 1..][0] == c && s[i + 1..][1..] == s[i + 2..] && buf[i + 2..] == s[i + 2..]
  {
    assert buf[i + 1..][0] == s[i + 1..][0];
    assert buf[i + 1..][1..] == s[i + 1..][1..];
  }

  lemma BaseReplaced(before: Points, after: Points, s: Points, o0: nat, o: nat, i: nat, c: nat)
    requires o0 <= o <= i && i + 2 <= |before| == |s| && after == before[o0 := c]
    requires before[..o0] == s[..o0] && before[i + 2..] == s[i + 2..]
    ensures after[o0] == c && after[o0 + 1..o + 1] == before[o0 + 1..o + 1]
    ensures after[..o0] == s[..o0] && after[i + 2..] == s[i + 2..]
  {}

  lemma MarkKept(before: Points, after: Points, s: Points, o0: nat, o: nat, i: nat, c: nat)
    requires o0 < o <= i + 1 && i + 2 <= |before| == |s| && after == before[o := c]
    requires before[..o0] == s[..o0] && before[i + 2..] == s[i + 2..]
    ensures after[o0] == before[o0] && after[o0 + 1..o + 1] == before[o0 + 1..o] + [c]
    ensures after[..o0] == s[..o0] && after[i + 2..] == s[i + 2..]
  {}

  /** The Hangul branches of `compose`: what starts at `i` is written as one character to `o`. */
  method ComposeHangul(text: Text, i0: nat, o: nat) returns (i: nat)
    requires o <= i0 < |text.chars| && (IsL(text.chars[i0]) || IsSyllable(text.chars[i0]))
    modifies text
    ensures text.chars == old(text.chars)[o := HangulResult(old(text.chars)[i0..])]
    ensures i + 1 == i0 + HangulTaken(old(text.chars)[i0..]) <= |text.chars|
  {
    CurrentChar(text.chars, text.chars, i0);
    i := i0;
    var c := text.chars[i];
    text.chars := text.chars[o := c];
    if IsL(c) {
      if i + 1 < |text.chars| && IsV(text.chars[i + 1]) {
        text.chars := text.chars[o := ComposeLV(c, text.chars[i + 1])];
        i := i + 1;
        if i + 1 < |text.chars| && IsT(text.chars[i + 1]) {
          text.chars := text.chars[o := ComposeLVT(text.chars[o], text.chars[i + 1])];
          i := i + 1;
        }
      }
    } else if (c - SBASE) % TCOUNT == 0 && i + 1 < |text.chars| && IsT(text.chars[i + 1]) {
      text.chars := text.chars[o := ComposeLVT(c, text.chars[i + 1])];
      i := i + 1;
    }
  }

  lemma HangulTogether(u: Unicode, s: Points)
    requires s != [] && (IsL(s[0]) || IsSyllable(s[0]))
    ensures Compose(u, s) == [HangulResult(s)] + Compose(u, s[HangulTaken(s)..])
  {}

  lemma Alone(u: Unicode, s: Points)
    requires s != [] && s[0] >= 0x110000
    ensures Compose(u, s) == [s[0]] + Compose(u, s[1..])
  {}

  /** One turn of the loop of `compose`: reads from `i0` on and writes from `o0` on. */
  method ComposeTurn(t: Tables, text: Text, ghost s: Points, i0: nat, o0: nat) returns (i: nat, o: nat)
    requires Valid(t) && i0 < |text.chars| && Composing(Meaning(t), s, text.chars, i0, o0)
    modifies text
    ensures i0 < i <= |text.chars| && Composing(Meaning(t), s, text.chars, i, o)
  {
    ghost var u := Meaning(t);
    ghost var before := text.chars;
    ComposingChar(u, s, before, i0, o0);
    hide Meaning, Compose, ComposeOnto, HangulTaken, HangulResult, Valid, Composing, MarksDone, IsL, IsSyllable;
    var c := text.chars[i0];
    if IsL(c) || IsSyllable(c) {
      ComposingHangul(u, s, before, i0, o0);
      i := ComposeHangul(text, i0, o0);
      o := o0;
    } else if c < 0x110000 {
      text.chars := text.chars[o0 := c];
      ghost var middle := text.chars;
      i, o := ComposeMarks(t, text, i0, o0);
      TakenOnto(u, before, middle, text.chars, s, i0, o0, i, o);
    } else {
      ComposingAlone(u, s, before, i0, o0);
      text.chars := text.chars[o0 := c];
      i, o := i0, o0;
    }
    i := i + 1;
    o := o + 1;
  }

  /** Composes in place with a read index and a write index behind it. */
  method ComposeText(t: Tables, text: Text)
    requires Valid(t)
    modifies text
    ensures text.chars == Compose(Meaning(t), old(text.chars))
  {
    ghost var u := Meaning(t);
    hide Meaning, Compose, Valid, Composing;
    ghost var s := text.chars;
    var i: nat, o: nat := 0, 0;
    ComposingStart(u, s);
    while i < |text.chars|
      invariant i <= |text.chars| == |s|
      invariant Composing(u, s, text.chars, i, o)
      decreases |s| - i
    {
      i, o := ComposeTurn(t, text, s, i, o);
      ComposingBounds(u, s, text.chars, i, o);
    }
    ComposingEnd(u, s, text.chars, i, o);
    if o < i { text.chars := text.chars[..o]; }
  }

  lemma ComposingBounds(u: Unicode, s: Points, buf: Points, i: nat, o: nat)
    requires Composing(u, s, buf, i, o)
    ensures o <= i <= |s| == |buf|
  {}

  /** The buffer in the outer loop of `compose`: what is written up to `o`, and from `i` on what
      is still to be read. */
  ghost predicate Composing(u: Unicode, s: Points, buf: Points, i: nat, o: nat) {
    && o <= i <= |s| == |buf| && buf[i..] == s[i..]
    && Compose(u, s) == buf[..o] + Compose(u, s[i..])
  }

  lemma ComposingStart(u: Unicode, s: Points)
    ensures Composing(u, s, s, 0, 0)
  {
    assert s[0..] == s && s[..0] == [];
    assert [] + Compose(u, s) == Compose(u, s);
  }

  lemma ComposingChar(u: Unicode, s: Points, buf: Points, i: nat, o: nat)
    requires Composing(u, s, buf, i, o) && i < |buf|
    ensures o <= i < |s| == |buf| && buf[i] == s[i]
  {
    assert buf[i] == buf[i..][0] == s[i..][0];
  }

  lemma ComposingHangul(u: Unicode, s: Points, buf: Points, i: nat, o: nat)
    requires Composing(u, s, buf, i, o) && i < |s| && (IsL(buf[i]) || IsSyllable(buf[i]))
    ensures var n := HangulTaken(buf[i..]);
            i + n <= |s| && Composing(u, s, buf[o := HangulResult(buf[i..])], i + n, o + 1)
  {
    hide Compose, HangulTaken, HangulResult;
    var n := HangulTaken(s[i..]);
    ComposingChar(u, s, buf, i, o);
    HangulTogether(u, s[i..]);
    SuffixOf(s, i, i + n);
    Taken(u, buf, buf[o := HangulResult(buf[i..])], s, i, o, i + n - 1, HangulResult(buf[i..]));
  }

  lemma ComposingAlone(u: Unicode, s: Points, buf: Points, i: nat, o: nat)
    requires Composing(u, s, buf, i, o) && i < |s| && buf[i] >= 0x110000
    ensures Composing(u, s, buf[o := buf[i]], i + 1, o + 1)
  {
    hide Compose;
    ComposingChar(u, s, buf, i, o);
    Alone(u, s[i..]);
    SuffixOf(s, i, i + 1);
    Taken(u, buf, buf[o := buf[i]], s, i, o, i, buf[i]);
  }

  lemma ComposingEnd(u: Unicode, s: Points, buf: Points, i: nat, o: nat)
    requires Composing(u, s, buf, i, o) && i == |s|
    ensures o <= |buf| && Compose(u, s) == buf[..o] && (o == i ==> buf[..o] == buf)
  {
    assert s[i..] == [] && Compose(u, []) == [];
  }

  lemma SuffixOf(s: Points, i: nat, j: nat)
    requires i <= j <= |s|
    ensures s[i..][j - i..] == s[j..]
  {}

  /** The first characters of the part still to be read. */
  lemma CurrentChar(buf: Points, s: Points, i: nat)
    requires i < |buf| == |s| && buf[i..] == s[i..]
    ensures buf[i] == s[i] == s[i..][0] && |s[i..]| == |s| - i
    ensures i + 1 < |s| ==> buf[i + 1] == s[i + 1] == s[i..][1]
    ensures i + 2 < |s| ==> buf[i + 2] == s[i + 2] == s[i..][2]
    ensures s[i..][1..] == s[i + 1..] && buf[i + 1..] == s[i + 1..]
    ensures i + 1 < |s| ==> s[i..][2..] == s[i + 2..] && buf[i + 2..] == s[i + 2..]
    ensures i + 2 < |s| ==> s[i..][3..] == s[i + 3..] && buf[i + 3..] == s[i + 3..]
  {
    assert buf[i] == buf[i..][0];
    if i + 1 < |s| { assert buf[i + 1] == buf[i..][1]; }
    if i + 2 < |s| { assert buf[i + 2] == buf[i..][2]; }
    assert buf[i..][1..] == s[i..][1..];
    if i + 1 < |s| { assert buf[i..][2..] == s[i..][2..]; }
    if i + 2 < |s| { assert buf[i..][3..] == s[i..][3..]; }
  }

  /** A turn of the loop that takes the characters up to `i` and writes one character. */
  lemma Taken(u: Unicode, before: Points, after: Points, s: Points, i0: nat, o: nat, i: nat, x: nat)
    requires o <= i0 <= i < |s| == |before| && after == before[o := x]
    requires before[i0..] == s[i0..]
    requires Compose(u, s) == before[..o] + Compose(u, s[i0..])
    requires Compose(u, s[i0..]) == [x] + Compose(u, s[i + 1..])
    ensures after[i + 1..] == s[i + 1..]
    ensures Compose(u, s) == after[..o + 1] + Compose(u, s[i + 1..])
  {
    hide Compose;
    assert after[i + 1..] == before[i0..][i + 1 - i0..] == s[i0..][i + 1 - i0..];
    assert after[..o + 1] == before[..o] + [x];
    Associate(before[..o], [x], Compose(u, s[i + 1..]));
  }

  lemma TakenOnto(u: Unicode, before: Points, middle: Points, after: Points, s: Points, i0: nat, o0: nat, i: nat,
      o: nat)
    requires Composing(u, s, before, i0, o0) && i0 < |s|
    requires middle == before[o0 := before[i0]] && MarksDone(u, middle, i0, o0, after, i, o)
    requires !IsL(before[i0]) && !IsSyllable(before[i0]) && before[i0] < 0x110000
    ensures Composing(u, s, after, i + 1, o + 1)
  {
    hide ComposeOnto;
    CurrentChar(before, s, i0);
    assert middle[i0 + 1..] == s[i0 + 1..];
    assert middle[i + 1..] == before[i0..][i + 1 - i0..] == s[i0..][i + 1 - i0..] == s[i + 1..];
    assert Compose(u, s[i0..]) == after[o0..o + 1] + Compose(u, s[i + 1..]);
    assert after[..o + 1] == before[..o0] + after[o0..o + 1];
    Associate(before[..o0], after[o0..o + 1], Compose(u, s[i + 1..]));
  }

  // ---------------------------------------------------------------- quick check

  method HasComposition(t: Tables, a: nat, b: nat) returns (r: bool)
    requires Valid(t)
    ensures r <==> Meaning(t).pair(a, b).Some?
  {
    hide Meaning, Valid;
    var composite;
    r, composite := FindPair(t, a, b);
  }

  method WouldComposeText(t: Tables, s: Points) returns (r: bool)
    requires Valid(t)
    ensures r <==> WouldCompose(Meaning(t), s)
  {
    ghost var u := Meaning(t);
    hide Meaning, Valid, WouldCompose, WouldComposeOnto;
    var i: nat := 0;
    Whole(s);
    while i < |s|
      invariant i <= |s|
      invariant WouldCompose(u, s) <==> WouldCompose(u, s[i..])
      decreases |s| - i
    {
      var c := s[i];
      WouldStep(u, s, i);
      if IsL(c) {
        if i + 1 < |s| && IsV(s[i + 1]) { return true; }
        i := i + 1;
      } else if IsSyllable(c) {
        if (c - SBASE) % TCOUNT == 0 && i + 1 < |s| && IsT(s[i + 1]) { return true; }
        i := i + 1;
      } else if c < 0x110000 {
        var composes;
        composes, i := WouldComposeRun(t, s, i);
        if composes { return true; }
      } else {
        i := i + 1;
      }
    }
    NothingComposes(u, s, i);
    return false;
  }

  lemma Whole(s: Points)
    ensures s[0..] == s
  {}

  lemma NothingComposes(u: Unicode, s: Points, i: nat)
    requires i == |s|
    ensures !WouldCompose(u, s[i..])
  {}

  lemma WouldStep(u: Unicode, s: Points, i: nat)
    requires i < |s|
    ensures var c := s[i];
            WouldCompose(u, s[i..]) <==>
              if IsL(c) then (i + 1 < |s| && IsV(s[i + 1])) || WouldCompose(u, s[i + 1..])
              else if IsSyllable(c) then
                ((c - SBASE) % TCOUNT == 0 && i + 1 < |s| && IsT(s[i + 1])) || WouldCompose(u, s[i + 1..])
              else if c < 0x110000 then WouldComposeOnto(u, c, -1, s[i + 1..])
              else WouldCompose(u, s[i + 1..])
  {
    assert s[i..][1..] == s[i + 1..];
    if i + 1 < |s| { assert s[i..][1] == s[i + 1]; }
  }

  lemma WouldOntoStep(u: Unicode, base: nat, p: int, s: Points, i: nat)
    requires i <= |s|
    ensures i == |s| ==> !WouldComposeOnto(u, base, p, s[i..]) && !WouldCompose(u, s[i..])
    ensures i < |s| ==>
              (WouldComposeOnto(u, base, p, s[i..]) <==>
                 if p < u.ccc(s[i]) && u.pair(base, s[i]).Some? then true
                 else if u.ccc(s[i]) == 0 then WouldCompose(u, s[i..])
                 else WouldComposeOnto(u, base, u.ccc(s[i]), s[i + 1..]))
  {
    if i < |s| {
      assert s[i..][0] == s[i] && s[i..][1..] == s[i + 1..];
    }
  }

  /** The inner loop of `would_compose`, from the character at `i0`. */
  method WouldComposeRun(t: Tables, s: Points, i0: nat) returns (r: bool, i: nat)
    requires Valid(t) && i0 < |s|
    ensures i0 < i <= |s|
    ensures r ==> WouldComposeOnto(Meaning(t), s[i0], -1, s[i0 + 1..])
    ensures !r ==> (WouldComposeOnto(Meaning(t), s[i0], -1, s[i0 + 1..]) <==> WouldCompose(Meaning(t), s[i..]))
  {
    ghost var u := Meaning(t);
    hide Meaning, Valid, WouldCompose, WouldComposeOnto;
    var previous: int := -1;
    var j := i0;
    while j + 1 < |s|
      invariant i0 <= j < |s|
      invariant WouldComposeOnto(u, s[i0], -1, s[i0 + 1..]) <==> WouldComposeOnto(u, s[i0], previous, s[j + 1..])
      decreases |s| - j
    {
      WouldOntoStep(u, s[i0], previous, s, j + 1);
      ClassIs(t, s[j + 1]);
      var ccc := CccAt(t, s[j + 1]);
      if previous < ccc {
        var has := HasComposition(t, s[i0], s[j + 1]);
        if has { return true, j + 1; }
      }
      if ccc == 0 { return false, j + 1; }
      previous := ccc;
      j := j + 1;
    }
    WouldOntoStep(u, s[i0], previous, s, j + 1);
    return false, j + 1;
  }

  method TrailingCcc(t: Tables, c: nat) returns (ccc: nat)
    requires Valid(t)
    ensures ccc == Trailing(Meaning(t), c)
  {
    var length := 0;
    if !IsSyllable(c) { length := StoredLength(t, c); }
    if length == 0 {
      ccc := CccAt(t, c);
    } else {
      var base := DecompositionEntry(t, c, 0) / 4;
      ccc := CccAt(t, t.decompositionData[base + length - 1]);
    }
  }

  method DecompositionIsNotNfc(t: Tables, previous: nat, c: nat) returns (r: bool)
    requires Valid(t)
    ensures r <==> NotComposed(Meaning(t), previous, c)
  {
    ghost var u := Meaning(t);
    hide Meaning, Valid, Compose, Full;
    if IsSyllable(c) { return false; }
    var length := StoredLength(t, c);
    if length == 0 { return false; }
    if length == 1 { return true; }
    var d := Characters(t, c);
    FullIsCanonical(u, c);
    var decomposed := new Text(d);
    ComposeText(t, decomposed);
    if !(|decomposed.chars| == 1 && decomposed.chars[0] == c) {
      return true;
    }
    r := HasComposition(t, previous, d[0]);
  }

  lemma FullIsCanonical(u: Unicode, c: nat)
    requires !IsSyllable(c) && u.canonical(c) != []
    ensures Full(u, c) == u.canonical(c)
  {}

  lemma ChecksStep(u: Unicode, previous: nat, p: nat, s: Points, i: nat)
    requires i < |s|
    ensures AllComposed(u, previous, s[i..]) <==> !NotComposed(u, previous, s[i]) && AllComposed(u, s[i], s[i + 1..])
    ensures MarksInOrder(u, p, s[i..]) <==>
            !(u.ccc(s[i]) != 0 && p > u.ccc(s[i])) && MarksInOrder(u, Trailing(u, s[i]), s[i + 1..])
  {
    hide NotComposed, Trailing;
    assert s[i..][0] == s[i] && s[i..][1..] == s[i + 1..];
  }

  lemma ChecksEnd(u: Unicode, previous: nat, p: nat, s: Points)
    ensures AllComposed(u, previous, s[|s|..]) && MarksInOrder(u, p, s[|s|..])
  {}

  lemma PassesIfFacts(t: Tables, s: Points)
    requires Valid(t)
    ensures Facts(Meaning(t)) ==>
              (s == [] || AlreadyNfc(Meaning(t), s) <==>
                 Nfc(Meaning(t), s) == s && Ordered(Meaning(t), Normalization.Decomposed(Meaning(t), s)))
  {
    if Facts(Meaning(t)) {
      NothingIsNfc(Meaning(t));
      QuickCheckExact(Meaning(t), s);
    }
  }

  /** The quick check; without tables only the empty string passes. With the facts about the tables,
      it passes exactly the normalized strings whose marks are in order. */
  method IsAlreadyNfc(t: Tables, ready: bool, s: Points) returns (r: bool)
    requires ready ==> Valid(t)
    ensures r <==> s == [] || (ready && AlreadyNfc(Meaning(t), s))
    ensures ready && Facts(Meaning(t)) ==>
              (r <==> Nfc(Meaning(t), s) == s && Ordered(Meaning(t), Normalization.Decomposed(Meaning(t), s)))
  {
    if ready { PassesIfFacts(t, s); }
    if |s| == 0 { return true; }
    if !ready { return false; }
    ghost var u := Meaning(t);
    hide Meaning, Valid, AllComposed, MarksInOrder, NotComposed, Trailing, WouldCompose, Facts, Nfc;
    Whole(s);
    var previous := 0x110000;
    for i := 0 to |s|
      invariant AllComposed(u, 0x110000, s) <==> AllComposed(u, previous, s[i..])
    {
      ChecksStep(u, previous, 0, s, i);
      var not := DecompositionIsNotNfc(t, previous, s[i]);
      if not { return false; }
      previous := s[i];
    }
    ChecksEnd(u, previous, 0, s);
    var prevCcc := 0;
    for i := 0 to |s|
      invariant MarksInOrder(u, 0, s) <==> MarksInOrder(u, prevCcc, s[i..])
    {
      ChecksStep(u, 0, prevCcc, s, i);
      ClassIs(t, s[i]);
      var ccc := CccAt(t, s[i]);
      if ccc != 0 && prevCcc > ccc { return false; }
      prevCcc := TrailingCcc(t, s[i]);
    }
    ChecksEnd(u, 0, prevCcc, s);
    var would := WouldComposeText(t, s);
    return !would;
  }

  // ---------------------------------------------------------------- normalization

  /** Normalization Form C in place; without tables it reports failure and changes nothing. The
      quick check makes no difference to the result. */
  method Normalize(t: Tables, ready: bool, text: Text) returns (ok: bool)
    requires ready ==> Valid(t) && Facts(Meaning(t))
    modifies text
    ensures ok <==> ready
    ensures !ok ==> text.chars == old(text.chars)
    ensures ok ==> text.chars == Nfc(Meaning(t), old(text.chars))
  {
    if !ready { return false; }
    ghost var u := Meaning(t);
    hide Meaning, Facts, Compose, AlreadyNfc, Sorted, Decomposed;
    var already := IsAlreadyNfc(t, ready, text.chars);
    if already {
      NothingIsNfc(u);
      QuickCheckSound(u, text.chars);
      return true;
    }
    DecomposeNfc(t, text);
    ComposeText(t, text);
    return true;
  }

  lemma NothingIsNfc(u: Unicode)
    ensures AlreadyNfc(u, [])
  {}
}
