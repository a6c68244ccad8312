/** The two-pass `map` of src/mapping.cpp. */
module Mapping {
  import opened Basics
  import opened IdnaStrings
  import opened IdnaTable

  /** The mapping step of UTS #46 on the first `n` code points. */
  function MapAll(status: nat -> Status, s: Points, n: nat): (r: Option<Points>)
    requires n <= |s|
  {
    if n == 0 then Some([])
    else
      match MapAll(status, s, n - 1)
      case None => None
      case Some(out) =>
        match status(s[n - 1])
        case Valid => Some(out + [s[n - 1]])
        case Disallowed => None
        case Mapped(cps) => Some(out + cps)
  }

  lemma {:induction false} FailsForGood(status: nat -> Status, s: Points, m: nat, n: nat)
    requires m <= n <= |s| && MapAll(status, s, m).None?
    ensures MapAll(status, s, n).None?
  {
    if m < n { FailsForGood(status, s, m, n - 1); }
  }

  lemma {:induction false} GrowsOnly(status: nat -> Status, s: Points, m: nat, n: nat)
    requires m <= n <= |s| && MapAll(status, s, n).Some?
    ensures MapAll(status, s, m).Some? && |MapAll(status, s, m).value| <= |MapAll(status, s, n).value|
  {
    if m < n { GrowsOnly(status, s, m, n - 1); }
  }

  /** `out` is cut at the places `at` into one piece for every code point of `s`: itself if it is
      valid, its mapping if it has one. */
  ghost predicate Pieces(status: nat -> Status, s: Points, out: Points, at: seq<nat>) {
    && |at| == |s| + 1 && at[0] == 0 && at[|s|] == |out|
    && forall i :: 0 <= i < |s| ==> PieceAt(status, s, out, at, i)
  }

  ghost predicate PieceAt(status: nat -> Status, s: Points, out: Points, at: seq<nat>, i: nat)
    requires i < |s| && |at| == |s| + 1
  {
    && at[i] <= at[i + 1] <= |out|
    && match status(s[i])
       case Valid => out[at[i]..at[i + 1]] == [s[i]]
       case Disallowed => false
       case Mapped(cps) => out[at[i]..at[i + 1]] == cps
  }

  lemma {:induction false} PiecesOfPrefix(status: nat -> Status, s: Points, n: nat) returns (at: seq<nat>)
    requires n <= |s| && MapAll(status, s, n).Some?
    ensures Pieces(status, s[..n], MapAll(status, s, n).value, at)
  {
    if n == 0 {
      at := [0];
    } else {
      var before := PiecesOfPrefix(status, s, n - 1);
      var out, more := MapAll(status, s, n - 1).value, MapAll(status, s, n).value;
      at := before + [|more|];
      forall i | 0 <= i < n ensures PieceAt(status, s[..n], more, at, i) {
        if i < n - 1 {
          assert PieceAt(status, s[..n - 1], out, before, i);
          assert more[at[i]..at[i + 1]] == out[at[i]..at[i + 1]];
        } else {
          assert more[|out|..] == more[at[i]..at[i + 1]];
        }
      }
    }
  }

  lemma {:induction false} FailsIffDisallowed(status: nat -> Status, s: Points, n: nat)
    requires n <= |s|
    ensures MapAll(status, s, n).None? <==> exists i :: 0 <= i < n && status(s[i]).Disallowed?
  {
    if n > 0 {
      FailsIffDisallowed(status, s, n - 1);
      if status(s[n - 1]).Disallowed? { assert status(s[n - 1]).Disallowed?; }
    }
  }

  /** Mapping fails exactly on a disallowed code point; otherwise its output is the pieces in order. */
  lemma MapIsPieces(status: nat -> Status, s: Points) returns (at: seq<nat>)
    ensures MapAll(status, s, |s|).None? <==> exists i :: 0 <= i < |s| && status(s[i]).Disallowed?
    ensures MapAll(status, s, |s|).Some? ==> Pieces(status, s, MapAll(status, s, |s|).value, at)
  {
    FailsIffDisallowed(status, s, |s|);
    at := [];
    if MapAll(status, s, |s|).Some? {
      at := PiecesOfPrefix(status, s, |s|);
      assert s[..|s|] == s;
    }
  }

  /** `idna_lookup` */
  method IdnaLookup(t: Tables, ghost status: nat -> Status, cp: nat) returns (v: nat)
    requires Represents(t, status)
    ensures Stands(t.utf8, v, status(cp))
  {
    assert Answers(t, cp, status(cp));
    v := Lookup(t, cp);
  }

  /** Pass 1: the exact output length, or failure. */
  method Measure(t: Tables, ghost status: nat -> Status, s: Points) returns (ok: bool, size: nat)
    requires Represents(t, status)
    ensures ok <==> MapAll(status, s, |s|).Some?
    ensures ok ==> size == |MapAll(status, s, |s|).value|
  {
    hide Represents, StringAt;
    size := 0;
    for i := 0 to |s|
      invariant MapAll(status, s, i).Some? && size == |MapAll(status, s, i).value|
    {
      ghost var st := status(s[i]);
      var v := IdnaLookup(t, status, s[i]);
      StandsFor(t.utf8, v, st);
      if v == DISALLOWED {
        FailsForGood(status, s, i + 1, |s|);
        return false, 0;
      }
      if v == VALID {
        size := size + 1;
        continue;
      }
      assert v < |t.utf8|;
      var n := Utf8CountCodepoints(t.utf8, v, st.cps);
      size := size + n;
    }
    ok := true;
  }

  lemma StandsFor(utf8: Octets, v: nat, s: Status)
    requires Stands(utf8, v, s)
    ensures v == VALID <==> s == Valid
    ensures v == DISALLOWED <==> s == Disallowed
  {}

  /** Copies one mapping string into the output. */
  method WriteMapping(utf8: Octets, start: nat, ghost cps: Points, out: array<nat>, w0: nat) returns (w: nat)
    requires StringAt(utf8, start, cps) && w0 + |cps| <= out.Length
    modifies out
    ensures w == w0 + |cps| && out[..w] == old(out[..w0]) + cps
  {
    hide EncodeUtf8, PointAt, StringAt;
    w := w0;
    var p: nat := start;
    ghost var n: nat := 0;
    StringStep(utf8, p, cps);
    assert cps[0..] == cps;
    while utf8[p] != 0
      invariant n <= |cps| && p < |utf8| && StringAt(utf8, p, cps[n..]) && (utf8[p] == 0 <==> n == |cps|)
      invariant w == w0 + n && out[..w] == old(out[..w0]) + cps[..n]
      decreases |cps| - n
    {
      StringStep(utf8, p, cps[n..]);
      assert cps[n..][1..] == cps[n + 1..];
      var cp, next := Utf8Next(utf8, p);
      out[w] := cp;
      assert cps[..n + 1] == cps[..n] + [cps[n]];
      w, p := w + 1, next;
      n := n + 1;
      StringStep(utf8, p, cps[n..]);
    }
  }

  /** Pass 2: writes every code point of the measured output, and no more. */
  method Write(t: Tables, ghost status: nat -> Status, s: Points, out: array<nat>)
    requires Represents(t, status)
    requires MapAll(status, s, |s|).Some? && out.Length == |MapAll(status, s, |s|).value|
    modifies out
    ensures out[..] == MapAll(status, s, |s|).value
  {
    hide Represents, StringAt;
    var w: nat := 0;
    assert out[..0] == [];
    for i := 0 to |s|
      invariant w <= out.Length && MapAll(status, s, i).Some? && out[..w] == MapAll(status, s, i).value
    {
      ghost var st := status(s[i]);
      var v := IdnaLookup(t, status, s[i]);
      StandsFor(t.utf8, v, st);
      GrowsOnly(status, s, i + 1, |s|);
      if v == VALID {
        out[w] := s[i];
        w := w + 1;
        continue;
      }
      w := WriteMapping(t.utf8, v, st.cps, out, w);
    }
    assert out[..w] == out[..];
  }

  /** `map`; `ready` is what `ensure_tables` returned. On failure the output stays cleared. */
  method Map(t: Tables, ghost status: nat -> Status, ready: bool, s: Points) returns (ok: bool, out: Points)
    requires ready ==> Represents(t, status)
    ensures ok <==> ready && MapAll(status, s, |s|).Some?
    ensures out == if ok then MapAll(status, s, |s|).value else []
  {
    hide Represents, MapAll;
    out := [];
    if !ready { return false, out; }
    var size;
    ok, size := Measure(t, status, s);
    if !ok { return; }
    var buffer := new nat[size];
    Write(t, status, s, buffer);
    out := buffer[..];
  }
}
