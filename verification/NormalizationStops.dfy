/** A character that composes with nothing separates what normalization does on its two sides. */
module NormalizationStops {
  import opened Basics
  import opened UnicodeData
  import opened CanonicalOrder
  import opened Normalization

  /** A starter that does not decompose and composes with nothing before it. */
  ghost predicate Opens(u: Unicode, c: nat) {
    && c < 0x110000 && !IsHangul(c) && u.ccc(c) == 0 && u.canonical(c) == []
    && forall a: nat :: u.pair(a, c).None?
  }

  /** It composes with nothing behind it either. */
  ghost predicate IsStop(u: Unicode, c: nat) {
    Opens(u, c) && NeverBase(u, c)
  }

  ghost predicate NeverBase(u: Unicode, c: nat) {
    forall b: nat :: u.pair(c, b).None?
  }

  // ---------------------------------------------------------------- composition

  /** What follows such a character does not matter for what comes before it. */
  lemma {:induction false} ComposeBefore(u: Unicode, s: Points, t: Points)
    requires t != [] && Opens(u, t[0])
    ensures Compose(u, s + t) == Compose(u, s) + Compose(u, t)
    decreases |s|, 1
  {
    hide ComposeOnto, Opens;
    NotJamo(u, t[0]);
    if s == [] {
      assert s + t == t;
    } else {
      var c := s[0];
      var n := if IsL(c) && |s| > 1 && IsV(s[1]) then (if |s| > 2 && IsT(s[2]) then 3 else 2)
               else if IsLV(c) && |s| > 1 && IsT(s[1]) then 2 else 1;
      assert (s + t)[0] == c && (s + t)[n..] == s[n..] + t;
      assert (s + t)[1..] == s[1..] + t;
      if !IsL(c) && !IsSyllable(c) && c < 0x110000 {
        OntoBefore(u, c, -1, [], s[1..], t);
      } else {
        ComposeBefore(u, s[n..], t);
        Associate([Compose(u, s)[0]], Compose(u, s[n..]), Compose(u, t));
      }
    }
  }

  lemma NotJamo(u: Unicode, c: nat)
    requires Opens(u, c)
    ensures !IsV(c) && !IsT(c)
  {}

  lemma {:induction false} OntoBefore(u: Unicode, base: nat, p: int, kept: Points, s: Points, t: Points)
    requires t != [] && Opens(u, t[0])
    ensures ComposeOnto(u, base, p, kept, s + t) == ComposeOnto(u, base, p, kept, s) + Compose(u, t)
    decreases |s|, 2
  {
    hide Compose;
    if s == [] {
      assert s + t == t;
    } else {
      var c := s[0];
      assert (s + t)[0] == c && (s + t)[1..] == s[1..] + t;
      if p < u.ccc(c) && u.pair(base, c).Some? {
        OntoBefore(u, u.pair(base, c).value, p, kept, s[1..], t);
      } else if u.ccc(c) == 0 {
        hide Opens;
        ComposeBefore(u, s, t);
        Associate([base] + kept, Compose(u, s), Compose(u, t));
      } else {
        OntoBefore(u, base, u.ccc(c), kept + [c], s[1..], t);
      }
    }
  }

  /** Nothing composes onto a character that is no first part of a pair. */
  lemma {:induction false} OntoNever(u: Unicode, base: nat, p: int, kept: Points, s: Points)
    requires Facts(u) && NeverBase(u, base)
    ensures ComposeOnto(u, base, p, kept, s) == [base] + kept + Compose(u, s)
    decreases |s|
  {
    hide ComposeLV, ComposeLVT;
    if s == [] {
      assert [base] + kept + [] == [base] + kept;
    } else {
      var c, rest := s[0], s[1..];
      if u.ccc(c) != 0 {
        MarkNeverBase(u, c);
        OntoNever(u, base, u.ccc(c), kept + [c], rest);
        OntoNever(u, c, -1, [], rest);
        assert Compose(u, s) == [c] + [] + Compose(u, rest);
        assert [base] + (kept + [c]) + Compose(u, rest) == [base] + kept + ([c] + [] + Compose(u, rest));
      }
    }
  }

  lemma MarkNeverBase(u: Unicode, c: nat)
    requires Facts(u) && u.ccc(c) != 0
    ensures NeverBase(u, c) && c < 0x110000 && !IsHangul(c)
  {}

  lemma ComposeStop(u: Unicode, s: Points, c: nat, t: Points)
    requires Facts(u) && IsStop(u, c)
    ensures Compose(u, s + ([c] + t)) == Compose(u, s) + ([c] + Compose(u, t))
  {
    hide ComposeOnto, Facts;
    ComposeBefore(u, s, [c] + t);
    OntoNever(u, c, -1, [], t);
    assert ([c] + t)[1..] == t;
    assert [c] + [] + Compose(u, t) == [c] + Compose(u, t);
  }

  // ---------------------------------------------------------------- ordering

  lemma OrderedStop(u: Unicode, s: Points, c: nat, t: Points)
    requires Ordered(u, s) && Ordered(u, t) && u.ccc(c) == 0
    ensures Ordered(u, s + ([c] + t))
  {
    var r := s + ([c] + t);
    forall j | 0 < j < |r| && u.ccc(r[j]) != 0 ensures u.ccc(r[j - 1]) <= u.ccc(r[j]) {
      if j > |s| + 1 {
        assert r[j] == t[j - |s| - 1] && r[j - 1] == t[j - |s| - 2];
      }
    }
  }

  lemma SortedStop(u: Unicode, s: Points, c: nat, t: Points)
    requires u.ccc(c) == 0
    ensures Sorted(u, s + ([c] + t)) == Sorted(u, s) + ([c] + Sorted(u, t))
  {
    hide View, Ordered, Sorted;
    var x, y := Sorted(u, s), Sorted(u, t);
    SortedCorrect(u, s);
    SortedCorrect(u, t);
    OrderedStop(u, x, c, y);
    forall k: nat ensures View(u, k, x + ([c] + y)) == View(u, k, s + ([c] + t)) {
      ViewJoin(u, k, x, [c] + y);
      ViewJoin(u, k, s, [c] + t);
      ViewJoin(u, k, [c], y);
      ViewJoin(u, k, [c], t);
    }
    SortedUnique(u, s + ([c] + t), x + ([c] + y));
  }

  // ---------------------------------------------------------------- normalization

  lemma StopIsFull(u: Unicode, c: nat)
    requires Opens(u, c)
    ensures Full(u, c) == [c] && u.ccc(c) == 0
  {}

  /** Normalization works on both sides of a stop independently. */
  lemma NfcStop(u: Unicode, s: Points, c: nat, t: Points)
    requires Facts(u) && IsStop(u, c)
    ensures Nfc(u, s + ([c] + t)) == Nfc(u, s) + ([c] + Nfc(u, t))
  {
    hide Facts, Compose, Sorted, Decomposed, Full;
    StopIsFull(u, c);
    DecomposedOne(u, c);
    DecomposedJoin(u, s, [c] + t);
    DecomposedJoin(u, [c], t);
    SortedStop(u, Decomposed(u, s), c, Decomposed(u, t));
    ComposeStop(u, Nfd(u, s), c, Nfd(u, t));
  }

  lemma {:induction false} ComposeOpens(u: Unicode, s: Points)
    requires forall i :: 0 <= i < |s| ==> Opens(u, s[i])
    ensures Compose(u, s) == s
    decreases |s|
  {
    hide ComposeOnto;
    if s != [] {
      var c, rest := s[0], s[1..];
      assert s == [c] + rest && [c][1..] == [];
      OntoNothing(u, c);
      if rest == [] {
        assert s == [c];
      } else {
        assert Opens(u, rest[0]) by { assert rest[0] == s[1]; }
        ComposeBefore(u, [c], rest);
        assert forall i :: 0 <= i < |rest| ==> rest[i] == s[i + 1];
        ComposeOpens(u, rest);
      }
    }
  }

  lemma OntoNothing(u: Unicode, c: nat)
    ensures ComposeOnto(u, c, -1, [], []) == [c]
  {
    assert [c] + [] == [c];
  }

  /** A string of such characters is normalized. */
  lemma NfcOpens(u: Unicode, s: Points)
    requires forall i :: 0 <= i < |s| ==> Opens(u, s[i])
    ensures Nfc(u, s) == s
  {
    hide Compose, Sorted, Decomposed, View;
    forall i | 0 <= i < |s| ensures Full(u, s[i]) == [s[i]] && u.ccc(s[i]) == 0 { StopIsFull(u, s[i]); }
    DecomposedUnchanged(u, s);
    SortedUnique(u, s, s);
    ComposeOpens(u, s);
  }
}
