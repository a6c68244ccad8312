/** The quick check of `is_already_nfc` as a predicate: a string that passes is what the slow path
    makes of it, and which normalized strings pass. */
module NormalizationFastPath {
  import opened Basics
  import opened UnicodeData
  import opened CanonicalOrder
  import opened Normalization

  // ---------------------------------------------------------------- the three checks

  predicate HasDecomposition(u: Unicode, c: nat) {
    !IsSyllable(c) && u.canonical(c) != []
  }

  /** Class of the last character of the decomposition. */
  function Trailing(u: Unicode, c: nat): nat {
    if HasDecomposition(u, c) then u.ccc(u.canonical(c)[|u.canonical(c)| - 1]) else u.ccc(c)
  }

  /** `c` is not in composed form: its decomposition composes to something else, or its first
      character composes with the character before `c`. */
  predicate NotComposed(u: Unicode, previous: nat, c: nat) {
    HasDecomposition(u, c) &&
    (|u.canonical(c)| == 1 || Compose(u, u.canonical(c)) != [c] || u.pair(previous, u.canonical(c)[0]).Some?)
  }

  predicate AllComposed(u: Unicode, previous: nat, s: Points)
    decreases |s|
  {
    s == [] || (!NotComposed(u, previous, s[0]) && AllComposed(u, s[0], s[1..]))
  }

  /** Marks are in order, counting the marks hidden in composed characters. */
  predicate MarksInOrder(u: Unicode, p: nat, s: Points)
    decreases |s|
  {
    s == [] || (!(u.ccc(s[0]) != 0 && p > u.ccc(s[0])) && MarksInOrder(u, Trailing(u, s[0]), s[1..]))
  }

  /** A composition step would change the string. */
  predicate WouldCompose(u: Unicode, s: Points)
    decreases |s|, 1
  {
    if s == [] then false
    else if IsL(s[0]) then (|s| > 1 && IsV(s[1])) || WouldCompose(u, s[1..])
    else if IsSyllable(s[0]) then (IsLV(s[0]) && |s| > 1 && IsT(s[1])) || WouldCompose(u, s[1..])
    else if s[0] < 0x110000 then WouldComposeOnto(u, s[0], -1, s[1..])
    else WouldCompose(u, s[1..])
  }

  predicate WouldComposeOnto(u: Unicode, base: nat, p: int, s: Points)
    decreases |s|, 2
  {
    if s == [] then false
    else
      var ccc := u.ccc(s[0]);
      if p < ccc && u.pair(base, s[0]).Some? then true
      else if ccc == 0 then WouldCompose(u, s)
      else WouldComposeOnto(u, base, ccc, s[1..])
  }

  /** The quick check; 0x110000 stands for "no previous character". */
  predicate AlreadyNfc(u: Unicode, s: Points) {
    s == [] || (AllComposed(u, 0x110000, s) && MarksInOrder(u, 0, s) && !WouldCompose(u, s))
  }

  // ---------------------------------------------------------------- composed characters

  lemma {:induction false} ComposeNonEmpty(u: Unicode, s: Points)
    requires s != []
    ensures Compose(u, s) != []
    decreases |s|, 1
  {
    if !IsL(s[0]) && !IsSyllable(s[0]) && s[0] < 0x110000 {
      OntoAtLeast(u, s[0], -1, [], s[1..]);
    }
  }

  lemma {:induction false} OntoAtLeast(u: Unicode, base: nat, p: int, kept: Points, s: Points)
    ensures |ComposeOnto(u, base, p, kept, s)| >= 1 + |kept|
    decreases |s|, 2
  {
    hide Compose;
    if s != [] {
      if p < u.ccc(s[0]) && u.pair(base, s[0]).Some? {
        OntoAtLeast(u, u.pair(base, s[0]).value, p, kept, s[1..]);
      } else if u.ccc(s[0]) != 0 {
        OntoAtLeast(u, base, u.ccc(s[0]), kept + [s[0]], s[1..]);
      }
    }
  }

  /** If all of `r` composes onto `base` to the single character `c`, then in any longer string
      the pass continues with `c` open. */
  lemma {:induction false} Collapse(u: Unicode, base: nat, r: Points, c: nat, rest: Points)
    requires ComposeOnto(u, base, -1, [], r) == [c]
    ensures ComposeOnto(u, base, -1, [], r + rest) == ComposeOnto(u, c, -1, [], rest)
    ensures r != [] ==> u.pair(base, r[0]).Some?
    decreases |r|
  {
    hide Compose;
    if r == [] {
      assert [base] + [] == [base];
      assert r + rest == rest;
    } else {
      assert (r + rest)[0] == r[0] && (r + rest)[1..] == r[1..] + rest;
      if u.pair(base, r[0]).Some? {
        Collapse(u, u.pair(base, r[0]).value, r[1..], c, rest);
      } else if u.ccc(r[0]) == 0 {
        ComposeNonEmpty(u, r);
      } else {
        OntoAtLeast(u, base, u.ccc(r[0]), [] + [r[0]], r[1..]);
      }
    }
  }

  /** A decomposable character that passes the check starts with a starter that composes with
      the next character; the pass rebuilds it from its decomposition. */
  lemma ComposedCharacter(u: Unicode, previous: nat, c: nat, rest: Points)
    requires Facts(u) && HasDecomposition(u, c) && !NotComposed(u, previous, c)
    ensures var d := u.canonical(c);
            && u.ccc(d[0]) == 0 && u.ccc(c) == 0 && !IsHangul(d[0]) && !IsHangul(c) && c < 0x110000 && d[0] < 0x110000
            && Compose(u, d + rest) == ComposeOnto(u, c, -1, [], rest)
  {
    hide ComposeOnto;
    var d := u.canonical(c);
    FirstNotHangul(u, c);
    assert Compose(u, d) == ComposeOnto(u, d[0], -1, [], d[1..]);
    Collapse(u, d[0], d[1..], c, rest);
    assert (d + rest)[1..] == d[1..] + rest;
    ResultIsComposite(u, d[0], d[1..], c);
  }

  lemma FirstNotHangul(u: Unicode, c: nat)
    requires Facts(u) && HasDecomposition(u, c) && |u.canonical(c)| > 1 && Compose(u, u.canonical(c)) == [c]
    ensures var e := u.canonical(c)[0]; !IsL(e) && !IsSyllable(e) && e < 0x110000
  {
    var d := u.canonical(c);
    assert d[0] in d;
    if IsSyllable(d[0]) { SyllablesDecompose(u, d[0]); }
    NotOneCharacter(u, d);
  }

  /** No two characters compose to one non-Hangul character if the first is a jamo or no code
      point. */
  lemma NotOneCharacter(u: Unicode, d: Points)
    requires |d| >= 2
    ensures IsL(d[0]) || d[0] >= 0x110000 ==>
              |Compose(u, d)| >= 2 || (|Compose(u, d)| == 1 && IsSyllable(Compose(u, d)[0]))
  {
    ComposeNonEmpty(u, d[1..]);
  }

  /** What at least one composition step ends in is a primary composite. */
  lemma {:induction false} ResultIsComposite(u: Unicode, base: nat, r: Points, c: nat)
    requires Facts(u) && r != [] && ComposeOnto(u, base, -1, [], r) == [c]
    ensures u.ccc(base) == 0 && !IsHangul(base) && base < 0x110000
    ensures u.ccc(c) == 0 && !IsHangul(c) && c < 0x110000
    decreases |r|
  {
    hide Compose;
    Collapse(u, base, r, c, []);
    var b := u.pair(base, r[0]).value;
    if r[1..] == [] {
      assert [b] + [] == [b];
    } else {
      ResultIsComposite(u, b, r[1..], c);
    }
  }

  // ---------------------------------------------------------------- the decomposition is ordered

  lemma {:induction false} OrderedAfterJoin(u: Unicode, p: nat, s: Points, t: Points)
    requires s != [] && OrderedAfter(u, p, s) && OrderedAfter(u, u.ccc(s[|s| - 1]), t)
    ensures OrderedAfter(u, p, s + t)
    decreases |s|
  {
    assert (s + t)[0] == s[0] && (s + t)[1..] == s[1..] + t;
    if |s| == 1 {
      assert s[1..] + t == t;
    } else {
      OrderedAfterJoin(u, u.ccc(s[0]), s[1..], t);
    }
  }

  /** Checks 1 and 2 together: the decomposition needs no reordering. */
  lemma {:induction false} DecompositionOrdered(u: Unicode, previous: nat, p: nat, s: Points)
    requires Facts(u) && AllComposed(u, previous, s) && MarksInOrder(u, p, s)
    ensures OrderedAfter(u, p, Decomposed(u, s))
    decreases |s|
  {
    if s != [] {
      DecompositionOrdered(u, s[0], Trailing(u, s[0]), s[1..]);
      FullOrdered(u, previous, p, s[0]);
      OrderedAfterJoin(u, p, Full(u, s[0]), Decomposed(u, s[1..]));
    }
  }

  lemma {:induction false} OrderedAfterRest(u: Unicode, p: nat, s: Points, t: Points)
    requires s != [] && OrderedAfter(u, p, s + t)
    ensures OrderedAfter(u, u.ccc(s[|s| - 1]), t)
    decreases |s|
  {
    assert (s + t)[0] == s[0] && (s + t)[1..] == s[1..] + t;
    if |s| == 1 {
      assert s[1..] + t == t;
    } else {
      OrderedAfterRest(u, u.ccc(s[0]), s[1..], t);
    }
  }

  /** For text in composed form check 2 says that the decomposition needs no reordering. */
  lemma {:induction false} MarksInOrderMeans(u: Unicode, previous: nat, p: nat, s: Points)
    requires Facts(u) && AllComposed(u, previous, s)
    ensures MarksInOrder(u, p, s) <==> OrderedAfter(u, p, Decomposed(u, s))
    decreases |s|
  {
    if MarksInOrder(u, p, s) {
      DecompositionOrdered(u, previous, p, s);
    } else if s != [] && OrderedAfter(u, p, Decomposed(u, s)) {
      FirstInOrder(u, previous, p, s[0], Decomposed(u, s[1..]));
      FullOrdered(u, previous, p, s[0]);
      OrderedAfterRest(u, p, Full(u, s[0]), Decomposed(u, s[1..]));
      MarksInOrderMeans(u, s[0], Trailing(u, s[0]), s[1..]);
    }
  }

  lemma FirstInOrder(u: Unicode, previous: nat, p: nat, c: nat, rest: Points)
    requires Facts(u) && !NotComposed(u, previous, c) && OrderedAfter(u, p, Full(u, c) + rest)
    ensures u.ccc(c) == 0 || p <= u.ccc(c)
  {
    if HasDecomposition(u, c) {
      ComposedCharacter(u, previous, c, []);
    } else if !IsSyllable(c) {
      assert (Full(u, c) + rest)[0] == c;
    }
  }

  lemma FullOrdered(u: Unicode, previous: nat, p: nat, c: nat)
    requires Facts(u) && !NotComposed(u, previous, c) && !(u.ccc(c) != 0 && p > u.ccc(c))
    ensures OrderedAfter(u, p, Full(u, c))
    ensures u.ccc(Full(u, c)[|Full(u, c)| - 1]) == Trailing(u, c)
  {
    hide Compose;
    if HasDecomposition(u, c) {
      ComposedCharacter(u, previous, c, []);
      assert OrderedAfter(u, 0, u.canonical(c));
    } else if IsSyllable(c) {
      StartersOrdered(u, p, Jamo(c));
    }
  }

  lemma {:induction false} StartersOrdered(u: Unicode, p: nat, s: Points)
    requires forall j :: 0 <= j < |s| ==> u.ccc(s[j]) == 0
    ensures OrderedAfter(u, p, s)
    decreases |s|
  {
    if s != [] { StartersOrdered(u, 0, s[1..]); }
  }

  // ---------------------------------------------------------------- the pass returns the string

  /** The first character of a decomposition is a vowel or trailing jamo only if the string starts
      with it, and then it does. */
  lemma FirstOfDecomposed(u: Unicode, previous: nat, s: Points)
    requires Facts(u) && s != [] && AllComposed(u, previous, s)
    ensures var d := Decomposed(u, s);
            && d != []
            && (IsV(d[0]) || IsT(d[0]) || IsV(s[0]) || IsT(s[0]) ==> s[0] == d[0])
  {
    var c := s[0];
    assert Decomposed(u, s)[0] == Full(u, c)[0];
    if HasDecomposition(u, c) {
      ComposedCharacter(u, previous, c, []);
    }
  }

  /** Composition lengthens the decomposition of the open character, so it never gives it back. */
  lemma {:induction false} OntoGrows(u: Unicode, base: nat, p: int, kept: Points, s: Points)
    requires Facts(u)
    ensures var r := ComposeOnto(u, base, p, kept, s); r != [] && |Full(u, r[0])| >= |Full(u, base)|
    decreases |s|
  {
    hide Compose, Full;
    if s != [] {
      if p < u.ccc(s[0]) && u.pair(base, s[0]).Some? {
        OntoGrows(u, u.pair(base, s[0]).value, p, kept, s[1..]);
      } else if u.ccc(s[0]) != 0 {
        OntoGrows(u, base, u.ccc(s[0]), kept + [s[0]], s[1..]);
      }
    }
  }

  lemma SamePrefix(x: Points, y: Points, z: Points)
    ensures x + y == x + z <==> y == z
  {
    assert (x + y)[|x|..] == y && (x + z)[|x|..] == z;
  }

  /** On the decomposition of a string in composed form the pass rebuilds the string exactly if no
      composition step would apply to the string itself. */
  lemma {:induction false} Rebuild(u: Unicode, previous: nat, s: Points)
    requires Facts(u) && AllComposed(u, previous, s)
    ensures Compose(u, Decomposed(u, s)) == s <==> !WouldCompose(u, s)
    decreases |s|, 1
  {
    hide ComposeOnto, WouldComposeOnto, NotComposed;
    if s != [] {
      var c, rest := s[0], s[1..];
      var d := Decomposed(u, rest);
      assert s == [c] + rest;
      if rest != [] { FirstOfDecomposed(u, c, rest); }
      if IsSyllable(c) {
        Rebuild(u, c, rest);
        RebuildSyllable(u, c, d);
        SamePrefix([c], Compose(u, d), rest);
      } else if IsL(c) {
        Rebuild(u, c, rest);
        assert Full(u, c) == [c];
        assert ([c] + d)[1..] == d;
        if d != [] { assert ([c] + d)[1] == d[0]; }
        SamePrefix([c], Compose(u, d), rest);
      } else if c < 0x110000 {
        RebuildOnto(u, c, -1, c, [], rest);
        if HasDecomposition(u, c) {
          ComposedCharacter(u, previous, c, d);
        } else {
          assert ([c] + d)[1..] == d;
        }
        assert [c] + [] + rest == s;
      } else {
        Rebuild(u, c, rest);
        assert ([c] + d)[1..] == d;
        SamePrefix([c], Compose(u, d), rest);
      }
    }
  }

  lemma RebuildSyllable(u: Unicode, c: nat, d: Points)
    requires IsSyllable(c)
    ensures if IsLV(c) && d != [] && IsT(d[0]) then Compose(u, Jamo(c) + d)[..1] != [c]
            else Compose(u, Jamo(c) + d) == [c] + Compose(u, d)
  {
    HangulRoundTrip(c);
    var s := Jamo(c) + d;
    assert |Jamo(c)| == if IsLV(c) then 2 else 3;
    assert s[|Jamo(c)|..] == d;
    if IsLV(c) && d != [] { assert s[2] == d[0]; }
  }

  /** The same with an open character `c` and the marks `kept` behind it. */
  lemma {:induction false} RebuildOnto(u: Unicode, c: nat, p: int, previous: nat, kept: Points, s: Points)
    requires Facts(u) && AllComposed(u, previous, s)
    requires p >= -1 && (p == -1 ==> previous == c)
    ensures ComposeOnto(u, c, p, kept, Decomposed(u, s)) == [c] + kept + s <==> !WouldComposeOnto(u, c, p, s)
    decreases |s|, 2
  {
    if s == [] {
      assert [c] + kept + [] == [c] + kept;
    } else {
      var e, rest := s[0], s[1..];
      var d := Decomposed(u, rest);
      assert s == [e] + rest;
      if p < u.ccc(e) && u.pair(c, e).Some? {
        assert ([e] + d)[1..] == d;
        OntoGrows(u, u.pair(c, e).value, p, kept, d);
      } else if HasDecomposition(u, e) {
        ComposedCharacter(u, previous, e, d);
        Rebuild(u, previous, s);
        SamePrefix([c] + kept, Compose(u, Decomposed(u, s)), s);
      } else if IsSyllable(e) {
        assert IsHangul(Full(u, e)[0]);
        Rebuild(u, previous, s);
        SamePrefix([c] + kept, Compose(u, Decomposed(u, s)), s);
      } else if u.ccc(e) == 0 {
        Rebuild(u, previous, s);
        SamePrefix([c] + kept, Compose(u, Decomposed(u, s)), s);
      } else {
        assert ([e] + d)[1..] == d;
        RebuildOnto(u, c, u.ccc(e), e, kept + [e], rest);
        assert [c] + (kept + [e]) + rest == [c] + kept + s;
      }
    }
  }

  // ---------------------------------------------------------------- the pass writes composed forms

  /** `base` is what the pass makes of `a` and all of `r`. */
  predicate BuiltFrom(u: Unicode, base: nat, a: nat, r: Points) {
    && !IsL(a) && !IsSyllable(a) && a < 0x110000
    && Full(u, base) == [a] + r && ComposeOnto(u, a, -1, [], r) == [base]
  }

  lemma BuiltAlone(u: Unicode, a: nat)
    requires !IsL(a) && !IsSyllable(a) && a < 0x110000 && Full(u, a) == [a]
    ensures BuiltFrom(u, a, a, [])
  {
    assert [a] + [] == [a];
  }

  lemma BuiltStep(u: Unicode, base: nat, a: nat, r: Points, c: nat)
    requires Facts(u) && BuiltFrom(u, base, a, r) && u.pair(base, c).Some?
    ensures BuiltFrom(u, u.pair(base, c).value, a, r + [c])
  {
    hide Compose, Full;
    var b := u.pair(base, c).value;
    Collapse(u, a, r, base, [c]);
    assert [c][1..] == [] && [b] + [] == [b];
    assert ComposeOnto(u, base, -1, [], [c]) == ComposeOnto(u, b, -1, [], []);
    assert ([a] + r) + [c] == [a] + (r + [c]);
  }

  lemma BuiltComposed(u: Unicode, previous: nat, base: nat, a: nat, r: Points)
    requires Facts(u) && BuiltFrom(u, base, a, r) && u.pair(previous, a).None?
    ensures !NotComposed(u, previous, base)
  {
    hide ComposeOnto;
    if HasDecomposition(u, base) {
      var d := [a] + r;
      assert u.canonical(base) == d && d[1..] == r && d[0] == a;
      assert Compose(u, d) == [base];
      if r == [] { OntoNothing(u, a); }
    }
  }

  lemma OntoNothing(u: Unicode, a: nat)
    ensures ComposeOnto(u, a, -1, [], []) == [a]
  {
    assert [a] + [] == [a];
  }

  /** Marks that do not decompose. */
  predicate Marks(u: Unicode, s: Points) {
    forall j :: 0 <= j < |s| ==> Full(u, s[j]) == [s[j]] && u.ccc(s[j]) != 0
  }

  /** What comes before the character after `kept`. */
  function Before(previous: nat, kept: Points): nat {
    if kept == [] then previous else kept[|kept| - 1]
  }

  lemma {:induction false} MarksComposed(u: Unicode, previous: nat, kept: Points, rest: Points)
    requires Facts(u) && Marks(u, kept) && AllComposed(u, Before(previous, kept), rest)
    ensures AllComposed(u, previous, kept + rest)
    decreases |kept|
  {
    if kept == [] {
      assert kept + rest == rest;
    } else {
      hide Compose;
      MarksComposed(u, kept[0], kept[1..], rest);
      assert (kept + rest)[1..] == kept[1..] + rest;
    }
  }

  lemma ClosedComposed(u: Unicode, previous: nat, base: nat, kept: Points, rest: Points)
    requires Facts(u) && Marks(u, kept) && !NotComposed(u, previous, base)
    requires AllComposed(u, Before(base, kept), rest)
    ensures AllComposed(u, previous, [base] + kept + rest)
  {
    hide NotComposed, Facts, Marks;
    MarksComposed(u, base, kept, rest);
    assert [base] + kept + rest == [base] + (kept + rest);
    assert ([base] + (kept + rest))[1..] == kept + rest;
  }

  lemma UndecomposableSuffix(u: Unicode, s: Points, n: nat)
    requires Undecomposable(u, s) && n <= |s|
    ensures Undecomposable(u, s[n..])
  {
    forall j | 0 <= j < |s| - n ensures Full(u, s[n..][j]) == [s[n..][j]] { assert s[n..][j] == s[n + j]; }
  }

  /** Whatever the pass writes is in composed form, and no character in it decomposes to something
      that would have composed with the character before it. */
  lemma {:induction false} ComposedPass(u: Unicode, previous: nat, s: Points)
    requires Facts(u) && Undecomposable(u, s) && (s != [] ==> u.pair(previous, s[0]).None?)
    ensures AllComposed(u, previous, Compose(u, s))
    decreases |s|, 1
  {
    hide ComposeOnto, ComposeLV, ComposeLVT;
    if s != [] {
      var c := s[0];
      assert Full(u, c) == [c];
      var r := Compose(u, s);
      if !IsL(c) && !IsSyllable(c) && c < 0x110000 {
        BuiltAlone(u, c);
        UndecomposableSuffix(u, s, 1);
        ComposedOnto(u, previous, c, c, [], -1, [], s[1..]);
      } else {
        var n := if IsL(c) && |s| > 1 && IsV(s[1]) then if |s| > 2 && IsT(s[2]) then 3 else 2 else 1;
        UndecomposableSuffix(u, s, n);
        assert r[1..] == Compose(u, s[n..]);
        ComposedPass(u, r[0], s[n..]);
      }
    }
  }

  /** The same with an open character and kept marks. */
  lemma {:induction false} ComposedOnto(
    u: Unicode, previous: nat, base: nat, a: nat, r: Points, p: int, kept: Points, s: Points)
    requires Facts(u) && Undecomposable(u, s) && BuiltFrom(u, base, a, r) && u.pair(previous, a).None?
    requires Marks(u, kept) && (kept == [] ==> p == -1)
    ensures AllComposed(u, previous, ComposeOnto(u, base, p, kept, s))
    decreases |s|, 2
  {
    hide Compose, BuiltFrom, NotComposed;
    BuiltComposed(u, previous, base, a, r);
    if s == [] {
      ClosedComposed(u, previous, base, kept, []);
      assert [base] + kept + [] == [base] + kept;
    } else {
      var c := s[0];
      assert Full(u, c) == [c];
      UndecomposableSuffix(u, s, 1);
      if p < u.ccc(c) && u.pair(base, c).Some? {
        BuiltStep(u, base, a, r, c);
        ComposedOnto(u, previous, u.pair(base, c).value, a, r + [c], p, kept, s[1..]);
      } else if u.ccc(c) == 0 {
        ComposedPass(u, Before(base, kept), s);
        ClosedComposed(u, previous, base, kept, Compose(u, s));
      } else {
        ComposedOnto(u, previous, base, a, r, u.ccc(c), kept + [c], s[1..]);
      }
    }
  }

  // ---------------------------------------------------------------- what the quick check decides

  /** With its first two checks passed, the third decides whether normalization is the identity. */
  lemma LastCheckDecides(u: Unicode, s: Points)
    requires Facts(u) && AllComposed(u, 0x110000, s) && MarksInOrder(u, 0, s)
    ensures Nfc(u, s) == s <==> !WouldCompose(u, s)
  {
    hide Compose, AllComposed, MarksInOrder, WouldCompose, Facts;
    var d := Decomposed(u, s);
    DecompositionOrdered(u, 0x110000, 0, s);
    OrderedAfterMeaning(u, 0, d);
    SortedUnique(u, d, d);
    Rebuild(u, 0x110000, s);
  }

  /** A string that passes the quick check is its own normalization. */
  lemma QuickCheckSound(u: Unicode, s: Points)
    requires Facts(u) && AlreadyNfc(u, s)
    ensures Nfc(u, s) == s
  {
    if s != [] { LastCheckDecides(u, s); }
  }

  /** The quick check recognises exactly those normalized strings whose decomposition needs no
      reordering: their marks are in order, counting the marks hidden in composed characters. All other
      normalized strings take the slow path. */
  lemma QuickCheckExact(u: Unicode, s: Points)
    requires Facts(u)
    ensures AlreadyNfc(u, s) <==> Nfc(u, s) == s && Ordered(u, Decomposed(u, s))
    ensures AlreadyNfc(u, s) <==> Nfc(u, s) == s && MarksInOrder(u, 0, s)
  {
    if Nfc(u, s) == s { MarksOfNormalized(u, s); }
    hide Compose, AllComposed, Nfd, WouldCompose, Undecomposable, Ordered;
    if s == [] {
      NothingToDo(u);
    } else if AlreadyNfc(u, s) {
      QuickCheckSound(u, s);
    } else if Nfc(u, s) == s && MarksInOrder(u, 0, s) {
      NfdUndecomposable(u, s);
      ComposedPass(u, 0x110000, Nfd(u, s));
      LastCheckDecides(u, s);
    }
  }

  lemma MarksOfNormalized(u: Unicode, s: Points)
    requires Facts(u) && Nfc(u, s) == s
    ensures MarksInOrder(u, 0, s) <==> Ordered(u, Decomposed(u, s))
  {
    hide Compose, AllComposed, MarksInOrder, Nfd, Undecomposable, Ordered;
    NfdUndecomposable(u, s);
    ComposedPass(u, 0x110000, Nfd(u, s));
    MarksInOrderMeans(u, 0x110000, 0, s);
    OrderedAfterMeaning(u, 0, Decomposed(u, s));
  }

  lemma NothingToDo(u: Unicode)
    ensures Nfc(u, []) == []
  {}

  // ---------------------------------------------------------------- not every NFC string passes

  /** Three characters of Unicode: U+00E1 is U+0061 with U+0301 (class 230); U+0316 has class 220. */
  function Acute(): Unicode {
    Unicode((c: nat) => if c == 0xE1 then [0x61, 0x301] else [],
            (c: nat) => if c == 0x301 then 230 else if c == 0x316 then 220 else 0,
            (a: nat, b: nat) => if a == 0x61 && b == 0x301 then Some(0xE1) else None)
  }

  lemma AcuteFacts()
    ensures Facts(Acute())
  {
    var u := Acute();
    var d: Points := [0x61, 0x301];
    assert d[1..] == [0x301] && d[1..][1..] == [];
    assert OrderedAfter(u, 230, d[1..][1..]);
    assert OrderedAfter(u, 0, d[1..]);
    assert OrderedAfter(u, 0, d);
    assert Full(u, 0xE1) == d && Full(u, 0x61) == [0x61] && Full(u, 0x301) == [0x301];
    assert [0x61] + [0x301] == d;
  }

  lemma AcuteSorted()
    ensures Nfd(Acute(), [0xE1, 0x316]) == [0x61, 0x316, 0x301]
  {
    var u, s := Acute(), [0xE1, 0x316];
    assert s[1..] == [0x316] && s[1..][1..] == [];
    assert Decomposed(u, s[1..]) == [0x316] + [];
    var d: Points := [0x61, 0x301, 0x316];
    assert Decomposed(u, s) == [0x61, 0x301] + [0x316] == d;
    assert SortedUpTo(u, d, 0) == [];
    assert SortedUpTo(u, d, 1) == [] + [0x61] == [0x61];
    assert Slot(u, [0x61], 1, 0x301) == 1;
    assert SortedUpTo(u, d, 2) == InsertAt([0x61], 1, 0x301) == [0x61, 0x301];
    assert Slot(u, [0x61, 0x301], 2, 0x316) == Slot(u, [0x61, 0x301], 1, 0x316) == 1;
    assert SortedUpTo(u, d, 3) == InsertAt([0x61, 0x301], 1, 0x316) == [0x61, 0x316, 0x301];
  }

  /** The quick check is not complete: U+00E1 U+0316 is in Normalization Form C, but the mark
      hidden in U+00E1 has the higher class, so the slow path is taken. */
  lemma QuickCheckIncomplete()
    ensures Facts(Acute()) && Nfc(Acute(), [0xE1, 0x316]) == [0xE1, 0x316] && !AlreadyNfc(Acute(), [0xE1, 0x316])
  {
    AcuteFacts();
    AcuteSorted();
    var u, s := Acute(), [0xE1, 0x316];
    var t: Points := [0x61, 0x316, 0x301];
    assert t[1..] == [0x316, 0x301] && t[1..][1..] == [0x301] && t[1..][1..][1..] == [];
    assert ComposeOnto(u, 0xE1, 220, [0x316], []) == [0xE1] + [0x316] == s;
    assert ComposeOnto(u, 0x61, 220, [] + [0x316], [0x301]) == ComposeOnto(u, 0xE1, 220, [] + [0x316], [0x301][1..]);
    assert [] + [0x316] == [0x316] && [0x301][1..] == [];
    assert ComposeOnto(u, 0x61, -1, [], t[1..]) == s;
    assert Compose(u, t) == s;
    assert s[1..][0] == 0x316 && Trailing(u, 0xE1) == 230;
    assert !MarksInOrder(u, 230, s[1..]);
  }
}
