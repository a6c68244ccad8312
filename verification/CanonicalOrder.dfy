/** The Canonical Ordering Algorithm (section 3.11 of the Unicode Standard, D108-D109) and what
    it leaves unchanged. */
module CanonicalOrder {
  import opened Basics
  import opened UnicodeData

  // ---------------------------------------------------------------- views

  /** The starters of `s` and its marks of class `k`, in place order. Reordering marks of
      different classes between starters changes no view, and nothing else changes none. */
  function View(u: Unicode, k: nat, s: Points): Points {
    if s == [] then [] else Shown(u, k, s[0]) + View(u, k, s[1..])
  }

  function Shown(u: Unicode, k: nat, c: nat): Points {
    if u.ccc(c) == 0 || u.ccc(c) == k then [c] else []
  }

  ghost predicate SameViews(u: Unicode, s: Points, t: Points) {
    forall k: nat :: View(u, k, s) == View(u, k, t)
  }

  lemma {:induction false} ViewJoin(u: Unicode, k: nat, s: Points, t: Points)
    ensures View(u, k, s + t) == View(u, k, s) + View(u, k, t)
  {
    if s == [] {
      assert s + t == t;
    } else {
      hide Shown;
      ViewJoin(u, k, s[1..], t);
      assert (s + t)[0] == s[0] && (s + t)[1..] == s[1..] + t;
      Associate(Shown(u, k, s[0]), View(u, k, s[1..]), View(u, k, t));
    }
  }

  /** Marks of other classes than `k` do not appear in the view of `k`. */
  lemma {:induction false} ViewOfOthers(u: Unicode, k: nat, s: Points)
    requires forall j :: 0 <= j < |s| ==> u.ccc(s[j]) != 0 && u.ccc(s[j]) != k
    ensures View(u, k, s) == []
  {
    if s != [] { ViewOfOthers(u, k, s[1..]); }
  }

  lemma ViewOne(u: Unicode, k: nat, c: nat)
    ensures View(u, k, [c]) == if u.ccc(c) == 0 || u.ccc(c) == k then [c] else []
  {}

  /** A mark may move across marks of other classes. */
  lemma ViewSwap(u: Unicode, k: nat, marks: Points, c: nat)
    requires marks != [] ==> u.ccc(c) != 0
    requires forall j :: 0 <= j < |marks| ==> u.ccc(marks[j]) != 0 && u.ccc(marks[j]) != u.ccc(c)
    ensures View(u, k, marks + [c]) == View(u, k, [c] + marks)
  {
    ViewJoin(u, k, marks, [c]);
    ViewJoin(u, k, [c], marks);
    ViewOne(u, k, c);
    if marks == [] {
    } else if k == u.ccc(c) {
      ViewOfOthers(u, k, marks);
    } else {
      assert View(u, k, [c]) == [];
    }
  }

  // ---------------------------------------------------------------- ordered strings

  /** Every mark follows a starter, or a mark of no higher class. */
  predicate Ordered(u: Unicode, s: Points) {
    forall j {:trigger s[j]} :: 0 < j < |s| && u.ccc(s[j]) != 0 ==> u.ccc(s[j - 1]) <= u.ccc(s[j])
  }

  lemma {:induction false} OrderedAfterMeaning(u: Unicode, p: nat, s: Points)
    ensures OrderedAfter(u, p, s) <==>
            Ordered(u, s) && (s != [] && u.ccc(s[0]) != 0 ==> p <= u.ccc(s[0]))
    decreases |s|
  {
    if s != [] {
      OrderedAfterMeaning(u, u.ccc(s[0]), s[1..]);
      if OrderedAfter(u, p, s) {
        forall j | 0 < j < |s| && u.ccc(s[j]) != 0 ensures u.ccc(s[j - 1]) <= u.ccc(s[j]) {
          if j > 1 { assert s[1..][j - 1] == s[j] && s[1..][j - 2] == s[j - 1]; }
        }
      }
      if Ordered(u, s) {
        forall j | 0 < j < |s[1..]| && u.ccc(s[1..][j]) != 0 ensures u.ccc(s[1..][j - 1]) <= u.ccc(s[1..][j]) {
          assert s[1..][j] == s[j + 1] && s[1..][j - 1] == s[j];
        }
        if s[1..] != [] { assert s[1] == s[1..][0]; }
      }
    }
  }

  lemma {:induction false} ViewLast(u: Unicode, k: nat, s: Points)
    requires s != [] && (u.ccc(s[|s| - 1]) == 0 || u.ccc(s[|s| - 1]) == k)
    ensures View(u, k, s) == View(u, k, s[..|s| - 1]) + [s[|s| - 1]]
  {
    assert s == s[..|s| - 1] + [s[|s| - 1]];
    ViewJoin(u, k, s[..|s| - 1], [s[|s| - 1]]);
    ViewOne(u, k, s[|s| - 1]);
  }

  /** In an ordered string that ends in a mark, no view of a higher class ends in a mark. */
  lemma {:induction false} NoHigherMark(u: Unicode, k: nat, s: Points)
    requires Ordered(u, s) && s != [] && 0 < u.ccc(s[|s| - 1]) < k
    ensures var v := View(u, k, s); v == [] || u.ccc(v[|v| - 1]) == 0
  {
    hide View;
    var p, c := s[..|s| - 1], s[|s| - 1];
    assert s == p + [c];
    ViewJoin(u, k, p, [c]);
    ViewOne(u, k, c);
    assert View(u, k, p) + [] == View(u, k, p);
    if p != [] {
      var b := p[|p| - 1];
      assert s[|s| - 2] == b;
      if u.ccc(b) == 0 {
        ViewLast(u, k, p);
      } else {
        assert Ordered(u, p);
        NoHigherMark(u, k, p);
      }
    }
  }

  /** An ordered string is determined by its views. */
  lemma {:induction false} OrderedUnique(u: Unicode, s: Points, t: Points)
    requires Ordered(u, s) && Ordered(u, t) && SameViews(u, s, t)
    ensures s == t
    decreases |s| + |t|
  {
    hide View, Ordered, SameViews;
    if s == [] || t == [] {
      EmptyViews(u, s, t);
    } else {
      var p, q := s[..|s| - 1], t[..|t| - 1];
      LastClasses(u, s, t);
      SameLast(u, s, t);
      OrderedPrefix(u, s, |s| - 1);
      OrderedPrefix(u, t, |t| - 1);
      OrderedUnique(u, p, q);
      assert s == p + [s[|s| - 1]] && t == q + [t[|t| - 1]];
    }
  }

  lemma OrderedPrefix(u: Unicode, s: Points, n: nat)
    requires Ordered(u, s) && n <= |s|
    ensures Ordered(u, s[..n])
  {}

  lemma Cancel(x: Points, y: Points, z: Points)
    requires x + z == y + z
    ensures x == y
  {
    assert |x| == |y|;
    forall j | 0 <= j < |x| ensures x[j] == y[j] {
      assert x[j] == (x + z)[j] == (y + z)[j];
    }
  }

  lemma CancelLast(x: Points, a: nat, y: Points, b: nat)
    requires x + [a] == y + [b]
    ensures a == b && x == y
  {
    assert (x + [a])[|x|] == a;
    assert (y + [b])[|y|] == b;
    Cancel(x, y, [a]);
  }

  /** Strings with the same views whose last characters have the same class agree there, and
      before it have the same views again. */
  lemma SameLast(u: Unicode, s: Points, t: Points)
    requires SameViews(u, s, t) && s != [] && t != [] && u.ccc(s[|s| - 1]) == u.ccc(t[|t| - 1])
    ensures s[|s| - 1] == t[|t| - 1]
    ensures SameViews(u, s[..|s| - 1], t[..|t| - 1])
  {
    hide View;
    var a, b, p, q := s[|s| - 1], t[|t| - 1], s[..|s| - 1], t[..|t| - 1];
    ViewLast(u, u.ccc(a), s);
    ViewLast(u, u.ccc(a), t);
    assert View(u, u.ccc(a), s) == View(u, u.ccc(a), t);
    CancelLast(View(u, u.ccc(a), p), a, View(u, u.ccc(a), q), b);
    assert s == p + [a] && t == q + [a];
    forall k: nat ensures View(u, k, p) == View(u, k, q) {
      ViewJoin(u, k, p, [a]);
      ViewJoin(u, k, q, [a]);
      assert View(u, k, s) == View(u, k, t);
      Cancel(View(u, k, p), View(u, k, q), View(u, k, [a]));
    }
  }

  lemma ViewNonEmpty(u: Unicode, s: Points)
    requires s != []
    ensures View(u, u.ccc(s[0]), s) != []
  {}

  lemma EmptyViews(u: Unicode, s: Points, t: Points)
    requires SameViews(u, s, t) && (s == [] || t == [])
    ensures s == t
  {
    if s != [] { ViewNonEmpty(u, s); }
    if t != [] { ViewNonEmpty(u, t); }
  }

  /** The last characters of two ordered strings with the same views are of the same class. */
  lemma LastClasses(u: Unicode, s: Points, t: Points)
    requires Ordered(u, s) && Ordered(u, t) && SameViews(u, s, t) && s != [] && t != []
    ensures u.ccc(s[|s| - 1]) == u.ccc(t[|t| - 1])
  {
    LastClassNotHigher(u, s, t);
    assert SameViews(u, t, s);
    LastClassNotHigher(u, t, s);
  }

  lemma LastClassNotHigher(u: Unicode, s: Points, t: Points)
    requires Ordered(u, s) && SameViews(u, s, t) && s != [] && t != []
    ensures u.ccc(t[|t| - 1]) <= u.ccc(s[|s| - 1])
  {
    var a, b := s[|s| - 1], t[|t| - 1];
    if u.ccc(a) < u.ccc(b) {
      hide View;
      var k := u.ccc(b);
      var v := View(u, k, s);
      assert v == View(u, k, t);
      ViewLast(u, k, t);
      assert v[|v| - 1] == b;
      if u.ccc(a) == 0 {
        ViewLast(u, k, s);
      } else {
        NoHigherMark(u, k, s);
      }
      assert false;
    }
  }

  // ---------------------------------------------------------------- sorting

  /** Where insertion puts a mark `c` into the first `k` characters: before the marks of higher
      class at their end. */
  function Slot(u: Unicode, s: Points, k: nat, c: nat): (p: nat)
    requires k <= |s|
    ensures p <= k
  {
    if k > 0 && u.ccc(s[k - 1]) > u.ccc(c) then Slot(u, s, k - 1, c) else k
  }

  function Place(u: Unicode, s: Points, c: nat): (t: Points)
    ensures |t| == |s| + 1
  {
    if u.ccc(c) == 0 then s + [c] else InsertAt(s, Slot(u, s, |s|, c), c)
  }

  /** Insertion sort of the marks among the first `n` characters. */
  function SortedUpTo(u: Unicode, s: Points, n: nat): (t: Points)
    requires n <= |s|
    ensures |t| == n
  {
    if n == 0 then [] else Place(u, SortedUpTo(u, s, n - 1), s[n - 1])
  }

  function Sorted(u: Unicode, s: Points): (t: Points)
    ensures |t| == |s|
  {
    SortedUpTo(u, s, |s|)
  }

  lemma {:induction false} SlotMeaning(u: Unicode, s: Points, k: nat, c: nat)
    requires k <= |s|
    ensures var p := Slot(u, s, k, c);
            && (forall j :: p <= j < k ==> u.ccc(s[j]) > u.ccc(c))
            && (p > 0 ==> u.ccc(s[p - 1]) <= u.ccc(c))
  {
    if k > 0 && u.ccc(s[k - 1]) > u.ccc(c) { SlotMeaning(u, s, k - 1, c); }
  }

  lemma PlaceViews(u: Unicode, s: Points, c: nat)
    ensures SameViews(u, Place(u, s, c), s + [c])
  {
    hide View;
    if u.ccc(c) != 0 {
      var p := Slot(u, s, |s|, c);
      SlotMeaning(u, s, |s|, c);
      var x, y := s[..p], s[p..];
      forall k: nat ensures View(u, k, Place(u, s, c)) == View(u, k, s + [c]) {
        ViewSwap(u, k, y, c);
        assert InsertAt(s, p, c) == x + (([c] + y) + []);
        assert s + [c] == x + ((y + [c]) + []);
        ViewAround(u, k, x, [c] + y, y + [c], []);
      }
    }
  }

  lemma PlaceOrdered(u: Unicode, s: Points, c: nat)
    requires Ordered(u, s)
    ensures Ordered(u, Place(u, s, c))
  {
    if u.ccc(c) != 0 {
      var p := Slot(u, s, |s|, c);
      SlotMeaning(u, s, |s|, c);
      forall j {:trigger InsertAt(s, p, c)[j]} | 0 < j <= |s| && u.ccc(InsertAt(s, p, c)[j]) != 0
        ensures u.ccc(InsertAt(s, p, c)[j - 1]) <= u.ccc(InsertAt(s, p, c)[j])
      {
        hide InsertAt, Slot;
        Inserted(s, p, c, j);
        Inserted(s, p, c, j - 1);
      }
    }
  }

  /** Sorting orders the string, and changes none of its views. */
  lemma {:induction false} SortedUpToCorrect(u: Unicode, s: Points, n: nat)
    requires n <= |s|
    ensures Ordered(u, SortedUpTo(u, s, n)) && SameViews(u, SortedUpTo(u, s, n), s[..n])
  {
    if n > 0 {
      hide View, Ordered, Place;
      SortedUpToCorrect(u, s, n - 1);
      var t, c := SortedUpTo(u, s, n - 1), s[n - 1];
      PlaceOrdered(u, t, c);
      PlaceViews(u, t, c);
      assert s[..n] == s[..n - 1] + [c];
      hide SameViews;
      SameViewsMore(u, t, s[..n - 1], c);
      SameViewsTrans(u, Place(u, t, c), t + [c], s[..n]);
    }
  }

  lemma SameViewsMore(u: Unicode, s: Points, t: Points, c: nat)
    requires SameViews(u, s, t)
    ensures SameViews(u, s + [c], t + [c])
  {
    hide View;
    forall k: nat ensures View(u, k, s + [c]) == View(u, k, t + [c]) {
      ViewJoin(u, k, s, [c]);
      ViewJoin(u, k, t, [c]);
    }
  }

  lemma SameViewsTrans(u: Unicode, r: Points, s: Points, t: Points)
    requires SameViews(u, r, s) && SameViews(u, s, t)
    ensures SameViews(u, r, t)
  {
    hide View;
  }

  lemma SortedCorrect(u: Unicode, s: Points)
    ensures Ordered(u, Sorted(u, s)) && SameViews(u, Sorted(u, s), s)
  {
    SortedUpToCorrect(u, s, |s|);
    assert s[..|s|] == s;
  }

  /** `Sorted(s)` is the only ordered string with the views of `s`. */
  lemma SortedUnique(u: Unicode, s: Points, t: Points)
    ensures t == Sorted(u, s) <==> Ordered(u, t) && SameViews(u, t, s)
  {
    hide View, Ordered, Sorted;
    SortedCorrect(u, s);
    if Ordered(u, t) && SameViews(u, t, s) {
      OrderedUnique(u, t, Sorted(u, s));
    }
  }

  /** Two strings have the same views exactly if they sort to the same string. */
  lemma SameViewsIffSameSorted(u: Unicode, s: Points, t: Points)
    ensures SameViews(u, s, t) <==> Sorted(u, s) == Sorted(u, t)
  {
    hide View, Ordered, Sorted;
    SortedCorrect(u, s);
    SortedCorrect(u, t);
    if SameViews(u, s, t) {
      OrderedUnique(u, Sorted(u, s), Sorted(u, t));
    }
  }

  /** Position `j` holds the same starter in both, or marks in both. */
  predicate SameStarter(u: Unicode, c: nat, d: nat) {
    u.ccc(c) == 0 || u.ccc(d) == 0 ==> c == d
  }

  /** Sorting leaves starters where they are. */
  lemma {:induction false} StartersStay(u: Unicode, s: Points, n: nat, j: nat)
    requires j < n <= |s|
    ensures SameStarter(u, s[j], SortedUpTo(u, s, n)[j])
  {
    hide Place, SameStarter;
    PlaceKeepsStarter(u, SortedUpTo(u, s, n - 1), s[n - 1], j);
    if j < n - 1 {
      StartersStay(u, s, n - 1, j);
      SameStarterTrans(u, s[j], SortedUpTo(u, s, n - 1)[j], SortedUpTo(u, s, n)[j]);
    }
  }

  lemma SameStarterTrans(u: Unicode, c: nat, d: nat, e: nat)
    requires SameStarter(u, c, d) && SameStarter(u, d, e)
    ensures SameStarter(u, c, e)
  {}

  lemma PlaceKeepsStarter(u: Unicode, t: Points, c: nat, j: nat)
    requires j <= |t|
    ensures SameStarter(u, if j < |t| then t[j] else c, Place(u, t, c)[j])
  {
    if u.ccc(c) != 0 {
      SlotMeaning(u, t, |t|, c);
      Inserted(t, Slot(u, t, |t|, c), c, j);
    }
  }

  /** Sorting permutes. */
  lemma {:induction false} SortedPermutes(u: Unicode, s: Points, n: nat)
    requires n <= |s|
    ensures multiset(SortedUpTo(u, s, n)) == multiset(s[..n])
  {
    if n > 0 {
      hide Place;
      SortedPermutes(u, s, n - 1);
      assert s[..n] == s[..n - 1] + [s[n - 1]];
      PlacePermutes(u, SortedUpTo(u, s, n - 1), s[n - 1]);
    }
  }

  lemma PlacePermutes(u: Unicode, t: Points, c: nat)
    ensures multiset(Place(u, t, c)) == multiset(t) + multiset{c}
  {
    hide InsertAt, Slot;
    InsertedPermutes(t, Slot(u, t, |t|, c), c);
  }

  lemma InsertedPermutes(t: Points, p: nat, c: nat)
    requires p <= |t|
    ensures multiset(InsertAt(t, p, c)) == multiset(t) + multiset{c}
  {
    assert t == t[..p] + t[p..];
  }

  // ---------------------------------------------------------------- exchanges

  /** `s` with the characters at `i` and after it exchanged. */
  function Swapped(s: Points, i: nat): (t: Points)
    requires i + 1 < |s|
    ensures |t| == |s|
  {
    s[..i] + [s[i + 1], s[i]] + s[i + 2..]
  }

  predicate ExchangeAt(u: Unicode, s: Points, t: Points, i: nat) {
    i + 1 < |s| && u.ccc(s[i]) > u.ccc(s[i + 1]) > 0 && t == Swapped(s, i)
  }

  /** One exchange of the algorithm: two neighbouring marks, the first of higher class (D108). */
  ghost predicate Exchange(u: Unicode, s: Points, t: Points) {
    exists i: nat :: ExchangeAt(u, s, t, i)
  }

  ghost predicate Reaches(u: Unicode, s: Points, t: Points, steps: nat)
    decreases steps
  {
    if steps == 0 then s == t
    else exists m :: Exchange(u, s, m) && Reaches(u, m, t, steps - 1)
  }

  lemma {:induction false} ReachesTrans(u: Unicode, s: Points, m: Points, t: Points, i: nat, j: nat)
    requires Reaches(u, s, m, i) && Reaches(u, m, t, j)
    ensures Reaches(u, s, t, i + j)
    decreases i
  {
    hide Exchange;
    if i > 0 {
      var n :| Exchange(u, s, n) && Reaches(u, n, m, i - 1);
      ReachesTrans(u, n, m, t, i - 1, j);
    }
  }

  lemma ExchangeInFront(u: Unicode, s: Points, t: Points, c: nat)
    requires Exchange(u, s, t)
    ensures Exchange(u, s + [c], t + [c])
  {
    var i: nat :| ExchangeAt(u, s, t, i);
    SwapInFront(s, i, c);
    hide Swapped;
    assert ExchangeAt(u, s + [c], t + [c], i);
  }

  lemma SwapInFront(s: Points, i: nat, c: nat)
    requires i + 1 < |s|
    ensures Swapped(s + [c], i) == Swapped(s, i) + [c]
  {}

  lemma {:induction false} ReachesInFront(u: Unicode, s: Points, t: Points, c: nat, steps: nat)
    requires Reaches(u, s, t, steps)
    ensures Reaches(u, s + [c], t + [c], steps)
    decreases steps
  {
    hide Exchange;
    if steps > 0 {
      var m :| Exchange(u, s, m) && Reaches(u, m, t, steps - 1);
      ExchangeInFront(u, s, m, c);
      ReachesInFront(u, m, t, c, steps - 1);
    }
  }

  /** Moving `c` down from position `k` is a sequence of exchanges. */
  lemma {:induction false} SlotReached(u: Unicode, s: Points, k: nat, c: nat) returns (steps: nat)
    requires k <= |s| && u.ccc(c) != 0
    ensures Reaches(u, InsertAt(s, k, c), InsertAt(s, Slot(u, s, k, c), c), steps)
  {
    if k > 0 && u.ccc(s[k - 1]) > u.ccc(c) {
      hide InsertAt, Exchange;
      steps := SlotReached(u, s, k - 1, c);
      StepDown(u, s, k, c);
      steps := steps + 1;
    } else {
      steps := 0;
    }
  }

  lemma StepDown(u: Unicode, s: Points, k: nat, c: nat)
    requires 0 < k <= |s| && u.ccc(s[k - 1]) > u.ccc(c) > 0
    ensures Exchange(u, InsertAt(s, k, c), InsertAt(s, k - 1, c))
  {
    var x, y, b := InsertAt(s, k, c), InsertAt(s, k - 1, c), s[k - 1];
    assert s == s[..k - 1] + [b] + s[k..];
    assert x == s[..k - 1] + [b, c] + s[k..];
    assert y == s[..k - 1] + [c, b] + s[k..];
    assert x[k - 1] == b && x[k] == c && y[k - 1] == c;
    assert x[..k - 1] == s[..k - 1] && x[k + 1..] == s[k..];
    assert ExchangeAt(u, x, y, k - 1);
  }

  /** Sorting is nothing but exchanges of D108. */
  lemma {:induction false} SortedReached(u: Unicode, s: Points, n: nat) returns (steps: nat)
    requires n <= |s|
    ensures Reaches(u, s[..n], SortedUpTo(u, s, n), steps)
  {
    hide Exchange, Slot;
    if n == 0 {
      steps := 0;
    } else {
      var before := SortedReached(u, s, n - 1);
      var t, c := SortedUpTo(u, s, n - 1), s[n - 1];
      assert s[..n] == s[..n - 1] + [c];
      ReachesInFront(u, s[..n - 1], t, c, before);
      if u.ccc(c) == 0 {
        steps := before;
      } else {
        var after := SlotReached(u, t, |t|, c);
        assert InsertAt(t, |t|, c) == t + [c];
        ReachesTrans(u, s[..n], t + [c], Place(u, t, c), before, after);
        steps := before + after;
      }
    }
  }

  /** No exchange changes a view. */
  lemma ExchangeKeepsViews(u: Unicode, s: Points, t: Points)
    requires Exchange(u, s, t)
    ensures SameViews(u, s, t)
  {
    hide View, Swapped;
    var i: nat :| ExchangeAt(u, s, t, i);
    SwapParts(s, i);
    var a, b := s[i], s[i + 1];
    forall k: nat ensures View(u, k, s) == View(u, k, t) {
      ViewSwap(u, k, [a], b);
      ViewAround(u, k, s[..i], [a] + [b], [b] + [a], s[i + 2..]);
    }
  }

  lemma SwapParts(s: Points, i: nat)
    requires i + 1 < |s|
    ensures s == s[..i] + (([s[i]] + [s[i + 1]]) + s[i + 2..])
    ensures Swapped(s, i) == s[..i] + (([s[i + 1]] + [s[i]]) + s[i + 2..])
  {}

  lemma ViewAround(u: Unicode, k: nat, x: Points, y: Points, y': Points, z: Points)
    requires View(u, k, y) == View(u, k, y')
    ensures View(u, k, x + (y + z)) == View(u, k, x + (y' + z))
  {
    hide View;
    ViewJoin(u, k, x, y + z);
    ViewJoin(u, k, x, y' + z);
    ViewJoin(u, k, y, z);
    ViewJoin(u, k, y', z);
  }
}
