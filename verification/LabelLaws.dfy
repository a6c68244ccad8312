/** The label check said another way: one pass over the label with a few flags, classes by number as
    the tables store them; and what the Bidi part does not depend on. */
module LabelLaws {
  import opened Basics
  import opened LabelRules
  import opened ValidityImpl

  // ---------------------------------------------------------------- joiners in one pass

  /** Reads from place `n` on: whether the character before is a virama (class 9), whether a character
      of type L or D precedes apart from T, and whether a U+200C still waits for R or D. */
  predicate JoinersRead(p: Properties, s: Points, n: nat, virama: bool, joins: bool, waits: bool)
    requires n <= |s|
    decreases |s| - n
  {
    if n == |s| then !waits
    else
      var c, j := s[n], p.joining(s[n]);
      if waits && j != 5 && j != 4 && j != 2 then false
      else if c == 0x200D && !virama then false
      else if c == 0x200C && !virama && !joins then false
      else
        JoinersRead(p, s, n + 1, p.ccc(c) == 9, if j == 5 then joins else j == 3 || j == 2,
                    (waits && j == 5) || (c == 0x200C && !virama))
  }

  lemma AfterStep(p: Properties, s: Points, n: nat)
    requires n < |s|
    ensures JoinsAfter(p, s, n) <==>
            p.joining(s[n]) == 4 || p.joining(s[n]) == 2 || (p.joining(s[n]) == 5 && JoinsAfter(p, s, n + 1))
  {
    if JoinsAfter(p, s, n) {
      var b :| n <= b < |s| && p.joining(s[b]) in {JT_R, JT_D} && forall k :: n <= k < b ==> p.joining(s[k]) == JT_T;
      if b > n { assert p.joining(s[n]) == JT_T; }
    }
  }

  lemma BeforeStep(p: Properties, s: Points, n: nat)
    requires n < |s|
    ensures JoinsBefore(p, s, n + 1) <==>
            p.joining(s[n]) == 3 || p.joining(s[n]) == 2 || (p.joining(s[n]) == 5 && JoinsBefore(p, s, n))
  {
    if JoinsBefore(p, s, n + 1) {
      var a :| 0 <= a < n + 1 && p.joining(s[a]) in {JT_L, JT_D}
               && forall k :: a < k < n + 1 ==> p.joining(s[k]) == JT_T;
      if a < n { assert p.joining(s[n]) == JT_T; }
    }
  }

  predicate AllowedFrom(p: Properties, s: Points, n: nat) {
    forall i :: n <= i < |s| ==> JoinerAllowed(p, s, i)
  }

  lemma AllowedStep(p: Properties, s: Points, n: nat)
    requires n < |s|
    ensures AllowedFrom(p, s, n) <==> JoinerAllowed(p, s, n) && AllowedFrom(p, s, n + 1)
  {
    hide JoinerAllowed;
  }

  lemma {:induction false} JoinersReadMeans(p: Properties, s: Points, n: nat, waits: bool)
    requires n <= |s|
    ensures JoinersRead(p, s, n, n > 0 && p.ccc(s[n - 1]) == 9, JoinsBefore(p, s, n), waits) <==>
            (waits ==> JoinsAfter(p, s, n)) && AllowedFrom(p, s, n)
    decreases |s| - n
  {
    hide JoinsBefore, JoinsAfter;
    if n == |s| {
      NothingAfter(p, s);
    } else {
      AllowedStep(p, s, n);
      hide AllowedFrom;
      AfterStep(p, s, n);
      BeforeStep(p, s, n);
      var j := p.joining(s[n]);
      var more := (waits && j == 5) || (s[n] == 0x200C && !AfterVirama(p, s, n));
      JoinersReadMeans(p, s, n + 1, more);
    }
  }

  lemma NothingAfter(p: Properties, s: Points)
    ensures !JoinsAfter(p, s, |s|)
  {}

  lemma NothingBefore(p: Properties, s: Points)
    ensures !JoinsBefore(p, s, 0)
  {}

  /** The rules for joiners, that look both ways from every joiner, in one pass. */
  lemma JoinersInOnePass(p: Properties, s: Points)
    ensures ContextJ(p, s) <==> JoinersRead(p, s, 0, false, false, false)
  {
    NothingBefore(p, s);
    hide JoinsBefore, JoinsAfter, JoinerAllowed;
    JoinersReadMeans(p, s, 0, false);
  }

  // ---------------------------------------------------------------- Bidi in one pass

  /** What a pass remembers: the place of the last character that is not NSM (-1 if none), and whether
      it saw R, AL or AN, EN, AN, or a class not allowed beside them. */
  datatype Scan = Scan(last: int, rtl: bool, en: bool, an: bool, bad: bool)

  function ScanOf(p: Properties, s: Points, n: nat): (r: Scan)
    requires n <= |s|
    ensures -1 <= r.last < n
  {
    if n == 0 then Scan(-1, false, false, false, false)
    else
      Next(ScanOf(p, s, n - 1), n - 1, p.direction(s[n - 1]))
  }

  /** After a character of class `c` at place `i`. */
  function Next(a: Scan, i: nat, c: nat): Scan {
    Scan(if c == 8 then a.last else i, a.rtl || c == 7 || c == 9 || c == 10, a.en || c == 5, a.an || c == 10,
         a.bad || c == 0 || c == 6 || c > 11)
  }

  /** Passes if a character that is not NSM was seen, and, with R, AL or AN, if the label begins with R
      or AL, has no other class than allowed, not both EN and AN, and ends in R, AL, EN or AN. */
  predicate ScanPasses(p: Properties, s: Points)
    requires s != []
  {
    var a, first := ScanOf(p, s, |s|), p.direction(s[0]);
    a.last >= 0 &&
    (a.rtl ==> (first == 7 || first == 9) && !a.bad && !(a.en && a.an) && p.direction(s[a.last]) in {7, 9, 5, 10})
  }

  lemma {:induction false} ScanMeans(p: Properties, s: Points, n: nat)
    requires n <= |s|
    ensures var a := ScanOf(p, s, n);
            && (a.rtl <==> Has(p, s, n, R) || Has(p, s, n, AL) || Has(p, s, n, AN))
            && (a.en <==> Has(p, s, n, EN)) && (a.an <==> Has(p, s, n, AN))
            && (a.bad <==> !AllRtl(p, s, n))
            && (a.last >= 0 ==> p.direction(s[a.last]) != NSM)
            && (forall k :: a.last < k < n ==> 0 <= k && p.direction(s[k]) == NSM)
  {
    if n == 0 {
      NoneYet(p, s);
    } else {
      ScanMeans(p, s, n - 1);
      HasStep(p, s, n - 1, R);
      HasStep(p, s, n - 1, AL);
      HasStep(p, s, n - 1, AN);
      HasStep(p, s, n - 1, EN);
      RtlClasses(p.direction(s[n - 1]));
      AllRtlStep(p, s, n - 1);
      hide Has, AllRtl, AllowedInRtl;
    }
  }

  lemma AllRtlStep(p: Properties, s: Points, n: nat)
    requires n < |s|
    ensures AllRtl(p, s, n + 1) <==> AllRtl(p, s, n) && AllowedInRtl(p.direction(s[n]))
  {
    hide AllowedInRtl;
  }

  lemma HasIsContains(p: Properties, s: Points, d: nat)
    ensures Has(p, s, |s|, d) <==> Contains(p, s, d)
  {}

  lemma AllRtlBefore(p: Properties, s: Points, last: nat)
    requires last < |s| && forall k :: last < k < |s| ==> p.direction(s[k]) == NSM
    ensures AllRtl(p, s, last + 1) <==> AllRtl(p, s, |s|)
  {
    if AllRtl(p, s, last + 1) {
      forall k | 0 <= k < |s| ensures AllowedInRtl(p.direction(s[k])) {}
    }
  }

  /** The code and the six conditions agree with the pass on every label. */
  lemma BidiInOnePass(p: Properties, s: Points)
    requires s != []
    ensures BidiPart(p, s) <==> ScanPasses(p, s)
  {
    var a := ScanOf(p, s, |s|);
    ScanMeans(p, s, |s|);
    HasIsContains(p, s, R);
    HasIsContains(p, s, AL);
    HasIsContains(p, s, AN);
    HasIsContains(p, s, EN);
    if a.last < 0 {
      assert !HasBase(p, s);
    } else {
      assert HasBase(p, s);
      if a.rtl {
        hide ScanOf, Has, Contains, AllRtl;
        WithRtl(p, s, a);
      }
    }
  }

  lemma WithRtl(p: Properties, s: Points, a: Scan)
    requires s != [] && HasRtl(p, s) && 0 <= a.last < |s| && p.direction(s[a.last]) != NSM
    requires forall k :: a.last < k < |s| ==> p.direction(s[k]) == NSM
    requires (a.en <==> Contains(p, s, EN)) && (a.an <==> Contains(p, s, AN)) && (a.bad <==> !AllRtl(p, s, |s|))
    ensures var first := p.direction(s[0]);
            BidiRule(p, s) <==> (first == 7 || first == 9) && !a.bad && !(a.en && a.an)
                                && p.direction(s[a.last]) in {7, 9, 5, 10}
  {
    if StartsRtl(p, s) {
      RtlRule(p, s, a.last);
      ContainsHas(p, s, a.last, EN);
      ContainsHas(p, s, a.last, AN);
      AllRtlBefore(p, s, a.last);
      hide Has, Contains, AllRtl, BidiRule;
    } else if BidiRule(p, s) {
      RtlLabelsStartRtl(p, s);
    }
  }

  /** A label is valid exactly if it is empty, or does not begin with a mark and passes both readings. */
  lemma LabelInOnePass(p: Properties, s: Points)
    ensures LabelOk(p, s) <==>
            s == [] || (!p.mark(s[0]) && JoinersRead(p, s, 0, false, false, false) && ScanPasses(p, s))
  {
    hide ContextJ, BidiPart, ScanPasses, JoinersRead;
    JoinersInOnePass(p, s);
    if s != [] { BidiInOnePass(p, s); }
  }

  // ---------------------------------------------------------------- labels without R, AL and AN

  /** The same properties with every class but NSM made L. */
  function Flattened(p: Properties): Properties {
    p.(direction := (c: nat) => if p.direction(c) == 8 then 8 else 6)
  }

  /** Without R, AL or AN the classes do not matter, except which characters are NSM. */
  lemma ClassesDoNotMatter(p: Properties, s: Points)
    requires forall i :: 0 <= i < |s| ==> p.direction(s[i]) !in {7, 9, 10}
    ensures LabelOk(p, s) <==> LabelOk(Flattened(p), s)
  {
    var q := Flattened(p);
    forall i | 0 <= i < |s| ensures JoinerAllowed(p, s, i) <==> JoinerAllowed(q, s, i) {}
    assert ContextJ(p, s) <==> ContextJ(q, s);
    assert !HasRtl(p, s) && !HasRtl(q, s);
    hide ContextJ, HasRtl;
    if HasBase(p, s) {
      var i :| 0 <= i < |s| && p.direction(s[i]) != NSM;
      assert q.direction(s[i]) != NSM;
    }
    if HasBase(q, s) {
      var i :| 0 <= i < |s| && q.direction(s[i]) != NSM;
      assert p.direction(s[i]) != NSM;
    }
  }

  predicate NoJoiner(c: nat) { c != 0x200C && c != 0x200D }

  /** A label of classes EN and L is valid, and is not when an R follows. */
  lemma DigitFirst(p: Properties, a: nat, b: nat, c: nat)
    requires p.direction(a) == 5 && p.direction(b) == 6 && p.direction(c) == 7 && !p.mark(a)
    requires NoJoiner(a) && NoJoiner(b) && NoJoiner(c)
    ensures LabelOk(p, [a, b]) && !LabelOk(p, [a, b, c])
  {
    var s, t := [a, b], [a, b, c];
    assert !HasRtl(p, s);
    assert p.direction(s[0]) != NSM;
    assert p.direction(t[2]) == R;
    assert !StartsRtl(p, t) && !StartsLtr(p, t);
  }

  /** Hebrew-like labels: R alone, R EN, R NSM are valid; R L and R EN AN are not. */
  lemma RightToLeft(p: Properties, r: nat, l: nat, n: nat, a: nat, m: nat)
    requires p.direction(r) == 7 && p.direction(l) == 6 && p.direction(n) == 5 && p.direction(a) == 10
    requires p.direction(m) == 8 && !p.mark(r)
    requires NoJoiner(r) && NoJoiner(l) && NoJoiner(n) && NoJoiner(a) && NoJoiner(m)
    ensures LabelOk(p, [r]) && LabelOk(p, [r, n]) && LabelOk(p, [r, m])
    ensures !LabelOk(p, [r, l]) && !LabelOk(p, [r, n, a]) && !LabelOk(p, [l, r])
  {
    hide LabelOk;
    Pass(p, [r]);
    Pass(p, [r, n]);
    Pass(p, [r, m]);
    Pass(p, [r, l]);
    Pass(p, [r, n, a]);
    Pass(p, [l, r]);
    Last(p, [r]);
    Last(p, [r, n]);
    Last(p, [r, m]);
    Last(p, [r, l]);
    Last(p, [r, n, a]);
    Last(p, [l, r]);
  }

  /** A label without joiners is read for Bidi only. */
  lemma Pass(p: Properties, s: Points)
    requires s != [] && forall i :: 0 <= i < |s| ==> NoJoiner(s[i])
    ensures LabelOk(p, s) <==> !p.mark(s[0]) && ScanPasses(p, s)
  {
    LabelInOnePass(p, s);
    assert ContextJ(p, s) by {
      forall i | 0 <= i < |s| ensures JoinerAllowed(p, s, i) {}
    }
    JoinersInOnePass(p, s);
    hide LabelOk, ScanPasses, JoinersRead, ContextJ;
  }

  /** The first steps of the pass. */
  lemma Last(p: Properties, s: Points)
    requires s != []
    ensures ScanOf(p, s, 0) == Scan(-1, false, false, false, false)
    ensures ScanOf(p, s, 1) == Next(ScanOf(p, s, 0), 0, p.direction(s[0]))
    ensures |s| > 1 ==> ScanOf(p, s, 2) == Next(ScanOf(p, s, 1), 1, p.direction(s[1]))
    ensures |s| > 2 ==> ScanOf(p, s, 3) == Next(ScanOf(p, s, 2), 2, p.direction(s[2]))
  {}
}
