/** The label checks of src/validity.cpp, proved against `LabelRules`. */
module ValidityImpl {
  import opened Basics
  import opened Ranges
  import opened LabelRules
  import NormalizationTables

  /** The range tables of src/table_store.hpp that validity reads, and those with the classes. */
  datatype Tables = Tables(
    combiningStart: seq<nat>, combiningLast: seq<nat>,
    dirStart: seq<nat>, dirFinal: seq<nat>, dirValue: seq<nat>,
    joiningStart: seq<nat>, joiningFinal: seq<nat>, joiningValue: seq<nat>,
    classes: NormalizationTables.Tables)

  predicate Valid(t: Tables) {
    && Separate(t.combiningStart, t.combiningLast)
    && Separate(t.dirStart, t.dirFinal) && |t.dirValue| == |t.dirStart|
    && Separate(t.joiningStart, t.joiningFinal) && |t.joiningValue| == |t.joiningStart|
    && NormalizationTables.Shape(t.classes)
  }

  function DirectionAt(t: Tables, c: nat): nat
    requires Valid(t)
  {
    var i := RangeIndex(t.dirStart, t.dirFinal, c, 0);
    if i == |t.dirStart| then NONE else t.dirValue[i]
  }

  function JoiningAt(t: Tables, c: nat): nat
    requires Valid(t)
  {
    var i := RangeIndex(t.joiningStart, t.joiningFinal, c, 0);
    if i == |t.joiningStart| then JT_U else t.joiningValue[i]
  }

  predicate MarkAt(t: Tables, c: nat)
    requires Valid(t)
  {
    RangeIndex(t.combiningStart, t.combiningLast, c, 0) < |t.combiningStart|
  }

  /** What the tables say about code points. */
  function Meaning(t: Tables): Properties
    requires Valid(t)
  {
    Properties((c: nat) => MarkAt(t, c), (c: nat) => DirectionAt(t, c), (c: nat) => JoiningAt(t, c),
               (c: nat) => NormalizationTables.CccAt(t.classes, c))
  }

  method FindDirection(t: Tables, c: nat) returns (d: nat)
    requires Valid(t)
    ensures d == Meaning(t).direction(c)
  {
    var i := FindRange(t.dirStart, t.dirFinal, c);
    d := if i == |t.dirStart| then NONE else t.dirValue[i];
  }

  method FindJoiningType(t: Tables, c: nat) returns (j: nat)
    requires Valid(t)
    ensures j == Meaning(t).joining(c)
  {
    var i := FindRange(t.joiningStart, t.joiningFinal, c);
    j := if i == |t.joiningStart| then JT_U else t.joiningValue[i];
  }

  // ---------------------------------------------------------------- ContextJ

  /** The joining type that stops the scan to the left, U at the start of the label. */
  method ScanBefore(t: Tables, s: Points, i: nat) returns (before: nat)
    requires Valid(t) && i < |s|
    ensures before == JT_L || before == JT_D <==> JoinsBefore(Meaning(t), s, i)
  {
    ghost var p := Meaning(t);
    hide Meaning, Valid;
    before := JT_U;
    var j := i;
    while j > 0
      invariant 0 <= j <= i
      invariant if j == i then before == JT_U else before == JT_T
      invariant forall k :: j <= k < i ==> p.joining(s[k]) == JT_T
    {
      j := j - 1;
      before := FindJoiningType(t, s[j]);
      if before != JT_T { break; }
    }
    if before == JT_L || before == JT_D {
      assert p.joining(s[j]) in {JT_L, JT_D};
    }
  }

  method ScanAfter(t: Tables, s: Points, i: nat) returns (after: nat)
    requires Valid(t) && i <= |s|
    ensures after == JT_R || after == JT_D <==> JoinsAfter(Meaning(t), s, i)
  {
    ghost var p := Meaning(t);
    hide Meaning, Valid;
    after := JT_U;
    var j := i;
    while j < |s|
      invariant i <= j <= |s|
      invariant if j == i then after == JT_U else after == JT_T
      invariant forall k :: i <= k < j ==> p.joining(s[k]) == JT_T
    {
      after := FindJoiningType(t, s[j]);
      if after != JT_T { break; }
      j := j + 1;
    }
    if after == JT_R || after == JT_D {
      assert p.joining(s[j]) in {JT_R, JT_D};
    }
  }

  /** `is_contextj_valid` accepts exactly the labels that satisfy the rules. */
  method IsContextJValid(t: Tables, s: Points) returns (valid: bool)
    requires Valid(t)
    ensures valid <==> ContextJ(Meaning(t), s)
  {
    ghost var p := Meaning(t);
    hide JoinsBefore, JoinsAfter;
    for i := 0 to |s|
      invariant forall k :: 0 <= k < i ==> JoinerAllowed(p, s, k)
    {
      if s[i] != ZWNJ && s[i] != ZWJ { continue; }
      if i > 0 && NormalizationTables.CccAt(t.classes, s[i - 1]) == VIRAMA { continue; }
      assert !AfterVirama(p, s, i);
      if s[i] == ZWJ {
        assert !JoinerAllowed(p, s, i);
        return false;
      }
      var before := ScanBefore(t, s, i);
      if before != JT_L && before != JT_D {
        assert !JoinerAllowed(p, s, i);
        return false;
      }
      var after := ScanAfter(t, s, i + 1);
      if after != JT_R && after != JT_D {
        assert !JoinerAllowed(p, s, i);
        return false;
      }
    }
    valid := true;
  }

  // ---------------------------------------------------------------- Bidi

  const NPOS := -1

  method FindLastNotOfNsm(t: Tables, s: Points) returns (last: int)
    requires Valid(t)
    ensures last == NPOS ==> !HasBase(Meaning(t), s)
    ensures last != NPOS ==> 0 <= last < |s| && Meaning(t).direction(s[last]) != NSM
    ensures forall k :: last < k < |s| ==> 0 <= k ==> Meaning(t).direction(s[k]) == NSM
  {
    ghost var p := Meaning(t);
    hide Meaning, Valid;
    var i: int := |s| - 1;
    while i >= 0
      invariant -1 <= i < |s|
      invariant forall k :: i < k < |s| ==> p.direction(s[k]) == NSM
    {
      var d := FindDirection(t, s[i]);
      if d != NSM { return i; }
      i := i - 1;
    }
    last := NPOS;
  }

  /** The bit mask of directions, as a set. */
  method IsRtlLabel(t: Tables, s: Points) returns (rtl: bool)
    requires Valid(t)
    ensures rtl <==> HasRtl(Meaning(t), s)
  {
    ghost var p := Meaning(t);
    hide Meaning, Valid;
    var directions: set<nat> := {};
    for i := 0 to |s|
      invariant forall d :: d in directions <==> exists k :: 0 <= k < i && p.direction(s[k]) == d
    {
      var d := FindDirection(t, s[i]);
      ghost var before := directions;
      directions := directions + {d};
      forall e ensures e in directions <==> exists k :: 0 <= k < i + 1 && p.direction(s[k]) == e {
        if e in before { var k :| 0 <= k < i && p.direction(s[k]) == e; }
        if e == d { assert p.direction(s[i]) == e; }
      }
    }
    rtl := R in directions || AL in directions || AN in directions;
  }

  /** The end of the label before its NSM is the last character that is not NSM. */
  lemma LastCharacter(p: Properties, s: Points, last: nat, ends: set<nat>)
    requires last < |s| && p.direction(s[last]) != NSM && NSM !in ends
    requires forall k :: last < k < |s| ==> p.direction(s[k]) == NSM
    ensures EndsWith(p, s, ends) <==> p.direction(s[last]) in ends
  {
    if e :| 0 <= e < |s| && p.direction(s[e]) in ends && forall k :: e < k < |s| ==> p.direction(s[k]) == NSM {
      assert e == last;
    }
  }

  predicate AllLtr(p: Properties, s: Points, n: nat)
    requires n <= |s|
  {
    forall k :: 0 <= k < n ==> AllowedInLtr(p.direction(s[k]))
  }

  predicate AllRtl(p: Properties, s: Points, n: nat)
    requires n <= |s|
  {
    forall k :: 0 <= k < n ==> AllowedInRtl(p.direction(s[k]))
  }

  predicate Has(p: Properties, s: Points, n: nat, d: nat)
    requires n <= |s|
  {
    exists k :: 0 <= k < n && p.direction(s[k]) == d
  }

  lemma HasStep(p: Properties, s: Points, i: nat, d: nat)
    requires i < |s|
    ensures Has(p, s, i + 1, d) <==> Has(p, s, i, d) || p.direction(s[i]) == d
  {}

  lemma HasMore(p: Properties, s: Points, m: nat, n: nat, d: nat)
    requires m <= n <= |s| && Has(p, s, m, d)
    ensures Has(p, s, n, d)
  {}

  predicate EndsLtr(d: nat) { d == L || d == EN }
  predicate EndsRtl(d: nat) { d == R || d == AL || d == AN || d == EN }

  /** What is left of the rule for a left-to-right label whose trailing NSM are set aside. */
  lemma LtrRule(p: Properties, s: Points, last: nat)
    requires last < |s| && StartsLtr(p, s) && p.direction(s[last]) != NSM
    requires forall k :: last < k < |s| ==> p.direction(s[k]) == NSM
    ensures BidiRule(p, s) <==> AllLtr(p, s, last + 1) && EndsLtr(p.direction(s[last]))
  {
    LastCharacter(p, s, last, {L, EN});
    hide EndsWith;
    if AllLtr(p, s, last + 1) {
      forall k | 0 <= k < |s| ensures AllowedInLtr(p.direction(s[k])) {}
    }
  }

  /** And for a right-to-left label. */
  lemma RtlRule(p: Properties, s: Points, last: nat)
    requires last < |s| && StartsRtl(p, s) && p.direction(s[last]) != NSM
    requires forall k :: last < k < |s| ==> p.direction(s[k]) == NSM
    ensures BidiRule(p, s) <==>
      && AllRtl(p, s, last + 1) && !(Has(p, s, last + 1, EN) && Has(p, s, last + 1, AN))
      && EndsRtl(p.direction(s[last]))
  {
    LastCharacter(p, s, last, {R, AL, EN, AN});
    hide EndsWith;
    ContainsHas(p, s, last, EN);
    ContainsHas(p, s, last, AN);
    hide Has, Contains;
    if AllRtl(p, s, last + 1) {
      forall k | 0 <= k < |s| ensures AllowedInRtl(p.direction(s[k])) {}
    }
  }

  lemma ContainsHas(p: Properties, s: Points, last: nat, d: nat)
    requires last < |s| && d != NSM
    requires forall k :: last < k < |s| ==> p.direction(s[k]) == NSM
    ensures Contains(p, s, d) <==> Has(p, s, last + 1, d)
  {}

  /** The left-to-right branch: conditions 5 and 6. */
  method CheckLtr(t: Tables, s: Points, last: nat) returns (ok: bool)
    requires Valid(t) && last < |s| && StartsLtr(Meaning(t), s)
    requires Meaning(t).direction(s[last]) != NSM
    requires forall k :: last < k < |s| ==> Meaning(t).direction(s[k]) == NSM
    ensures ok <==> BidiRule(Meaning(t), s)
  {
    ghost var p := Meaning(t);
    LtrRule(p, s, last);
    hide Meaning, Valid, BidiRule, AllowedInLtr, StartsLtr;
    for i := 0 to last + 1
      invariant AllLtr(p, s, i)
    {
      var d := FindDirection(t, s[i]);
      LtrClasses(d);
      if !(d == L || d == EN || d == ES || d == CS || d == ET || d == ON || d == BN || d == NSM) {
        assert !AllowedInLtr(p.direction(s[i]));
        return false;
      }
    }
    var lastDir := FindDirection(t, s[last]);
    ok := lastDir == L || lastDir == EN;
  }

  lemma LtrClasses(d: nat)
    ensures AllowedInLtr(d) <==> d == L || d == EN || d == ES || d == CS || d == ET || d == ON || d == BN || d == NSM
  {}

  lemma RtlClasses(d: nat)
    ensures AllowedInRtl(d) <==>
      d == R || d == AL || d == AN || d == EN || d == ES || d == CS || d == ET || d == ON || d == BN || d == NSM
  {}

  /** The right-to-left branch: conditions 2, 3 and 4 in one pass. */
  method CheckRtl(t: Tables, s: Points, last: nat) returns (ok: bool)
    requires Valid(t) && last < |s| && StartsRtl(Meaning(t), s)
    requires Meaning(t).direction(s[last]) != NSM
    requires forall k :: last < k < |s| ==> Meaning(t).direction(s[k]) == NSM
    ensures ok <==> BidiRule(Meaning(t), s)
  {
    ghost var p := Meaning(t);
    RtlRule(p, s, last);
    hide Meaning, Valid, BidiRule, AllowedInRtl, StartsRtl, Has;
    var hasAn, hasEn := false, false;
    NoneYet(p, s);
    for i := 0 to last + 1
      invariant AllRtl(p, s, i)
      invariant hasAn == Has(p, s, i, AN) && hasEn == Has(p, s, i, EN)
      invariant !(hasAn && hasEn)
      invariant i == last + 1 ==> EndsRtl(p.direction(s[last]))
    {
      var d := FindDirection(t, s[i]);
      HasStep(p, s, i, AN);
      HasStep(p, s, i, EN);
      if d == EN { hasEn := true; }
      if d == AN { hasAn := true; }
      if (d == EN || d == AN) && hasAn && hasEn {
        HasMore(p, s, i + 1, last + 1, AN);
        HasMore(p, s, i + 1, last + 1, EN);
        return false;
      }
      RtlClasses(d);
      if !(d == R || d == AL || d == AN || d == EN || d == ES || d == CS || d == ET || d == ON || d == BN || d == NSM) {
        assert !AllowedInRtl(p.direction(s[i]));
        return false;
      }
      if i == last && !(d == R || d == AL || d == AN || d == EN) { return false; }
    }
    ok := true;
  }

  lemma NoneYet(p: Properties, s: Points)
    ensures forall d :: !Has(p, s, 0, d)
  {}

  /** What the code requires of a label beyond ContextJ and its first character: a character that
      is not NSM, and the Bidi rule if it has a character of class R, AL or AN. */
  predicate BidiPart(p: Properties, s: Points) {
    HasBase(p, s) && (HasRtl(p, s) ==> BidiRule(p, s))
  }

  /** For a label with R, AL or AN, that is the Bidi rule; and the label begins with R or AL. */
  lemma BidiPartIsRule(p: Properties, s: Points)
    requires HasRtl(p, s)
    ensures BidiPart(p, s) <==> BidiRule(p, s)
    ensures BidiPart(p, s) ==> StartsRtl(p, s)
  {
    if BidiRule(p, s) {
      BidiRuleHasBase(p, s);
      RtlLabelsStartRtl(p, s);
    }
  }

  method CheckBidi(t: Tables, s: Points) returns (ok: bool)
    requires Valid(t) && s != []
    ensures ok <==> BidiPart(Meaning(t), s)
  {
    ghost var p := Meaning(t);
    hide Meaning, Valid, BidiRule, HasRtl;
    var last := FindLastNotOfNsm(t, s);
    if last == NPOS { return false; }
    var rtl := IsRtlLabel(t, s);
    if rtl {
      var first := FindDirection(t, s[0]);
      if first == L {
        ok := CheckLtr(t, s, last);
        return;
      }
      if first != R && first != AL {
        NoDirection(p, s);
        return false;
      }
      ok := CheckRtl(t, s, last);
      return;
    }
    ok := true;
  }

  lemma NoDirection(p: Properties, s: Points)
    requires !StartsRtl(p, s) && !StartsLtr(p, s)
    ensures !BidiRule(p, s)
  {}

  /** A label that may appear: empty, or not beginning with a combining mark and meeting the rules. */
  predicate LabelOk(p: Properties, s: Points) {
    s == [] || (!p.mark(s[0]) && ContextJ(p, s) && BidiPart(p, s))
  }

  /** `is_label_valid`; `ready` is what `ensure_tables` returned. */
  method IsLabelValid(t: Tables, ready: bool, s: Points) returns (valid: bool)
    requires ready ==> Valid(t)
    ensures s == [] ==> valid
    ensures s != [] && !ready ==> !valid
    ensures ready ==> (valid <==> LabelOk(Meaning(t), s))
  {
    if s == [] { return true; }
    if !ready { return false; }
    ghost var p := Meaning(t);
    var i := FindRange(t.combiningStart, t.combiningLast, s[0]);
    assert p.mark(s[0]) <==> i < |t.combiningStart|;
    hide Meaning, Valid, ContextJ, BidiPart;
    if i < |t.combiningStart| { return false; }
    var joiners := IsContextJValid(t, s);
    if !joiners { return false; }
    valid := CheckBidi(t, s);
  }
}
