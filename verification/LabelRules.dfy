/** The label rules that validity checks: ContextJ (Appendices A.1 and A.2 of RFC 5892) and the
    Bidi rule (section 2 of RFC 5893). */
module LabelRules {
  import opened Basics

  const ZWNJ := 0x200C
  const ZWJ := 0x200D
  const VIRAMA := 9

  /** Bidi_Class values, numbered as in src/validity.cpp:11-36. */
  const NONE := 0
  const BN := 1
  const CS := 2
  const ES := 3
  const ON := 4
  const EN := 5
  const L := 6
  const R := 7
  const NSM := 8
  const AL := 9
  const AN := 10
  const ET := 11

  /** Joining_Type values, numbered as in src/validity.cpp:40. */
  const JT_U := 0
  const JT_C := 1
  const JT_D := 2
  const JT_L := 3
  const JT_R := 4
  const JT_T := 5

  /** What the rules need to know about code points. */
  datatype Properties = Properties(mark: nat -> bool, direction: nat -> nat, joining: nat -> nat, ccc: nat -> nat)

  // ---------------------------------------------------------------- ContextJ

  predicate AfterVirama(p: Properties, s: Points, i: nat)
    requires i < |s|
  {
    i > 0 && p.ccc(s[i - 1]) == VIRAMA
  }

  /** `(Joining_Type:{L,D})(Joining_Type:T)*` right before place `i`. */
  predicate JoinsBefore(p: Properties, s: Points, i: nat)
    requires i <= |s|
  {
    exists a :: 0 <= a < i && p.joining(s[a]) in {JT_L, JT_D} && forall k :: a < k < i ==> p.joining(s[k]) == JT_T
  }

  /** `(Joining_Type:T)*(Joining_Type:{R,D})` from place `i` on. */
  predicate JoinsAfter(p: Properties, s: Points, i: nat)
    requires i <= |s|
  {
    exists b :: i <= b < |s| && p.joining(s[b]) in {JT_R, JT_D} && forall k :: i <= k < b ==> p.joining(s[k]) == JT_T
  }

  /** Rule A.1 for U+200C, rule A.2 for U+200D. */
  predicate JoinerAllowed(p: Properties, s: Points, i: nat)
    requires i < |s|
  {
    && (s[i] == ZWNJ ==> AfterVirama(p, s, i) || (JoinsBefore(p, s, i) && JoinsAfter(p, s, i + 1)))
    && (s[i] == ZWJ ==> AfterVirama(p, s, i))
  }

  predicate ContextJ(p: Properties, s: Points) {
    forall i :: 0 <= i < |s| ==> JoinerAllowed(p, s, i)
  }

  // ---------------------------------------------------------------- Bidi

  predicate AllowedInRtl(d: nat) { d in {R, AL, AN, EN, ES, CS, ET, ON, BN, NSM} }
  predicate AllowedInLtr(d: nat) { d in {L, EN, ES, CS, ET, ON, BN, NSM} }

  predicate StartsRtl(p: Properties, s: Points) { s != [] && p.direction(s[0]) in {R, AL} }
  predicate StartsLtr(p: Properties, s: Points) { s != [] && p.direction(s[0]) == L }

  predicate Contains(p: Properties, s: Points, d: nat) {
    exists i :: 0 <= i < |s| && p.direction(s[i]) == d
  }

  /** The label ends with a character whose class is in `ends`, followed by class NSM only. */
  predicate EndsWith(p: Properties, s: Points, ends: set<nat>) {
    exists e :: 0 <= e < |s| && p.direction(s[e]) in ends && forall k :: e < k < |s| ==> p.direction(s[k]) == NSM
  }

  /** The first character is L, R or AL. */
  predicate Condition1(p: Properties, s: Points) { StartsRtl(p, s) || StartsLtr(p, s) }

  /** An RTL label has only allowed characters. */
  predicate Condition2(p: Properties, s: Points) {
    StartsRtl(p, s) ==> forall i :: 0 <= i < |s| ==> AllowedInRtl(p.direction(s[i]))
  }

  /** An RTL label ends in R, AL, EN or AN before its NSM. */
  predicate Condition3(p: Properties, s: Points) { StartsRtl(p, s) ==> EndsWith(p, s, {R, AL, EN, AN}) }

  /** An RTL label does not have both EN and AN. */
  predicate Condition4(p: Properties, s: Points) { StartsRtl(p, s) ==> !(Contains(p, s, EN) && Contains(p, s, AN)) }

  /** An LTR label has only allowed characters. */
  predicate Condition5(p: Properties, s: Points) {
    StartsLtr(p, s) ==> forall i :: 0 <= i < |s| ==> AllowedInLtr(p.direction(s[i]))
  }

  /** An LTR label ends in L or EN before its NSM. */
  predicate Condition6(p: Properties, s: Points) { StartsLtr(p, s) ==> EndsWith(p, s, {L, EN}) }

  predicate BidiRule(p: Properties, s: Points) {
    && Condition1(p, s) && Condition2(p, s) && Condition3(p, s)
    && Condition4(p, s) && Condition5(p, s) && Condition6(p, s)
  }

  /** A label with a character of class R, AL or AN. */
  predicate HasRtl(p: Properties, s: Points) {
    Contains(p, s, R) || Contains(p, s, AL) || Contains(p, s, AN)
  }

  /** Some character is not NSM. */
  predicate HasBase(p: Properties, s: Points) {
    exists i :: 0 <= i < |s| && p.direction(s[i]) != NSM
  }

  /** A label with R, AL or AN meets the six conditions only if it starts with R or AL. */
  lemma RtlLabelsStartRtl(p: Properties, s: Points)
    requires HasRtl(p, s) && BidiRule(p, s)
    ensures StartsRtl(p, s)
  {}

  /** The conditions leave no room for a label of NSM only. */
  lemma BidiRuleHasBase(p: Properties, s: Points)
    requires BidiRule(p, s)
    ensures HasBase(p, s)
  {
    assert p.direction(s[0]) != NSM;
  }
}
