/**
 * The decision logic of src/components/auth/form-components.tsx: the
 * five-check password-strength scorer (the register form carries an
 * identical private copy), the strength indicator's null / width rule, and
 * the accessibility wiring of `FormField`.
 */
module FormComponents {
  import opened Wrappers
  import opened Strings

  datatype Strength = Strength(score: nat, labelText: string, color: string)

  predicate HasLower(p: string) { exists i | 0 <= i < |p| :: IsAsciiLower(p[i]) }
  predicate HasUpper(p: string) { exists i | 0 <= i < |p| :: IsAsciiUpper(p[i]) }
  predicate HasDigit(p: string) { exists i | 0 <= i < |p| :: IsDigit(p[i]) }
  /** `/[^a-zA-Z\d]/`: some character that is neither an ASCII letter nor a digit. */
  predicate HasOther(p: string) { exists i | 0 <= i < |p| :: !IsAsciiLetter(p[i]) && !IsDigit(p[i]) }

  /** The five checks, in the order the scorer lists them. */
  function Checks(p: string): seq<bool> {
    [|p| >= 8, HasLower(p), HasUpper(p), HasDigit(p), HasOther(p)]
  }

  /** `checks.filter(Boolean).length`. */
  function CountTrue(bs: seq<bool>): (n: nat)
    ensures n <= |bs|
    ensures n == |bs| <==> forall i :: 0 <= i < |bs| ==> bs[i]
    ensures n == 0 <==> forall i :: 0 <= i < |bs| ==> !bs[i]
  {
    if bs == [] then 0
    else (if bs[0] then 1 else 0) + CountTrue(bs[1..])
  }

  /** The count is the number of `true` entries. */
  lemma {:induction false} CountTrueIsMultiplicity(bs: seq<bool>)
    ensures CountTrue(bs) == multiset(bs)[true]
  {
    if bs != [] {
      assert bs == [bs[0]] + bs[1..];
      CountTrueIsMultiplicity(bs[1..]);
    }
  }

  /** 1 for a satisfied check, 0 otherwise. */
  function Point(b: bool): nat { if b then 1 else 0 }

  function LabelFor(score: nat): string {
    if score < 2 then "Weak" else if score < 4 then "Fair" else if score < 5 then "Good" else "Strong"
  }

  function ColorFor(score: nat): string {
    if score < 2 then "bg-red-500" else if score < 4 then "bg-yellow-500"
    else if score < 5 then "bg-green-500" else "bg-green-600"
  }

  /** `getPasswordStrength`. */
  function GetPasswordStrength(password: string): (s: Strength)
    ensures password == [] ==> s == Strength(0, "", "")
    ensures s.score <= 5
    ensures password != [] ==> 1 <= s.score
    ensures s.score == 5 <==>
      |password| >= 8 && HasLower(password) && HasUpper(password) && HasDigit(password) && HasOther(password)
    ensures password != [] ==>
              s.score == Point(|password| >= 8) + Point(HasLower(password)) + Point(HasUpper(password))
                         + Point(HasDigit(password)) + Point(HasOther(password))
    ensures password != [] ==> s.labelText == LabelFor(s.score) && s.color == ColorFor(s.score)
  {
    if password == [] then Strength(0, "", "")
    else
      var checks := Checks(password);
      var score := CountTrue(checks);
      ChecksAddUp(password);
      EveryCharIsClassified(password);
      Strength(score, LabelFor(score), ColorFor(score))
  }

  /** The count of satisfied checks, spelled out check by check. */
  lemma ChecksAddUp(p: string)
    ensures CountTrue(Checks(p)) ==
      Point(|p| >= 8) + Point(HasLower(p)) + Point(HasUpper(p)) + Point(HasDigit(p)) + Point(HasOther(p))
  {
    var c := Checks(p);
    assert CountTrue(c) == Point(c[0]) + CountTrue(c[1..]);
    assert CountTrue(c[1..]) == Point(c[1]) + CountTrue(c[2..]);
    assert CountTrue(c[2..]) == Point(c[2]) + CountTrue(c[3..]);
    assert CountTrue(c[3..]) == Point(c[3]) + CountTrue(c[4..]);
    assert CountTrue(c[4..]) == Point(c[4]) + CountTrue(c[5..]);
  }

  /** Two of the five checks hold for "abcdefgh", which is rated Fair. */
  lemma LowerCaseOnlyIsFair()
    ensures GetPasswordStrength("abcdefgh") == Strength(2, "Fair", "bg-yellow-500")
  {
    var p := "abcdefgh";
    assert IsAsciiLower(p[0]);
    assert !HasUpper(p) && !HasDigit(p) && !HasOther(p) by {
      forall i | 0 <= i < |p| ensures IsAsciiLower(p[i]) {
      }
    }
  }

  /** Every character is a lower-case letter, an upper-case letter, a digit or something else. */
  lemma EveryCharIsClassified(p: string)
    requires p != []
    ensures HasLower(p) || HasUpper(p) || HasDigit(p) || HasOther(p)
  {
    var c := p[0];
    if IsAsciiLower(c) { assert HasLower(p); }
    else if IsAsciiUpper(c) { assert HasUpper(p); }
    else if IsDigit(c) { assert HasDigit(p); }
    else { assert HasOther(p); }
  }

  /** The rank of a label in the order Weak < Fair < Good < Strong. */
  function LabelRank(text: string): int {
    if text == "Weak" then 0 else if text == "Fair" then 1
    else if text == "Good" then 2 else if text == "Strong" then 3 else -1
  }

  /** A higher score never gives a weaker label. */
  lemma LabelMonotone(s1: nat, s2: nat)
    requires s1 <= s2
    ensures 0 <= LabelRank(LabelFor(s1)) <= LabelRank(LabelFor(s2))
  {
  }

  /** A password meeting the four length and character-class checks scores Good or Strong. */
  lemma FourChecksGiveGood(p: string)
    requires |p| >= 8 && HasLower(p) && HasUpper(p) && HasDigit(p)
    ensures GetPasswordStrength(p).score >= 4
    ensures GetPasswordStrength(p).labelText in {"Good", "Strong"}
  {
  }

  /**
   * `PasswordStrengthIndicator`: nothing for an empty password, otherwise a bar
   * whose width is `score / 5 * 100` percent (exact for scores 0..5).
   */
  function IndicatorWidth(password: string): (w: Option<nat>)
    ensures w.None? <==> password == []
    ensures w.Some? ==> 20 <= w.value <= 100 && w.value * 5 == GetPasswordStrength(password).score * 100
  {
    if password == [] then None else Some(GetPasswordStrength(password).score * 20)
  }

  /** The label's text colour class: red below 2, yellow below 4, green otherwise. */
  function LabelTextClass(score: nat): string {
    if score < 2 then "text-red-600" else if score < 4 then "text-yellow-600" else "text-green-600"
  }

  /** The label colour and the bar colour agree on which band a score is in. */
  lemma LabelTextAgreesWithBar(score: nat)
    ensures (LabelTextClass(score) == "text-red-600") == (ColorFor(score) == "bg-red-500")
    ensures (LabelTextClass(score) == "text-yellow-600") == (ColorFor(score) == "bg-yellow-500")
  {
  }

  // ---------------------------------------------------------------------
  // FormField accessibility wiring
  // ---------------------------------------------------------------------

  /** An `error` prop is shown when it is present and truthy (not the empty string). */
  predicate ErrorShown(error: Option<string>) { error.Some? && error.value != "" }

  /** What `FormField` renders for accessibility: the input's two aria attributes and the id of the error paragraph. */
  datatype FieldAria = FieldAria(ariaInvalid: bool, ariaDescribedBy: Option<string>, errorParagraphId: Option<string>)

  function FormFieldAria(name: string, error: Option<string>): (a: FieldAria)
    ensures a.ariaInvalid <==> ErrorShown(error)
    ensures a.ariaDescribedBy.Some? <==> a.ariaInvalid
    ensures a.ariaDescribedBy.Some? ==> a.ariaDescribedBy.value == name + "-error"
    ensures a.ariaDescribedBy == a.errorParagraphId
  {
    if ErrorShown(error) then FieldAria(true, Some(name + "-error"), Some(name + "-error"))
    else FieldAria(false, None, None)
  }
}
