/**
 * The register form of src/components/auth/register-form.tsx: the field
 * rules of its schema (first failing rule's message per field), the
 * cross-field password confirmation, what the submit handler forwards, and
 * how it routes a failure message to a field. Its private password-strength
 * helper is the same function as `FormComponents.GetPasswordStrength`.
 */
module RegisterForm {
  import opened Wrappers
  import opened Strings
  import FormComponents
  import LoginForm

  datatype RegisterField = Username | Email | Password | ConfirmPassword | AcceptTerms

  datatype RegisterData = RegisterData(
    username: string, email: string, password: string, confirmPassword: string, acceptTerms: bool)

  /** What `onSubmit` receives: the register data without `confirmPassword` and `acceptTerms`. */
  datatype Credentials = Credentials(username: string, email: string, password: string)

  /** `[a-zA-Z0-9_-]`. */
  predicate IsUsernameChar(c: char) { IsAsciiLetter(c) || IsDigit(c) || c == '_' || c == '-' }

  /** The username rule: `min(1)`, `min(3)`, `max(20)`, then `/^[a-zA-Z0-9_-]+$/`. */
  function UsernameError(username: string): (r: Option<string>)
    ensures r.None? <==> 3 <= |username| <= 20 && forall i :: 0 <= i < |username| ==> IsUsernameChar(username[i])
    ensures username == [] ==> r == Some("Username is required")
    ensures 0 < |username| < 3 ==> r == Some("Username must be at least 3 characters")
    ensures |username| > 20 ==> r == Some("Username must be less than 20 characters")
    ensures 3 <= |username| <= 20 && (exists i :: 0 <= i < |username| && !IsUsernameChar(username[i])) ==>
      r == Some("Username can only contain letters, numbers, hyphens, and underscores")
  {
    if |username| < 1 then Some("Username is required")
    else if |username| < 3 then Some("Username must be at least 3 characters")
    else if |username| > 20 then Some("Username must be less than 20 characters")
    else if exists i | 0 <= i < |username| :: !IsUsernameChar(username[i]) then
      Some("Username can only contain letters, numbers, hyphens, and underscores")
    else None
  }

  /** The characters JavaScript's `.` does not match. */
  predicate IsLineTerminator(c: char) {
    c == '\n' || c == '\r' || c as int == 0x2028 || c as int == 0x2029
  }

  /** The text before the first line terminator: all that a `(?=.*X)` look-ahead at position 0 can see. */
  function FirstLine(s: string): (r: string)
    ensures |r| <= |s| && r == s[..|r|]
    ensures forall i :: 0 <= i < |r| ==> !IsLineTerminator(r[i])
    ensures |r| < |s| ==> IsLineTerminator(s[|r|])
  {
    if s == [] || IsLineTerminator(s[0]) then [] else [s[0]] + FirstLine(s[1..])
  }

  /** `/^(?=.*[a-z])(?=.*[A-Z])(?=.*\d)/`. */
  predicate PasswordPatternOk(p: string) {
    var line := FirstLine(p);
    FormComponents.HasLower(line) && FormComponents.HasUpper(line) && FormComponents.HasDigit(line)
  }

  /** The password rule: `min(1)`, `min(8)`, then the three look-aheads. */
  function PasswordError(password: string): (r: Option<string>)
    ensures r.None? <==> |password| >= 8 && PasswordPatternOk(password)
    ensures password == [] ==> r == Some("Password is required")
    ensures 0 < |password| < 8 ==> r == Some("Password must be at least 8 characters")
    ensures |password| >= 8 && !PasswordPatternOk(password) ==>
      r == Some("Password must contain at least one lowercase letter, one uppercase letter, and one number")
  {
    if |password| < 1 then Some("Password is required")
    else if |password| < 8 then Some("Password must be at least 8 characters")
    else if !PasswordPatternOk(password) then
      Some("Password must contain at least one lowercase letter, one uppercase letter, and one number")
    else None
  }

  /** `confirmPassword`: its own `min(1)` rule, then the object-level match refinement reported on it. */
  function ConfirmError(password: string, confirm: string): (r: Option<string>)
    ensures r.None? <==> confirm != [] && confirm == password
    ensures confirm == [] ==> r == Some("Please confirm your password")
    ensures confirm != [] && confirm != password ==> r == Some("Passwords don't match")
  {
    if |confirm| < 1 then Some("Please confirm your password")
    else if password != confirm then Some("Passwords don't match")
    else None
  }

  function TermsError(accepted: bool): (r: Option<string>)
    ensures r.None? <==> accepted
    ensures !accepted ==> r == Some("You must accept the terms and conditions")
  {
    if accepted then None else Some("You must accept the terms and conditions")
  }

  /** The message of the first failing rule of one field, if any. */
  function FieldError(d: RegisterData, emailFormatOk: bool, f: RegisterField): Option<string> {
    match f
    case Username => UsernameError(d.username)
    case Email => LoginForm.EmailError(d.email, emailFormatOk)
    case Password => PasswordError(d.password)
    case ConfirmPassword => ConfirmError(d.password, d.confirmPassword)
    case AcceptTerms => TermsError(d.acceptTerms)
  }

  const AllFields: set<RegisterField> := {Username, Email, Password, ConfirmPassword, AcceptTerms}

  /** The field errors the schema reports for a submission. */
  function Validate(d: RegisterData, emailFormatOk: bool): (errors: map<RegisterField, string>)
    ensures Username in errors <==> UsernameError(d.username).Some?
    ensures Email in errors <==> LoginForm.EmailError(d.email, emailFormatOk).Some?
    ensures Password in errors <==> PasswordError(d.password).Some?
    ensures ConfirmPassword in errors <==> ConfirmError(d.password, d.confirmPassword).Some?
    ensures AcceptTerms in errors <==> !d.acceptTerms
    ensures forall f :: f in errors ==> FieldError(d, emailFormatOk, f) == Some(errors[f])
  {
    map f | f in AllFields && FieldError(d, emailFormatOk, f).Some? :: FieldError(d, emailFormatOk, f).value
  }

  /** The schema accepts a submission exactly when every field rule holds. */
  lemma AcceptedIff(d: RegisterData, emailFormatOk: bool)
    ensures Validate(d, emailFormatOk) == map[] <==>
      3 <= |d.username| <= 20 && (forall i :: 0 <= i < |d.username| ==> IsUsernameChar(d.username[i]))
      && |d.email| >= 1 && emailFormatOk
      && |d.password| >= 8 && PasswordPatternOk(d.password)
      && d.confirmPassword == d.password
      && d.acceptTerms
  {
    var errors := Validate(d, emailFormatOk);
    if errors != map[] {
      var f :| f in errors;
    }
  }

  /** A mismatched confirmation is reported on `confirmPassword`; unaccepted terms on `acceptTerms`. */
  lemma MismatchAndTermsRejected(d: RegisterData, emailFormatOk: bool)
    ensures d.confirmPassword != d.password ==> ConfirmPassword in Validate(d, emailFormatOk)
    ensures d.confirmPassword != d.password && d.confirmPassword != [] ==>
      Validate(d, emailFormatOk)[ConfirmPassword] == "Passwords don't match"
    ensures !d.acceptTerms ==> AcceptTerms in Validate(d, emailFormatOk)
  {
  }

  /** Every password the schema accepts is rated Good or Strong by the strength meter. */
  lemma AcceptedPasswordIsStrong(p: string)
    requires PasswordError(p).None?
    ensures FormComponents.GetPasswordStrength(p).score >= 4
    ensures FormComponents.GetPasswordStrength(p).labelText in {"Good", "Strong"}
  {
    var line := FirstLine(p);
    var i :| 0 <= i < |line| && IsAsciiLower(line[i]);
    var j :| 0 <= j < |line| && IsAsciiUpper(line[j]);
    var k :| 0 <= k < |line| && IsDigit(line[k]);
    assert p[i] == line[i] && p[j] == line[j] && p[k] == line[k];
    FormComponents.FourChecksGiveGood(p);
  }

  /** The look-aheads see only the first line: a digit after a line break does not count. */
  lemma DigitAfterLineBreakIgnored()
    ensures PasswordError("Abcdefgh\n1").Some?
  {
    var first := "Abcdefgh";
    FirstLineEndsAtBreak(first, "1");
    assert first + "\n" + "1" == "Abcdefgh\n1";
    assert !FormComponents.HasDigit(first) by {
      forall i | 0 <= i < |first| ensures !IsDigit(first[i]) {}
    }
  }

  /** A line followed by a line break is all that `FirstLine` keeps. */
  lemma {:induction false} FirstLineEndsAtBreak(line: string, rest: string)
    requires forall i :: 0 <= i < |line| ==> !IsLineTerminator(line[i])
    ensures FirstLine(line + "\n" + rest) == line
  {
    if line == [] {
      assert line + "\n" + rest == "\n" + rest;
    } else {
      assert (line + "\n" + rest)[1..] == line[1..] + "\n" + rest;
      FirstLineEndsAtBreak(line[1..], rest);
      assert line == [line[0]] + line[1..];
    }
  }

  // ---------------------------------------------------------------------
  // handleFormSubmit
  // ---------------------------------------------------------------------

  /** What the submit handler passes to `onSubmit`. */
  function Forwarded(d: RegisterData): (c: Credentials)
    ensures c.username == d.username && c.email == d.email && c.password == d.password
  {
    Credentials(d.username, d.email, d.password)
  }

  /** The form-level message: an `Error`'s own message, otherwise a fixed fallback. */
  function RegisterErrorMessage(t: LoginForm.Thrown): (m: string)
    ensures t.ErrorObject? ==> m == t.message
    ensures t.NonError? ==> m == "An error occurred during registration"
  {
    match t
    case ErrorObject(m) => m
    case NonError => "An error occurred during registration"
  }

  /** The field a failure message is attached to: username, then email, then password, else none. */
  function RegisterErrorField(message: string): (f: Option<RegisterField>)
    ensures f.Some? ==> f.value in {Username, Email, Password}
    ensures f == Some(Username) <==> Contains(Lower(message), "username")
    ensures f == Some(Email) <==> !Contains(Lower(message), "username") && Contains(Lower(message), "email")
    ensures f.None? <==>
      !Contains(Lower(message), "username") && !Contains(Lower(message), "email") && !Contains(Lower(message), "password")
  {
    var lowered := Lower(message);
    if Contains(lowered, "username") then Some(Username)
    else if Contains(lowered, "email") then Some(Email)
    else if Contains(lowered, "password") then Some(Password)
    else None
  }

  /**
   * The two forms route a message alike unless it mentions "username", which
   * only the register form knows; such a message goes to `username` even when
   * it also mentions "email" or "password".
   */
  lemma RoutingAgreesWithLogin(message: string)
    ensures !Contains(Lower(message), "username") ==>
      (RegisterErrorField(message) == Some(Email) <==> LoginForm.LoginErrorField(message) == Some(LoginForm.Email))
      && (RegisterErrorField(message) == Some(Password) <==> LoginForm.LoginErrorField(message) == Some(LoginForm.Password))
      && (RegisterErrorField(message).None? <==> LoginForm.LoginErrorField(message).None?)
    ensures Contains(Lower(message), "username") ==> RegisterErrorField(message) == Some(Username)
  {
  }

  lemma UsernameMentionWins()
    ensures RegisterErrorField("Username or email taken") == Some(Username)
    ensures LoginForm.LoginErrorField("Username or email taken") == Some(LoginForm.Email)
  {
    var l := Lower("Username or email taken");
    assert l[..8] == "username";
    assert OccursAt(l, "username", 0);
    assert l[12..17] == "email";
    assert OccursAt(l, "email", 12);
  }

  class RegisterFormState {
    var submitError: string
    var fieldErrors: map<RegisterField, string>

    constructor ()
      ensures submitError == "" && fieldErrors == map[]
    {
      submitError := "";
      fieldErrors := map[];
    }

    /**
     * `handleFormSubmit`: clear the form-level message, forward only the
     * credentials, and on failure record the message and attach it to at most
     * one field.
     */
    method HandleFormSubmit(data: RegisterData, outcome: LoginForm.Outcome) returns (sent: Credentials)
      modifies this
      ensures sent == Forwarded(data)
      ensures outcome.Resolved? ==> submitError == "" && fieldErrors == old(fieldErrors)
      ensures outcome.Rejected? ==>
        var m := RegisterErrorMessage(outcome.thrown);
        submitError == m
        && fieldErrors == match RegisterErrorField(m)
                          case None => old(fieldErrors)
                          case Some(f) => old(fieldErrors)[f := m]
    {
      submitError := "";
      sent := Credentials(data.username, data.email, data.password);
      if outcome.Rejected? {
        var m := RegisterErrorMessage(outcome.thrown);
        submitError := m;
        var field := RegisterErrorField(m);
        if field.Some? {
          fieldErrors := fieldErrors[field.value := m];
        }
      }
    }
  }
}
