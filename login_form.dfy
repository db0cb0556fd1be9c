/**
 * The login form of src/components/auth/login-form.tsx: the field rules of
 * its schema (first failing rule's message per field, as the form shows it),
 * the `rememberMe` default, and the submit handler's error bookkeeping.
 * The e-mail format test of the validation library is not visible; it enters
 * the model as the boolean `emailFormatOk`.
 */
module LoginForm {
  import opened Wrappers
  import opened Strings

  datatype LoginField = Email | Password | RememberMe

  /** The parsed form data passed on to `onSubmit`. */
  datatype LoginData = LoginData(email: string, password: string, rememberMe: bool)

  /** The e-mail rule, shared word for word by the register form: required, then well-formed. */
  function EmailError(email: string, emailFormatOk: bool): (r: Option<string>)
    ensures r.None? <==> |email| >= 1 && emailFormatOk
    ensures email == [] ==> r == Some("Email is required")
    ensures email != [] && !emailFormatOk ==> r == Some("Please enter a valid email address")
  {
    if |email| < 1 then Some("Email is required")
    else if !emailFormatOk then Some("Please enter a valid email address")
    else None
  }

  /** The password rule: `min(1)` then `min(6)`. */
  function PasswordError(password: string): (r: Option<string>)
    ensures r.None? <==> |password| >= 6
    ensures password == [] ==> r == Some("Password is required")
    ensures 0 < |password| < 6 ==> r == Some("Password must be at least 6 characters")
  {
    if |password| < 1 then Some("Password is required")
    else if |password| < 6 then Some("Password must be at least 6 characters")
    else None
  }

  /** `z.boolean().optional().default(false)`: an absent flag reads as false. */
  function ParseRememberMe(flag: Option<bool>): (b: bool)
    ensures b <==> flag == Some(true)
  {
    flag.GetOr(false)
  }

  /** The field errors the schema reports, one message per failing field. */
  function Validate(email: string, password: string, emailFormatOk: bool): (errors: map<LoginField, string>)
    ensures RememberMe !in errors
    ensures Email in errors <==> EmailError(email, emailFormatOk).Some?
    ensures Password in errors <==> |password| < 6
    ensures Email in errors ==> errors[Email] == EmailError(email, emailFormatOk).value
    ensures Password in errors ==> errors[Password] == PasswordError(password).value
  {
    var e := EmailError(email, emailFormatOk);
    var p := PasswordError(password);
    (if e.Some? then map[Email := e.value] else map[])
      + (if p.Some? then map[Password := p.value] else map[])
  }

  /** The form's default values: both texts empty and the flag off. */
  lemma DefaultsAreRejected(emailFormatOk: bool)
    ensures Validate("", "", emailFormatOk) == map[Email := "Email is required", Password := "Password is required"]
    ensures !ParseRememberMe(None)
  {
  }

  /** What the awaited `onSubmit` call did: resolved, threw an `Error`, or threw something else. */
  datatype Thrown = ErrorObject(message: string) | NonError
  datatype Outcome = Resolved | Rejected(thrown: Thrown)

  /** The form-level message: an `Error`'s own message, otherwise a fixed fallback. */
  function LoginErrorMessage(t: Thrown): (m: string)
    ensures t.ErrorObject? ==> m == t.message
    ensures t.NonError? ==> m == "An error occurred during login"
  {
    match t
    case ErrorObject(m) => m
    case NonError => "An error occurred during login"
  }

  /** The field a failure message is attached to: e-mail first, then password, else none. */
  function LoginErrorField(message: string): (f: Option<LoginField>)
    ensures f == Some(Email) <==> Contains(Lower(message), "email")
    ensures f == Some(Password) <==> !Contains(Lower(message), "email") && Contains(Lower(message), "password")
    ensures f.None? <==> !Contains(Lower(message), "email") && !Contains(Lower(message), "password")
  {
    var lowered := Lower(message);
    if Contains(lowered, "email") then Some(Email)
    else if Contains(lowered, "password") then Some(Password)
    else None
  }

  /** The state `handleFormSubmit` writes: the form-level message and the per-field errors. */
  class LoginFormState {
    var submitError: string
    var fieldErrors: map<LoginField, string>

    constructor ()
      ensures submitError == "" && fieldErrors == map[]
    {
      submitError := "";
      fieldErrors := map[];
    }

    /**
     * `handleFormSubmit`: clear the form-level message, forward the data, and
     * on failure record the message and attach it to at most one field.
     */
    method HandleFormSubmit(data: LoginData, outcome: Outcome) returns (sent: LoginData)
      modifies this
      ensures sent == data
      ensures outcome.Resolved? ==> submitError == "" && fieldErrors == old(fieldErrors)
      ensures outcome.Rejected? ==>
        var m := LoginErrorMessage(outcome.thrown);
        submitError == m
        && fieldErrors == match LoginErrorField(m)
                          case None => old(fieldErrors)
                          case Some(f) => old(fieldErrors)[f := m]
    {
      submitError := "";
      sent := data;
      if outcome.Rejected? {
        var m := LoginErrorMessage(outcome.thrown);
        submitError := m;
        var field := LoginErrorField(m);
        if field.Some? {
          fieldErrors := fieldErrors[field.value := m];
        }
      }
    }
  }
}
