/**
 * The registration form component: four pieces of component state (the e-mail
 * and password drafts and one error message per field), the two effects that
 * recompute an error message whenever its own field changes, the submit
 * handler, and the rule that an error is shown when its message is non-empty.
 */
module Registration {
  import opened EmailPattern
  import opened PasswordPattern

  const EmailErrorMessage: string := "Please enter a valid email address."
  const PasswordErrorMessage: string := "Please enter a valid password."

  /** The prefix of the line the submit handler logs before the e-mail. */
  const RegisterLogPrefix: string := "Registering user with email: "

  /** The e-mail effect's verdict: empty for an accepted address, else the fixed message. */
  function EmailError(email: string): (message: string)
    ensures message == "" <==> ValidEmail(email)
    ensures message == "" || message == EmailErrorMessage
  {
    EmailAcceptSet(email);
    if MatchesEmail(email) then "" else EmailErrorMessage
  }

  /** The password effect's verdict: empty for an accepted password, else the fixed message. */
  function PasswordError(password: string): (message: string)
    ensures message == "" <==> ValidPassword(password)
    ensures message == "" || message == PasswordErrorMessage
  {
    PasswordAcceptSet(password);
    if MatchesPassword(password) then "" else PasswordErrorMessage
  }

  /** The empty drafts the form starts with are both rejected with their messages. */
  lemma InitialDraftsRejected()
    ensures EmailError("") == EmailErrorMessage
    ensures PasswordError("") == PasswordErrorMessage
  {
    EmptyEmailRejected();
    EmptyPasswordRejected();
  }

  /** The state of one mounted registration form. */
  class RegisterForm {
    var email: string
    var password: string
    var emailError: string
    var passwordError: string

    /** Every error message agrees with the current value of its field. */
    ghost predicate Consistent()
      reads this
    {
      emailError == EmailError(email) && passwordError == PasswordError(password)
    }

    /** The four fields as the first render sees them: all empty. */
    constructor ()
      ensures email == "" && password == "" && emailError == "" && passwordError == ""
      ensures !Consistent()
    {
      email, password, emailError, passwordError := "", "", "", "";
      InitialDraftsRejected();
    }

    /**
     * The first commit: both effects run once whatever their dependencies,
     * so each error is recomputed from its field.
     */
    method Mount()
      modifies this
      ensures email == old(email) && password == old(password)
      ensures emailError == EmailError(email) && passwordError == PasswordError(password)
      ensures Consistent()
    {
      emailError := EmailError(email);
      passwordError := PasswordError(password);
    }

    /**
     * The e-mail input's change handler. Setting the same value again causes
     * no render and leaves the effect's dependency unchanged, so nothing is
     * recomputed; a new value is stored and its error recomputed. The password
     * and its error are untouched.
     */
    method SetEmail(value: string)
      modifies this
      ensures email == value
      ensures emailError == if value == old(email) then old(emailError) else EmailError(value)
      ensures password == old(password) && passwordError == old(passwordError)
      ensures old(Consistent()) ==> Consistent()
    {
      if value != email {
        email := value;
        emailError := EmailError(value);
      }
    }

    /** The password input's change handler; the mirror image of SetEmail. */
    method SetPassword(value: string)
      modifies this
      ensures password == value
      ensures passwordError == if value == old(password) then old(passwordError) else PasswordError(value)
      ensures email == old(email) && emailError == old(emailError)
      ensures old(Consistent()) ==> Consistent()
    {
      if value != password {
        password := value;
        passwordError := PasswordError(value);
      }
    }

    /**
     * The submit handler: it stops the browser's default submission and logs
     * the e-mail. It changes no field and does not look at either error, so it
     * runs the same way for a valid and for an invalid draft.
     */
    method HandleSubmit() returns (defaultPrevented: bool, logLine: string)
      ensures defaultPrevented
      ensures logLine == RegisterLogPrefix + email
    {
      defaultPrevented := true;
      logLine := RegisterLogPrefix + email;
    }

    /** Whether the e-mail error paragraph and red border are shown. */
    function ShowsEmailError(): (shown: bool)
      reads this
      ensures shown <==> |emailError| > 0
      ensures Consistent() ==> (shown <==> !ValidEmail(email))
    {
      emailError != ""
    }

    /** Whether the password error paragraph is shown. */
    function ShowsPasswordError(): (shown: bool)
      reads this
      ensures shown <==> |passwordError| > 0
      ensures Consistent() ==> (shown <==> !ValidPassword(password))
    {
      passwordError != ""
    }
  }

  /**
   * A freshly mounted form shows both error messages, because the empty
   * drafts fail both patterns.
   */
  method MountNewForm() returns (form: RegisterForm)
    ensures fresh(form) && form.Consistent()
    ensures form.email == "" && form.password == ""
    ensures form.emailError == EmailErrorMessage && form.passwordError == PasswordErrorMessage
    ensures form.ShowsEmailError() && form.ShowsPasswordError()
  {
    form := new RegisterForm();
    form.Mount();
    InitialDraftsRejected();
  }
}
