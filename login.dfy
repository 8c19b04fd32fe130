/** The sign-in form: the fields it holds, the checks made before the
    account service is called, how the outcome of that call lands in the
    form, and the callbacks of the captcha widget. */
module Login {
  import opened Wrappers
  import opened Types

  datatype AuthMode = SignIn | Register

  /** The other mode: what the mode switch below the button does. */
  function Flip(m: AuthMode): (r: AuthMode)
    ensures r != m
  {
    if m == SignIn then Register else SignIn
  }

  /** Switching twice restores the mode. */
  lemma FlipTwice(m: AuthMode)
    ensures Flip(Flip(m)) == m
  {
  }

  /** The account-service call the form makes. */
  datatype AuthCall =
    | SignInWithEmail(email: string, password: string)
    | CreateUserWithEmail(email: string, password: string)

  /** How the call ended: accepted, or rejected with an `Error` carrying a
      message, or rejected with some other thrown value (no message). */
  datatype AuthOutcome = Accepted | Rejected(message: Option<string>)

  const PasswordMismatch := "Пароли не совпадают."
  const CaptchaMissing := "Подтвердите, что вы не робот."
  const AuthFailure := "Не удалось выполнить запрос. Попробуйте ещё раз."
  const CaptchaNetworkError := "Ошибка сети при проверке капчи. Попробуйте ещё раз."
  const CaptchaErrorPrefix := "SmartCaptcha: "
  const CaptchaUnknownError := "неизвестная ошибка"

  /** The checks of `handleSubmit`, in order: in the register mode the two
      passwords must agree, then a captcha token must be held; a form that
      passes makes the call of its mode with the typed email and password. */
  function SubmitCheck(mode: AuthMode, email: string, password: string, confirmPassword: string,
                       captchaToken: Option<string>): (r: Result<AuthCall, string>)
    ensures r.Ok? <==> (mode == SignIn || password == confirmPassword) && Truthy(captchaToken)
    ensures r.Err? ==> r.error == (if mode == Register && password != confirmPassword then PasswordMismatch else CaptchaMissing)
    ensures r.Ok? ==> r.value.email == email && r.value.password == password
    ensures r.Ok? ==> (r.value.SignInWithEmail? <==> mode == SignIn)
  {
    if mode == Register && password != confirmPassword then Err(PasswordMismatch)
    else if !Truthy(captchaToken) then Err(CaptchaMissing)
    else if mode == SignIn then Ok(SignInWithEmail(email, password))
    else assert mode == Register && password == confirmPassword; Ok(CreateUserWithEmail(email, password))
  }

  /** The confirmation field plays no part when signing in. */
  lemma SignInIgnoresConfirmation(email: string, password: string, c1: string, c2: string, token: Option<string>)
    ensures SubmitCheck(SignIn, email, password, c1, token) == SubmitCheck(SignIn, email, password, c2, token)
  {
  }

  /** The message shown after a rejected call: the `Error`'s message, or
      the fixed text for anything else thrown. */
  function FailureText(message: Option<string>): (r: string)
    ensures message.Some? ==> r == message.value
    ensures message.None? ==> r == AuthFailure
  {
    if message.Some? then message.value else AuthFailure
  }

  /** The message for a failure inside the captcha widget: its prefix, then
      the error's message or, when that is missing or empty, a fixed text. */
  function CaptchaErrorText(message: Option<string>): (r: string)
    ensures |r| > |CaptchaErrorPrefix| && r[..|CaptchaErrorPrefix|] == CaptchaErrorPrefix
    ensures Truthy(message) ==> r[|CaptchaErrorPrefix|..] == message.value
    ensures !Truthy(message) ==> r[|CaptchaErrorPrefix|..] == CaptchaUnknownError
  {
    var detail := if Truthy(message) then message.value else CaptchaUnknownError;
    var r := CaptchaErrorPrefix + detail;
    assert r[..|CaptchaErrorPrefix|] == CaptchaErrorPrefix;
    assert r[|CaptchaErrorPrefix|..] == detail;
    r
  }

  /** The form's state. */
  class LoginForm {
    var mode: AuthMode
    var email: string
    var password: string
    var confirmPassword: string
    var error: string
    var isSubmitting: bool
    var captchaToken: Option<string>
    /** The key of the captcha widget: a new key mounts a fresh widget. */
    var captchaInstanceKey: nat

    constructor()
      ensures mode == SignIn && email == [] && password == [] && confirmPassword == []
      ensures error == [] && !isSubmitting && captchaToken.None? && captchaInstanceKey == 0
    {
      mode := SignIn;
      email := [];
      password := [];
      confirmPassword := [];
      error := [];
      isSubmitting := false;
      captchaToken := None;
      captchaInstanceKey := 0;
    }

    /** The submit button is enabled when no call is running and a captcha
        token is held. */
    predicate SubmitEnabled()
      reads this
    {
      !isSubmitting && Truthy(captchaToken)
    }

    /** Typing into one of the three fields. */
    method Edit(newEmail: string, newPassword: string, newConfirmPassword: string)
      modifies this
      ensures email == newEmail && password == newPassword && confirmPassword == newConfirmPassword
      ensures mode == old(mode) && error == old(error) && isSubmitting == old(isSubmitting)
      ensures captchaToken == old(captchaToken) && captchaInstanceKey == old(captchaInstanceKey)
    {
      email := newEmail;
      password := newPassword;
      confirmPassword := newConfirmPassword;
    }

    /** `resetCaptcha`: the token is dropped and a fresh widget mounted. */
    method ResetCaptcha()
      modifies this
      ensures captchaToken.None? && captchaInstanceKey == old(captchaInstanceKey) + 1
      ensures mode == old(mode) && email == old(email) && password == old(password)
      ensures confirmPassword == old(confirmPassword) && error == old(error) && isSubmitting == old(isSubmitting)
    {
      captchaToken := None;
      captchaInstanceKey := captchaInstanceKey + 1;
    }

    /** `handleSubmit` up to the call: the error is cleared, and either the
        first failing check's message is shown and no call is made, or the
        form is marked as submitting and the call of its mode is made. */
    method Submit() returns (call: Option<AuthCall>)
      modifies this
      ensures var check := SubmitCheck(old(mode), old(email), old(password), old(confirmPassword), old(captchaToken));
        (call.Some? <==> check.Ok?)
        && (check.Ok? ==> call.value == check.value && error == [] && isSubmitting)
        && (check.Err? ==> error == check.error && isSubmitting == old(isSubmitting))
      ensures call.Some? ==> !SubmitEnabled()
      ensures mode == old(mode) && email == old(email) && password == old(password)
      ensures confirmPassword == old(confirmPassword)
      ensures captchaToken == old(captchaToken) && captchaInstanceKey == old(captchaInstanceKey)
    {
      error := [];
      if mode == Register && password != confirmPassword {
        error := PasswordMismatch;
        return None;
      }
      if !Truthy(captchaToken) {
        error := CaptchaMissing;
        return None;
      }
      isSubmitting := true;
      if mode == SignIn {
        call := Some(SignInWithEmail(email, password));
      } else {
        call := Some(CreateUserWithEmail(email, password));
      }
    }

    /** The rest of `handleSubmit`, once the call has ended: a rejection
        shows its message and resets the captcha, and in every case the
        form stops submitting. */
    method AuthSettled(outcome: AuthOutcome)
      modifies this
      ensures !isSubmitting
      ensures outcome.Accepted? ==>
        error == old(error) && captchaToken == old(captchaToken) && captchaInstanceKey == old(captchaInstanceKey)
      ensures outcome.Rejected? ==>
        error == FailureText(outcome.message) && captchaToken.None? && captchaInstanceKey == old(captchaInstanceKey) + 1
      ensures outcome.Rejected? ==> !SubmitEnabled()
      ensures mode == old(mode) && email == old(email) && password == old(password)
      ensures confirmPassword == old(confirmPassword)
    {
      if outcome.Rejected? {
        var message := AuthFailure;
        if outcome.message.Some? {
          message := outcome.message.value;
        }
        error := message;
        ResetCaptcha();
      }
      isSubmitting := false;
    }

    /** `toggleMode`: the other mode, no error and a fresh captcha. */
    method ToggleMode()
      modifies this
      ensures mode == Flip(old(mode)) && error == []
      ensures captchaToken.None? && captchaInstanceKey == old(captchaInstanceKey) + 1
      ensures email == old(email) && password == old(password) && confirmPassword == old(confirmPassword)
      ensures isSubmitting == old(isSubmitting)
    {
      mode := if mode == SignIn then Register else SignIn;
      error := [];
      ResetCaptcha();
    }

    /** The widget's `onSuccess`: the token is held and the error cleared. */
    method CaptchaSuccess(token: string)
      modifies this
      ensures captchaToken == Some(token) && error == []
      ensures token != [] && !isSubmitting ==> SubmitEnabled()
      ensures mode == old(mode) && email == old(email) && password == old(password)
      ensures confirmPassword == old(confirmPassword) && isSubmitting == old(isSubmitting)
      ensures captchaInstanceKey == old(captchaInstanceKey)
    {
      captchaToken := Some(token);
      error := [];
    }

    /** The widget's `onTokenExpired`: the token is dropped; the widget is
        not remounted. */
    method TokenExpired()
      modifies this
      ensures captchaToken.None? && !SubmitEnabled()
      ensures mode == old(mode) && email == old(email) && password == old(password)
      ensures confirmPassword == old(confirmPassword) && error == old(error) && isSubmitting == old(isSubmitting)
      ensures captchaInstanceKey == old(captchaInstanceKey)
    {
      captchaToken := None;
    }

    /** The widget's `onNetworkError`: only the message changes. */
    method NetworkError()
      modifies this
      ensures error == CaptchaNetworkError
      ensures mode == old(mode) && email == old(email) && password == old(password)
      ensures confirmPassword == old(confirmPassword) && isSubmitting == old(isSubmitting)
      ensures captchaToken == old(captchaToken) && captchaInstanceKey == old(captchaInstanceKey)
    {
      error := CaptchaNetworkError;
    }

    /** The widget's `onJavascriptError`: only the message changes. */
    method JavascriptError(message: Option<string>)
      modifies this
      ensures error == CaptchaErrorText(message)
      ensures mode == old(mode) && email == old(email) && password == old(password)
      ensures confirmPassword == old(confirmPassword) && isSubmitting == old(isSubmitting)
      ensures captchaToken == old(captchaToken) && captchaInstanceKey == old(captchaInstanceKey)
    {
      var detail := CaptchaUnknownError;
      if Truthy(message) {
        detail := message.value;
      }
      error := CaptchaErrorPrefix + detail;
    }
  }

  /** Switching the mode twice restores it and the typed fields, clears the
      error, and leaves no token behind: the captcha must be solved again. */
  method ToggleModeTwice(form: LoginForm)
    modifies form
    ensures form.mode == old(form.mode) && form.error == []
    ensures form.captchaToken.None? && form.captchaInstanceKey == old(form.captchaInstanceKey) + 2
    ensures form.email == old(form.email) && form.password == old(form.password)
    ensures !form.SubmitEnabled()
  {
    form.ToggleMode();
    form.ToggleMode();
    FlipTwice(old(form.mode));
  }

  /** A rejected call cannot be retried with the button at once: the
      rejection drops the token, so a new captcha has to be solved first. */
  method RejectedThenSubmit(form: LoginForm, message: Option<string>) returns (call: Option<AuthCall>)
    requires form.isSubmitting
    modifies form
    ensures call.None?
    ensures form.error == if form.mode == Register && form.password != form.confirmPassword then PasswordMismatch else CaptchaMissing
  {
    form.AuthSettled(Rejected(message));
    call := form.Submit();
  }
}
