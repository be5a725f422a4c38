/** `PasswordResetConfirm` (exchange_api/api/views.py): the token check as the
    source runs it, a loop over the 24 most recent hour buckets, and the two
    handlers that show the reset form and apply a new password. The user
    lookup behind the base64 identifier in the link is given as `user`,
    null when the identifier does not decode or no user has it. */
module ResetConfirm {
  import opened Wrappers
  import opened TokenScheme

  /** `check_token(user, token)` at Unix time `now`. */
  method CheckToken(h: Digest, u: UserFields, token: string, now: int) returns (ok: bool)
    ensures ok == Accepts(h, u, token, now)
  {
    for hours := 0 to WindowHours
      invariant forall j :: 0 <= j < hours ==>
        Expected(h, u, now, j).Some? && Expected(h, u, now, j) != Some(token)
    {
      var checkTime := now - now % HourSeconds - hours * HourSeconds;
      var tokenString := Canonical(u, checkTime);
      var digest := h(tokenString);
      if digest.None? {
        // the `except Exception` branch
        assert Expected(h, u, now, hours) == None;
        RaiseRejects(h, u, token, now, hours);
        return false;
      }
      var expectedToken := if |digest.value| <= TokenLength then digest.value else digest.value[..TokenLength];
      if token == expectedToken {
        assert Expected(h, u, now, hours) == Some(token);
        return true;
      }
    }
    return false;
  }

  const MinPasswordLength: nat := 8

  /** Why the new-password form is shown again. */
  datatype FormError = MissingPassword | PasswordsDiffer | TooShort

  /** The message the form shows for each error. */
  function Message(e: FormError): string
  {
    match e
    case MissingPassword => "Please enter both passwords"
    case PasswordsDiffer => "Passwords do not match"
    case TooShort => "Пароль должен содержать не менее 8 символов"
  }

  /** Distinct errors show distinct messages. */
  lemma MessageDistinct(e1: FormError, e2: FormError)
    requires Message(e1) == Message(e2)
    ensures e1 == e2
  {
  }

  /** `not field` for a form field that may be absent. */
  predicate Blank(field: Option<string>)
  {
    field.None? || field.value == ""
  }

  /** The checks on the two new-password fields, in the source's order: both
      given, equal, at least 8 characters; success carries the password to set. */
  function ValidateNewPassword(password1: Option<string>, password2: Option<string>): (r: Result<string, FormError>)
    ensures r.Success? <==>
      password1.Some? && password2.Some? && password1.value != "" && password1 == password2 &&
      |password1.value| >= MinPasswordLength
    ensures r.Success? ==> password1 == Some(r.value)
    ensures r == Failure(MissingPassword) <==> Blank(password1) || Blank(password2)
    ensures r == Failure(PasswordsDiffer) <==> !Blank(password1) && !Blank(password2) && password1 != password2
    ensures r == Failure(TooShort) <==>
      !Blank(password1) && password1 == password2 && |password1.value| < MinPasswordLength
  {
    if Blank(password1) || Blank(password2) then Failure(MissingPassword)
    else if password1.value != password2.value then Failure(PasswordsDiffer)
    else if |password1.value| < MinPasswordLength then Failure(TooShort)
    else Success(password1.value)
  }

  /** The page rendered from 'password_reset_confirm.html'. */
  datatype Page =
    | InvalidLink                        // validlink: False
    | ResetForm(error: Option<string>)    // validlink: True, with the error message if any
    | ResetDone                          // validlink: True, success: True

  /** The user record the handlers read and `set_password` updates. */
  class User {
    const email: string
    const id: int
    var password: string

    constructor (email: string, id: int, password: string)
      ensures this.email == email && this.id == id && this.password == password
    {
      this.email := email;
      this.id := id;
      this.password := password;
    }

    function Fields(): UserFields
      reads this
    {
      UserFields(email, id, password)
    }

    /** `set_password(raw)`: stores the hash `makePassword` gives for `raw`. */
    method SetPassword(raw: string, makePassword: string -> string)
      modifies this
      ensures password == makePassword(raw)
    {
      password := makePassword(raw);
    }
  }

  /** `get(request, uidb64, token)`: the form is shown exactly when the user
      exists and the token is accepted now. */
  method ConfirmGet(h: Digest, user: User?, token: string, now: int) returns (page: Page)
    ensures page == ResetForm(None) <==> user != null && Accepts(h, user.Fields(), token, now)
    ensures page != ResetForm(None) ==> page == InvalidLink
  {
    if user != null {
      var ok := CheckToken(h, user.Fields(), token, now);
      if ok {
        return ResetForm(None);
      }
    }
    return InvalidLink;
  }

  /** `post(request, uidb64, token)`: the password changes only when the user
      exists, the token is accepted and both fields pass the checks. */
  method ConfirmPost(h: Digest, user: User?, token: string, password1: Option<string>, password2: Option<string>,
                     now: int, makePassword: string -> string) returns (page: Page)
    modifies user
    ensures user == null || !Accepts(h, old(user.Fields()), token, now) ==> page == InvalidLink
    ensures user != null && Accepts(h, old(user.Fields()), token, now) ==>
      match ValidateNewPassword(password1, password2)
      case Failure(e) => page == ResetForm(Some(Message(e)))
      case Success(p) => page == ResetDone && user.password == makePassword(p)
    ensures user != null && page != ResetDone ==> user.password == old(user.password)
  {
    if user != null {
      var ok := CheckToken(h, user.Fields(), token, now);
      if ok {
        var checked := ValidateNewPassword(password1, password2);
        match checked
        case Failure(e) =>
          return ResetForm(Some(Message(e)));
        case Success(p) =>
          user.SetPassword(p, makePassword);
          return ResetDone;
      }
    }
    return InvalidLink;
  }
}
