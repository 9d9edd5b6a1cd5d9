/**
  The client-side checks of the login and registration forms. Lengths are
  Rust `len()`, i.e. bytes.
 */
module Forms {
  import opened Common

  const USERNAME_MIN_LENGTH: nat := 5
  const PASSWORD_MIN_LENGTH: nat := 8

  const USERNAME_EMPTY: string := "Username cannot be empty"
  const USERNAME_TOO_SHORT: string := "Username must be at least 5 characters long"
  const PASSWORD_EMPTY: string := "Password cannot be empty"
  const PASSWORD_TOO_SHORT: string := "Password must be at least 8 characters long"
  const PASSWORDS_DO_NOT_MATCH: string := "Passwords do not match"

  /** `LoginPage`'s `is_form_valid`: both fields filled in. */
  function IsLoginFormValid(username: Bytes, password: Bytes): (r: bool)
    ensures r <==> username != [] && password != []
  {
    !(|username| == 0) && !(|password| == 0)
  }

  /** `username_error`: the message shown under the username field, if any.
      The empty check comes first; a valid username is one of at least
      `USERNAME_MIN_LENGTH` bytes. */
  function UsernameError(username: Bytes): (r: Option<string>)
    ensures r.None? <==> |username| >= USERNAME_MIN_LENGTH
    ensures r == Some(USERNAME_EMPTY) <==> username == []
    ensures r == Some(USERNAME_TOO_SHORT) <==> 0 < |username| < USERNAME_MIN_LENGTH
  {
    if |username| == 0 then Some(USERNAME_EMPTY)
    else if |username| < USERNAME_MIN_LENGTH then Some(USERNAME_TOO_SHORT)
    else None
  }

  /** `password_error`: as for the username, with `PASSWORD_MIN_LENGTH`. */
  function PasswordError(password: Bytes): (r: Option<string>)
    ensures r.None? <==> |password| >= PASSWORD_MIN_LENGTH
    ensures r == Some(PASSWORD_EMPTY) <==> password == []
    ensures r == Some(PASSWORD_TOO_SHORT) <==> 0 < |password| < PASSWORD_MIN_LENGTH
  {
    if |password| == 0 then Some(PASSWORD_EMPTY)
    else if |password| < PASSWORD_MIN_LENGTH then Some(PASSWORD_TOO_SHORT)
    else None
  }

  /** `confirm_password_error`: an empty confirmation reports the empty
      password message; otherwise it must equal the password. */
  function ConfirmPasswordError(confirmPassword: Bytes, password: Bytes): (r: Option<string>)
    ensures r.None? <==> confirmPassword != [] && confirmPassword == password
    ensures r == Some(PASSWORD_EMPTY) <==> confirmPassword == []
    ensures r == Some(PASSWORDS_DO_NOT_MATCH) <==> confirmPassword != [] && confirmPassword != password
  {
    if |confirmPassword| == 0 then Some(PASSWORD_EMPTY)
    else if confirmPassword != password then Some(PASSWORDS_DO_NOT_MATCH)
    else None
  }

  /** `RegisterPage`'s `is_form_valid`: no field reports an error, which is
      exactly: a non-empty username of at least 5 bytes, a non-empty password
      of at least 8 bytes, and a non-empty confirmation equal to the password. */
  function IsRegisterFormValid(username: Bytes, password: Bytes, confirmPassword: Bytes): (r: bool)
    ensures r <==> && username != [] && |username| >= USERNAME_MIN_LENGTH
                   && password != [] && |password| >= PASSWORD_MIN_LENGTH
                   && confirmPassword != [] && confirmPassword == password
  {
    UsernameError(username).None? && PasswordError(password).None?
      && ConfirmPasswordError(confirmPassword, password).None?
  }

  /** The length bounds are exact: one byte short is refused, the minimum is accepted. */
  lemma RegisterFormBoundaries(username: Bytes, password: Bytes)
    requires |username| == USERNAME_MIN_LENGTH && |password| == PASSWORD_MIN_LENGTH
    ensures IsRegisterFormValid(username, password, password)
    ensures !IsRegisterFormValid(username[1..], password, password)
    ensures !IsRegisterFormValid(username, password[1..], password[1..])
  {
  }

  /** Credentials the registration form accepts are accepted by the login form. */
  lemma RegisterFormImpliesLoginForm(username: Bytes, password: Bytes, confirmPassword: Bytes)
    requires IsRegisterFormValid(username, password, confirmPassword)
    ensures IsLoginFormValid(username, password)
  {
  }
}
