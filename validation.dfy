/**
 * The request validators (`UserRegisterValidator`, `UserLoginValidator`):
 * each fills a field → message dictionary through ordered checks, presence
 * first, then length, then pattern.
 *
 * The regular expressions are written out as character-class predicates.
 * .NET's `$` (without the multiline option) matches at the very end of the
 * input or just before a final line feed, so every pattern also accepts its
 * match followed by one `'\n'`.
 */
module Validation {

  import opened Wrappers
  import opened Text

  datatype RegisterDto = RegisterDto(email: string, password: string, username: string)

  datatype LoginDto = LoginDto(email: string, password: string)

  const EmailRequired := "Email is required."
  const EmailLength := "Email must be between 5 and 50 characters."
  const EmailInvalid := "Email is not valid."
  const PasswordRequired := "Password is required."
  const PasswordLength := "Password must be between 8 and 30 characters."
  const PasswordWeak := "Password must contain at least one uppercase letter, one lowercase letter, and one number."
  const UsernameRequired := "Username is required."
  const UsernameLength := "Username must be between 3 and 20 characters."
  const UsernameInvalid := "Username must contain only letters, numbers, and underscores."

  /** Whether `s` ends in a line feed, before which `$` may also match. */
  predicate EndsInLineFeed(s: string) {
    |s| > 0 && s[|s| - 1] == '\n'
  }

  /** `[^@\s]+` */
  predicate EmailPart(t: string) {
    |t| > 0 && forall k :: 0 <= k < |t| ==> t[k] != '@' && !IsWhiteSpace(t[k])
  }

  /** `[^@\s]+@[^@\s]+\.[^@\s]+`, matched against the whole of `s`. */
  predicate EmailShape(s: string) {
    exists i, j :: 0 <= i < j < |s| && s[i] == '@' && s[j] == '.' &&
      EmailPart(s[..i]) && EmailPart(s[i + 1..j]) && EmailPart(s[j + 1..])
  }

  /**
   * `^[^@\s]+@[^@\s]+\.[^@\s]+$`. A match is never blank and is at least
   * five characters long, so the pattern alone rules out the short addresses.
   */
  predicate EmailPattern(s: string): (b: bool)
    ensures b ==> 5 <= |s| && !IsBlank(s)
  {
    EmailShape(s) || (EndsInLineFeed(s) && EmailShape(s[..|s| - 1]))
  }

  /** `(?=.*[a-z])(?=.*[A-Z])(?=.*\d).{8,}` over a line without line feeds. */
  predicate PasswordShape(s: string) {
    && |s| >= 8
    && (forall k :: 0 <= k < |s| ==> s[k] != '\n')
    && (exists k :: 0 <= k < |s| && IsLower(s[k]))
    && (exists k :: 0 <= k < |s| && IsUpper(s[k]))
    && (exists k :: 0 <= k < |s| && IsDigit(s[k]))
  }

  /** `^(?=.*[a-z])(?=.*[A-Z])(?=.*\d).{8,}$`: a match is never blank and has at least eight characters. */
  predicate PasswordPattern(s: string): (b: bool)
    ensures b ==> 8 <= |s| && !IsBlank(s)
  {
    PasswordShape(s) || (EndsInLineFeed(s) && PasswordShape(s[..|s| - 1]))
  }

  /** `[a-zA-Z0-9_]+` */
  predicate UsernameShape(s: string): (b: bool)
    ensures b ==> |s| > 0 && !IsWhiteSpace(s[0])
  {
    |s| > 0 && forall k :: 0 <= k < |s| ==> IsLetterOrDigit(s[k]) || s[k] == '_'
  }

  /** `^[a-zA-Z0-9_]+$`: a match is never blank. */
  predicate UsernamePattern(s: string): (b: bool)
    ensures b ==> !IsBlank(s)
  {
    UsernameShape(s) || (EndsInLineFeed(s) && UsernameShape(s[..|s| - 1]))
  }

  /** The field rules of registration: present, within the length bounds, matching the pattern. */
  predicate RegisterEmailOk(email: string) {
    !IsBlank(email) && 5 <= |email| <= 50 && EmailPattern(email)
  }

  predicate RegisterPasswordOk(password: string) {
    !IsBlank(password) && 8 <= |password| <= 30 && PasswordPattern(password)
  }

  predicate RegisterUsernameOk(username: string) {
    !IsBlank(username) && 3 <= |username| <= 20 && UsernamePattern(username)
  }

  /** The message registration gives the email, if any: the first of its checks that fails. */
  function EmailMessage(email: string): (m: Option<string>)
    ensures m.None? <==> RegisterEmailOk(email)
  {
    if IsBlank(email) then Some(EmailRequired)
    else if |email| < 5 || |email| > 50 then Some(EmailLength)
    else if !EmailPattern(email) then Some(EmailInvalid)
    else None
  }

  /** The message registration gives the password, if any: the first of its checks that fails. */
  function PasswordMessage(password: string): (m: Option<string>)
    ensures m.None? <==> RegisterPasswordOk(password)
  {
    if IsBlank(password) then Some(PasswordRequired)
    else if |password| < 8 || |password| > 30 then Some(PasswordLength)
    else if !PasswordPattern(password) then Some(PasswordWeak)
    else None
  }

  /** The message registration gives the username, if any: the first of its checks that fails. */
  function UsernameMessage(username: string): (m: Option<string>)
    ensures m.None? <==> RegisterUsernameOk(username)
  {
    if IsBlank(username) then Some(UsernameRequired)
    else if |username| < 3 || |username| > 20 then Some(UsernameLength)
    else if !UsernamePattern(username) then Some(UsernameInvalid)
    else None
  }

  /** `errors[key] = message` when there is a message; `errors` unchanged otherwise. */
  function With(errors: map<string, string>, key: string, m: Option<string>): map<string, string> {
    if m.Some? then errors[key := m.value] else errors
  }

  /**
   * The dictionary the register validator returns. Each field is judged on
   * its own: it is in the dictionary exactly when it breaks its rule, and
   * then with its own message.
   */
  function RegisterErrors(user: RegisterDto): (errors: map<string, string>)
    ensures errors.Keys <= {"email", "password", "username"}
    ensures "email" in errors ==> Some(errors["email"]) == EmailMessage(user.email)
    ensures "password" in errors ==> Some(errors["password"]) == PasswordMessage(user.password)
    ensures "username" in errors ==> Some(errors["username"]) == UsernameMessage(user.username)
    ensures "email" !in errors <==> RegisterEmailOk(user.email)
    ensures "password" !in errors <==> RegisterPasswordOk(user.password)
    ensures "username" !in errors <==> RegisterUsernameOk(user.username)
  {
    var errors := With(map[], "email", EmailMessage(user.email));
    var errors := With(errors, "password", PasswordMessage(user.password));
    With(errors, "username", UsernameMessage(user.username))
  }

  /** No errors exactly when every field passes. */
  lemma RegisterErrorsEmpty(user: RegisterDto)
    ensures |RegisterErrors(user)| == 0 <==>
              RegisterEmailOk(user.email) && RegisterPasswordOk(user.password) && RegisterUsernameOk(user.username)
  {
    var errors := RegisterErrors(user);
    if |errors| == 0 {
      assert "email" !in errors && "password" !in errors && "username" !in errors;
    } else {
      var k :| k in errors;
    }
  }

  /**
   * The first failing check decides a field's message: a blank field is
   * "required" whatever its length, and a field of the wrong length is
   * reported for its length even when it also breaks the pattern.
   */
  lemma FirstFailingCheckDecides(email: string, password: string, username: string)
    ensures IsBlank(email) ==> EmailMessage(email) == Some(EmailRequired)
    ensures !IsBlank(email) && !(5 <= |email| <= 50) ==> EmailMessage(email) == Some(EmailLength)
    ensures 5 <= |email| <= 50 && !IsBlank(email) && !EmailPattern(email) ==> EmailMessage(email) == Some(EmailInvalid)
    ensures IsBlank(password) ==> PasswordMessage(password) == Some(PasswordRequired)
    ensures !IsBlank(password) && !(8 <= |password| <= 30) ==> PasswordMessage(password) == Some(PasswordLength)
    ensures 8 <= |password| <= 30 && !IsBlank(password) && !PasswordPattern(password) ==>
              PasswordMessage(password) == Some(PasswordWeak)
    ensures IsBlank(username) ==> UsernameMessage(username) == Some(UsernameRequired)
    ensures !IsBlank(username) && !(3 <= |username| <= 20) ==> UsernameMessage(username) == Some(UsernameLength)
    ensures 3 <= |username| <= 20 && !IsBlank(username) && !UsernamePattern(username) ==>
              UsernameMessage(username) == Some(UsernameInvalid)
  {
  }

  /**
   * `UserRegisterValidator.Validate`: email, then password, then username,
   * each adding at most one message to the dictionary.
   */
  method ValidateRegister(user: RegisterDto) returns (errors: map<string, string>)
    ensures errors == RegisterErrors(user)
  {
    errors := map[];

    if IsBlank(user.email) {
      errors := errors["email" := EmailRequired];
    } else {
      if |user.email| < 5 || |user.email| > 50 {
        errors := errors["email" := EmailLength];
      } else if !EmailPattern(user.email) {
        errors := errors["email" := EmailInvalid];
      }
    }
    ghost var afterEmail := errors;
    assert afterEmail == With(map[], "email", EmailMessage(user.email));

    if IsBlank(user.password) {
      errors := errors["password" := PasswordRequired];
    } else {
      if |user.password| < 8 || |user.password| > 30 {
        errors := errors["password" := PasswordLength];
      } else if !PasswordPattern(user.password) {
        errors := errors["password" := PasswordWeak];
      }
    }
    ghost var afterPassword := errors;
    assert afterPassword == With(afterEmail, "password", PasswordMessage(user.password));

    if IsBlank(user.username) {
      errors := errors["username" := UsernameRequired];
    } else {
      if |user.username| < 3 || |user.username| > 20 {
        errors := errors["username" := UsernameLength];
      } else if !UsernamePattern(user.username) {
        errors := errors["username" := UsernameInvalid];
      }
    }
    assert errors == With(afterPassword, "username", UsernameMessage(user.username));
  }

  /** The login validator's message for the email, if any. */
  function LoginEmailMessage(email: string): (m: Option<string>)
    ensures m.None? <==> !IsBlank(email) && EmailPattern(email)
  {
    if IsBlank(email) then Some(EmailRequired)
    else if !EmailPattern(email) then Some(EmailInvalid)
    else None
  }

  /**
   * The dictionary the login validator returns: the email under the login
   * rules (no length rule), the password only for presence.
   */
  function LoginErrors(user: LoginDto): (errors: map<string, string>)
    ensures errors.Keys <= {"email", "password"}
    ensures "email" in errors <==> LoginEmailMessage(user.email).Some?
    ensures "email" in errors ==> Some(errors["email"]) == LoginEmailMessage(user.email)
    ensures "password" in errors <==> IsBlank(user.password)
    ensures "password" in errors ==> errors["password"] == PasswordRequired
  {
    var errors := With(map[], "email", LoginEmailMessage(user.email));
    With(errors, "password", if IsBlank(user.password) then Some(PasswordRequired) else None)
  }

  /** No login errors exactly when the email is present and well formed and the password present. */
  lemma LoginErrorsEmpty(user: LoginDto)
    ensures |LoginErrors(user)| == 0 <==> !IsBlank(user.email) && EmailPattern(user.email) && !IsBlank(user.password)
  {
    var errors := LoginErrors(user);
    if |errors| != 0 {
      var k :| k in errors;
    }
  }

  /** `UserLoginValidator.Validate`. */
  method ValidateLogin(user: LoginDto) returns (errors: map<string, string>)
    ensures errors == LoginErrors(user)
  {
    errors := map[];

    if IsBlank(user.email) {
      errors := errors["email" := EmailRequired];
    } else if !EmailPattern(user.email) {
      errors := errors["email" := EmailInvalid];
    }
    assert errors == With(map[], "email", LoginEmailMessage(user.email));

    if IsBlank(user.password) {
      errors := errors["password" := PasswordRequired];
    }
  }

  /** Credentials that pass registration also pass the login validator. */
  lemma RegisteredCredentialsPassLogin(user: RegisterDto)
    requires RegisterEmailOk(user.email) && RegisterPasswordOk(user.password)
    ensures !IsBlank(user.email) && EmailPattern(user.email) && !IsBlank(user.password)
  {
  }

  /** One character other than `@` and white space is an `[^@\s]+` part. */
  lemma SingleEmailPart(s: string, k: nat)
    requires k < |s| && s[k] != '@' && !IsWhiteSpace(s[k])
    ensures EmailPart(s[k..k + 1])
  {
    assert s[k..k + 1][0] == s[k];
  }

  /** A well-formed address, and one that ends on the line feed `$` tolerates, both match. */
  lemma EmailPatternExamples()
    ensures EmailPattern("a@b.c")
    ensures EmailPattern("a@b.c\n")
    ensures !EmailPattern("a@b")
    ensures !EmailPattern("a b@c.d")
  {
    assert EmailShape("a@b.c") by {
      var s := "a@b.c";
      assert s[0] == 'a' && s[1] == '@' && s[2] == 'b' && s[3] == '.' && s[4] == 'c';
      SingleEmailPart(s, 0);
      SingleEmailPart(s, 2);
      SingleEmailPart(s, 4);
      assert EmailPart(s[..1]) && EmailPart(s[1 + 1..3]) && EmailPart(s[3 + 1..]);
    }
    assert "a@b.c\n"[..5] == "a@b.c";
    assert !EmailShape("a@b") by {
      var s := "a@b";
      forall i, j | 0 <= i < j < |s| && s[i] == '@' && s[j] == '.' ensures false {
      }
    }
    assert !EmailShape("a b@c.d") by {
      var s := "a b@c.d";
      forall i, j | 0 <= i < j < |s| && s[i] == '@' && s[j] == '.' ensures !EmailPart(s[..i]) {
        assert i == 3;
        assert s[..i][1] == ' ';
      }
    }
  }
}
