/**
 * User accounts (`AuthController`): registration with canonicalised,
 * case-insensitively unique username and email, and login by email and
 * password.
 */
module Auth {

  import opened Wrappers
  import opened Text
  import opened Linq
  import opened Credentials
  import opened Models
  import opened Validation

  /** `Users.AnyAsync(u => u.Username.ToLower() == username.ToLower())`. */
  predicate UsernameTaken(users: seq<User>, username: string) {
    exists u :: u in users && LowerAll(u.username) == LowerAll(username)
  }

  /** `Users.AnyAsync(u => u.Email.ToLower() == email)`. */
  predicate EmailTaken(users: seq<User>, email: string) {
    exists u :: u in users && LowerAll(u.email) == email
  }

  function HasEmail(email: string): User -> bool {
    (u: User) => LowerAll(u.email) == email
  }

  class AuthController {
    const db: AppDbContext

    constructor (db: AppDbContext)
      ensures this.db == db
    {
      this.db := db;
    }

    /**
     * `POST /register`. `newUserId` stands for `Guid.NewGuid()`. The stored
     * username is the trimmed input, the stored email the trimmed input in
     * lower case; the username is checked before the email.
     */
    method Register(request: RegisterDto, newUserId: Guid) returns (r: ActionResult<User>)
      requires db.Valid()
      modifies db
      ensures db.Valid()
      ensures db.devices == old(db.devices) && db.deviceUsers == old(db.deviceUsers)
      ensures db.measurements == old(db.measurements)
      ensures UserKeysUniqueIgnoringCase(old(db.users)) ==> UserKeysUniqueIgnoringCase(db.users)
      ensures !r.Ok? ==> db.users == old(db.users)
      // Validation errors are returned as they are.
      ensures r.BadRequest? <==>
                !(RegisterEmailOk(request.email) && RegisterPasswordOk(request.password) &&
                  RegisterUsernameOk(request.username))
      ensures r.BadRequest? ==> r == BadRequest(Errors(RegisterErrors(request))) && |r.body.errors| > 0
      // Uniqueness, username first.
      ensures !r.BadRequest? && UsernameTaken(old(db.users), Trim(request.username)) ==>
                r == Conflict(Errors(map["username" := "Username already exists."]))
      ensures !r.BadRequest? && !UsernameTaken(old(db.users), Trim(request.username)) &&
              EmailTaken(old(db.users), LowerAll(Trim(request.email))) ==>
                r == Conflict(Errors(map["email" := "Email already exists."]))
      // A conflict answers only a clash.
      ensures r.Conflict? ==>
                UsernameTaken(old(db.users), Trim(request.username)) ||
                EmailTaken(old(db.users), LowerAll(Trim(request.email)))
      // Otherwise exactly one user is added, whose hash verifies the password.
      ensures !r.BadRequest? && !r.Conflict? ==>
                && r.Ok?
                && r.value == User(newUserId, Trim(request.username), LowerAll(Trim(request.email)), r.value.passwordHash)
                && Verify(request.password, r.value.passwordHash)
                && db.users == old(db.users) + [r.value]
    {
      var errors := ValidateRegister(request);
      RegisterErrorsEmpty(request);
      if |errors| > 0 {
        return BadRequest(Errors(errors));
      }

      var username := Trim(request.username);
      var email := LowerAll(Trim(request.email));

      if UsernameTaken(db.users, username) {
        return Conflict(Errors(map["username" := "Username already exists."]));
      }
      if EmailTaken(db.users, email) {
        return Conflict(Errors(map["email" := "Email already exists."]));
      }

      var user := User(newUserId, username, email, HashPassword(request.password));
      LowerAllIdempotent(Trim(request.email));
      NewUserKeepsKeysUnique(db.users, user);
      db.AddUser(user);
      return Ok(user);
    }

    /**
     * `POST /login`: the user whose stored email, lower-cased, equals the
     * trimmed and lower-cased input, provided the password verifies. The
     * store is only read.
     */
    method Login(request: LoginDto) returns (r: ActionResult<User>)
      ensures r.BadRequest? <==>
                !(!IsBlank(request.email) && EmailPattern(request.email) && !IsBlank(request.password))
      ensures r.BadRequest? ==> r == BadRequest(Errors(LoginErrors(request))) && |r.body.errors| > 0
      ensures !r.BadRequest? && !EmailTaken(db.users, LowerAll(Trim(request.email))) ==>
                r == Unauthorized(Error("incorrect email."))
      ensures !r.BadRequest? && EmailTaken(db.users, LowerAll(Trim(request.email))) ==>
                var user := db.users[FirstIndex(db.users, HasEmail(LowerAll(Trim(request.email))))];
                if Verify(request.password, user.passwordHash) then r == Ok(user)
                else r == Unauthorized(Error("Incorrect password."))
      ensures r.Ok? ==>
                && r.value in db.users
                && LowerAll(r.value.email) == LowerAll(Trim(request.email))
                && Verify(request.password, r.value.passwordHash)
    {
      var errors := ValidateLogin(request);
      LoginErrorsEmpty(request);
      if |errors| > 0 {
        return BadRequest(Errors(errors));
      }

      var email := LowerAll(Trim(request.email));
      var user := FirstOrDefault(db.users, HasEmail(email));
      if user.None? {
        return Unauthorized(Error("incorrect email."));
      }

      var password := Verify(request.password, user.value.passwordHash);
      if !password {
        return Unauthorized(Error("Incorrect password."));
      }
      return Ok(user.value);
    }
  }

  /** A user whose username and email clash with no stored one, ignoring case, keeps both uniqueness invariants. */
  lemma NewUserKeepsKeysUnique(users: seq<User>, user: User)
    requires UserKeysUnique(users)
    requires !UsernameTaken(users, user.username) && !EmailTaken(users, LowerAll(user.email))
    ensures UserKeysUnique(users + [user])
    ensures UserKeysUniqueIgnoringCase(users) ==> UserKeysUniqueIgnoringCase(users + [user])
  {
    var all := users + [user];
    forall i | 0 <= i < |users|
      ensures all[i].username != user.username && all[i].email != user.email
      ensures LowerAll(all[i].username) != LowerAll(user.username)
      ensures LowerAll(all[i].email) != LowerAll(user.email)
    {
      assert all[i] in users;
    }
  }

  /** Login's lookup over the users plus a newly appended one with a fresh email finds that one. */
  lemma LoginFindsNewUser(users: seq<User>, user: User, email: string)
    requires !EmailTaken(users, email) && LowerAll(user.email) == email
    ensures EmailTaken(users + [user], email)
    ensures FirstIndex(users + [user], HasEmail(email)) == |users|
  {
    var all := users + [user];
    assert all[|users|] == user && user in all;
    forall k | 0 <= k < |users| ensures !HasEmail(email)(all[k]) {
      assert all[k] == users[k] && users[k] in users;
    }
  }

  /**
   * A valid registration that clashes with nothing succeeds, and the user
   * can then log in with the same email and password, and login finds
   * exactly that user.
   */
  method RegisterThenLogin(c: AuthController, request: RegisterDto, newUserId: Guid)
    returns (registered: ActionResult<User>, loggedIn: ActionResult<User>)
    requires c.db.Valid()
    modifies c.db
    ensures RegisterEmailOk(request.email) && RegisterPasswordOk(request.password) &&
            RegisterUsernameOk(request.username) &&
            !UsernameTaken(old(c.db.users), Trim(request.username)) &&
            !EmailTaken(old(c.db.users), LowerAll(Trim(request.email))) ==>
              registered.Ok?
    ensures registered.Ok? ==> loggedIn == Ok(registered.value)
  {
    ghost var before := c.db.users;
    registered := c.Register(request, newUserId);
    if registered.Ok? {
      RegisteredCredentialsPassLogin(request);
      LowerAllIdempotent(Trim(request.email));
      LoginFindsNewUser(before, registered.value, LowerAll(Trim(request.email)));
    }
    loggedIn := c.Login(LoginDto(request.email, request.password));
  }
}
