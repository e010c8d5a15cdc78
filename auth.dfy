/**
 * controller/authenticationController.js: logging in with a username and a password checked
 * against the stored bcrypt hash, and signing up. bcrypt and jsonwebtoken are oracles: `hash`
 * and `compare` stand for bcrypt, `sign` for signing the claims `{username, role}` with the
 * server's secret and a one-hour expiry (None when signing fails).
 */
module Auth {
  import opened Wrappers
  import opened Http
  import opened Schema

  /** The body of a successful login: the token and the account's role. */
  datatype Session = Session(token: string, role: Option<string>)

  /**
   * login as written. The row the lookup returns is an object, so `result.length === 0` never
   * holds: 404 is never answered, and a missing row makes `result.length` throw inside the
   * database callback.
   */
  function Login(accounts: seq<Account>, username: Option<string>, password: Option<string>,
                 compare: (string, string) -> bool, sign: (string, Option<string>) -> Option<string>): (r: Reply<Session>)
    ensures !Given(username) || !Given(password) ==> r == Fail(400, "Username and password are required")
    ensures r.Crash? <==> Given(username) && Given(password) && !UsernameTaken(accounts, username.value)
    ensures !r.Answers(404)
    ensures r.Success? ==>
      && r.status == 200
      && AccountNamed(accounts, username.value).Some?
      && var a := AccountNamed(accounts, username.value).value;
      && a.password.Some? && compare(password.value, a.password.value)
      && sign(a.username, a.role).Some?
      && r.payload == Session(sign(a.username, a.role).value, a.role)
    ensures r.Answers(401) ==>
      var a := AccountNamed(accounts, username.value).value;
      a.password.Some? && !compare(password.value, a.password.value)
  {
    if !Given(username) || !Given(password) then Fail(400, "Username and password are required")
    else
      match AccountNamed(accounts, username.value)
      case None => Crash
      case Some(a) =>
        if a.password.None? then Fail(500, "Error comparing passwords")
        else if !compare(password.value, a.password.value) then Fail(401, "Invalid password")
        else
          match sign(a.username, a.role)
          case None => Fail(500, "Token generation failed")
          case Some(token) => Success(200, Session(token, a.role))
  }

  /** login as evidently intended: an unknown username is answered 404 "Account not found". */
  function LoginIntended(accounts: seq<Account>, username: Option<string>, password: Option<string>,
                         compare: (string, string) -> bool, sign: (string, Option<string>) -> Option<string>): (r: Reply<Session>)
    ensures !r.Crash?
    ensures r.Answers(404) <==> Given(username) && Given(password) && !UsernameTaken(accounts, username.value)
    ensures !r.Answers(404) ==> r == Login(accounts, username, password, compare, sign)
  {
    if Given(username) && Given(password) && AccountNamed(accounts, username.value).None? then
      Fail(404, "Account not found")
    else Login(accounts, username, password, compare, sign)
  }

  /** The discrepancy: for an unknown username the handler as written never answers. */
  lemma UnknownUserCrashesLogin(accounts: seq<Account>, username: string, password: string,
                                compare: (string, string) -> bool, sign: (string, Option<string>) -> Option<string>)
    requires username != "" && password != "" && !UsernameTaken(accounts, username)
    ensures Login(accounts, Some(username), Some(password), compare, sign) == Crash
    ensures LoginIntended(accounts, Some(username), Some(password), compare, sign) == Fail(404, "Account not found")
  {
  }

  /**
   * signUp: a taken username is refused with 401; a missing password makes bcrypt fail (500);
   * the INSERT refuses a missing username or a role outside the CHECK (400). Otherwise the
   * account is stored with the hash of the password.
   */
  method SignUp(db: Database, username: Option<string>, password: Option<string>, role: Option<string>,
                hash: string -> string)
    returns (r: Reply<string>)
    requires db.Valid()
    modifies db`accounts, db`accountSeq
    ensures db.Valid()
    ensures username.Some? && UsernameTaken(old(db.accounts), username.value) ==>
      r == Failure(401, "Username already exists.", None)
    ensures !(username.Some? && UsernameTaken(old(db.accounts), username.value)) && password.None? ==>
      r == Fail(500, "Error hashing password")
    ensures (!(username.Some? && UsernameTaken(old(db.accounts), username.value)) && password.Some?
             && (username.None? || !RoleAllowed(role))) ==> r == Fail(400, "Bad Request")
    ensures r.Success? <==>
      username.Some? && !UsernameTaken(old(db.accounts), username.value) && password.Some? && RoleAllowed(role)
    ensures r.Success? ==>
      && r == Success(200, username.value)
      && db.accountSeq == old(db.accountSeq) + 1
      && db.accounts == old(db.accounts) + [Account(db.accountSeq, username.value, Some(hash(password.value)), role, None, None)]
    ensures !r.Success? ==> db.accounts == old(db.accounts) && db.accountSeq == old(db.accountSeq)
  {
    var row := if username.Some? then AccountNamed(db.accounts, username.value) else None;
    if row.Some? {
      return Failure(401, "Username already exists.", None);
    }
    if password.None? {
      return Fail(500, "Error hashing password");
    }
    var hashed := hash(password.value);
    var id := db.InsertAccount(username, Some(hashed), role);
    if id.None? {
      return Fail(400, "Bad Request");
    }
    r := Success(200, username.value);
  }

  /**
   * Signing up and then logging in with the same credentials succeeds with the role given at
   * sign-up, provided bcrypt accepts a password against its own hash and signing succeeds.
   */
  lemma SignedUpCanLogIn(accounts: seq<Account>, id: int, username: string, password: string, role: Option<string>,
                         hash: string -> string, compare: (string, string) -> bool,
                         sign: (string, Option<string>) -> Option<string>)
    requires !UsernameTaken(accounts, username)
    requires username != "" && password != ""
    requires compare(password, hash(password))
    requires sign(username, role).Some?
    ensures Login(accounts + [Account(id, username, Some(hash(password)), role, None, None)],
                  Some(username), Some(password), compare, sign)
            == Success(200, Session(sign(username, role).value, role))
  {
    var row := Account(id, username, Some(hash(password)), role, None, None);
    var found := AccountNamed(accounts + [row], username);
    assert row in accounts + [row];
    assert found.value !in accounts;
  }

  /** A password bcrypt does not match against the stored hash is refused with 401, whatever the token service does. */
  lemma WrongPasswordRefused(accounts: seq<Account>, username: string, password: string,
                             compare: (string, string) -> bool, sign: (string, Option<string>) -> Option<string>)
    requires username != "" && password != ""
    requires AccountNamed(accounts, username).Some? && AccountNamed(accounts, username).value.password.Some?
    requires !compare(password, AccountNamed(accounts, username).value.password.value)
    ensures Login(accounts, Some(username), Some(password), compare, sign) == Fail(401, "Invalid password")
  {
  }
}
