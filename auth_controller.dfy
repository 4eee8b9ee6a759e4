/**
 * controllers/authController.js: the Node/Express variant of registration,
 * login and logout, over a MongoDB `users` collection (keyed here by email) and
 * the client's `token` cookie. Signing the JWT, the new document's `_id`, the
 * bcrypt salt and whether each awaited call (findOne, save, sendMail) rejects
 * are parameters; a rejection lands in the handler's `catch`.
 */
module AuthController {
  import opened Store
  import opened Password

  const MissingDetails: string := "Missing Details"
  const UserExists: string := "User already exists"
  const Registered: string := "Registration successful"
  const MissingCredentials: string := "Email And Password Are Requires"
  const InvalidEmail: string := "Invalid Email"
  const InvalidPassword: string := "Invalid password"
  const LoggedIn: string := "Login successful"
  const LoggedOut: string := "Logged Out successfully"

  /** `bcrypt.hash(password, 10)`. */
  const SaltRounds: nat := 10

  /** `expiresIn: '7d'` of the JWT. */
  const JwtLifetimeDays: nat := 7
  const MillisecondsPerDay: nat := 24 * 60 * 60 * 1000

  /** `maxAge: 7 * 24 * 60 * 60 * 1000` of the cookie. */
  const CookieMaxAgeMs: nat := 7 * 24 * 60 * 60 * 1000

  /** HTTP status of a reply: Express answers 200 unless `.status(400)` was called. */
  const StatusOk: nat := 200
  const StatusBadRequest: nat := 400

  datatype Account = Account(id: string, name: string, email: string, password: PasswordHash)

  /** The `token` cookie as `res.cookie` sets it. */
  datatype Cookie = Cookie(value: string, maxAgeMs: nat)

  /** How an awaited call settles. */
  datatype Call = Resolves | Rejects(message: string)

  datatype HttpReply = HttpReply(status: nat, success: bool, message: string)

  /** The user collection and the client's cookie. */
  datatype Session = Session(accounts: map<string, Account>, cookie: Option<Cookie>)

  datatype Effect = Effect(reply: HttpReply, session: Session)

  /** JavaScript truthiness of a request field: present and not the empty string. */
  predicate Truthy(field: Option<string>): (truthy: bool)
    ensures truthy <==> field.Some? && |field.value| > 0
  {
    field.Some? && field.value != ""
  }

  /** The cookie lives exactly as long as the JWT inside it: 7 days, 604800000 ms. */
  lemma CookieMatchesJwt()
    ensures CookieMaxAgeMs == JwtLifetimeDays * MillisecondsPerDay == 604800000
  {
  }

  /** `register`: the reply, the collection and the cookie afterwards. */
  function RegisterResult(s: Session, name: Option<string>, email: Option<string>, password: Option<string>,
                          salt: string, newId: string, jwt: string,
                          find: Call, save: Call, mail: Call): (o: Effect)
    // a falsy field is refused before any lookup
    ensures !Truthy(name) || !Truthy(email) || !Truthy(password) ==>
      o == Effect(HttpReply(StatusOk, false, MissingDetails), s)
    ensures Truthy(name) && Truthy(email) && Truthy(password) && find.Resolves? && email.value in s.accounts ==>
      o == Effect(HttpReply(StatusBadRequest, false, UserExists), s)
    // a rejected findOne or save lands in the catch, which replies with the error's message
    ensures Truthy(name) && Truthy(email) && Truthy(password) && find.Rejects? ==>
      o == Effect(HttpReply(StatusOk, false, find.message), s)
    ensures Truthy(name) && Truthy(email) && Truthy(password) && find.Resolves? && email.value !in s.accounts &&
            save.Rejects? ==>
      o == Effect(HttpReply(StatusOk, false, save.message), s)
    // the collection changes only by saving the new account, whose password is the bcrypt hash
    ensures o.session.accounts != s.accounts <==>
      Truthy(name) && Truthy(email) && Truthy(password) && find.Resolves? &&
      email.value !in s.accounts && save.Resolves?
    ensures o.session.accounts != s.accounts ==>
      && o.session.accounts == s.accounts[email.value := Account(newId, name.value, email.value,
                                                                 Hash(password.value, salt, SaltRounds))]
      && o.session.accounts[email.value].password.cost == SaltRounds
      && Verify(password.value, o.session.accounts[email.value].password)
      && o.session.cookie == Some(Cookie(jwt, CookieMaxAgeMs))
    ensures o.session.accounts == s.accounts ==> o.session == s
    // success needs the welcome mail too: a mail failure reports failure after the account is saved
    ensures o.reply.success <==> o.session.accounts != s.accounts && mail.Resolves?
    ensures o.reply.success ==> o.reply == HttpReply(StatusOk, true, Registered)
    ensures o.session.accounts != s.accounts && mail.Rejects? ==>
      o.reply == HttpReply(StatusOk, false, mail.message)
  {
    if !Truthy(name) || !Truthy(email) || !Truthy(password) then
      Effect(HttpReply(StatusOk, false, MissingDetails), s)
    else if find.Rejects? then Effect(HttpReply(StatusOk, false, find.message), s)
    else if email.value in s.accounts then Effect(HttpReply(StatusBadRequest, false, UserExists), s)
    else
      var hashed := Hash(password.value, salt, SaltRounds);
      if save.Rejects? then Effect(HttpReply(StatusOk, false, save.message), s)
      else
        var saved := s.(accounts := s.accounts[email.value := Account(newId, name.value, email.value, hashed)]);
        assert email.value in saved.accounts && email.value !in s.accounts;
        VerifyHash(password.value, salt, SaltRounds);
        var signedIn := saved.(cookie := Some(Cookie(jwt, CookieMaxAgeMs)));
        if mail.Rejects? then Effect(HttpReply(StatusOk, false, mail.message), signedIn)
        else Effect(HttpReply(StatusOk, true, Registered), signedIn)
  }

  /** `login`: the reply and the cookie afterwards; the collection is only read. */
  function LoginResult(s: Session, email: Option<string>, password: Option<string>, jwt: string,
                       find: Call): (o: Effect)
    ensures o.session.accounts == s.accounts
    ensures !Truthy(email) || !Truthy(password) ==>
      o == Effect(HttpReply(StatusBadRequest, false, MissingCredentials), s)
    ensures Truthy(email) && Truthy(password) && find.Rejects? ==>
      o == Effect(HttpReply(StatusOk, false, find.message), s)
    ensures Truthy(email) && Truthy(password) && find.Resolves? && email.value !in s.accounts ==>
      o == Effect(HttpReply(StatusOk, false, InvalidEmail), s)
    ensures Truthy(email) && Truthy(password) && find.Resolves? && email.value in s.accounts &&
            !Verify(password.value, s.accounts[email.value].password) ==>
      o == Effect(HttpReply(StatusOk, false, InvalidPassword), s)
    // the cookie is set exactly on success, and then carries the new JWT for 7 days
    ensures o.reply.success <==>
      Truthy(email) && Truthy(password) && find.Resolves? && email.value in s.accounts &&
      Verify(password.value, s.accounts[email.value].password)
    ensures o.reply.success ==>
      o.reply == HttpReply(StatusOk, true, LoggedIn) && o.session.cookie == Some(Cookie(jwt, CookieMaxAgeMs))
    ensures !o.reply.success ==> o.session == s
  {
    if !Truthy(email) || !Truthy(password) then
      Effect(HttpReply(StatusBadRequest, false, MissingCredentials), s)
    else if find.Rejects? then Effect(HttpReply(StatusOk, false, find.message), s)
    else if email.value !in s.accounts then Effect(HttpReply(StatusOk, false, InvalidEmail), s)
    else if !Verify(password.value, s.accounts[email.value].password) then
      Effect(HttpReply(StatusOk, false, InvalidPassword), s)
    else Effect(HttpReply(StatusOk, true, LoggedIn), s.(cookie := Some(Cookie(jwt, CookieMaxAgeMs))))
  }

  /** `logout`: the cookie is cleared and the reply is a success. */
  function LogoutResult(s: Session): (o: Effect)
    ensures o.session.cookie.None? && o.session.accounts == s.accounts
    ensures o.reply.success
  {
    Effect(HttpReply(StatusOk, true, LoggedOut), s.(cookie := None))
  }

  /** An account saved by `register` can log in with its password, even when the
      welcome mail failed and `register` reported failure. */
  lemma RegisterThenLogin(s: Session, name: string, email: string, password: string, salt: string,
                          newId: string, jwt: string, mail: Call, jwt2: string)
    requires name != "" && email != "" && password != "" && email !in s.accounts
    ensures var after := RegisterResult(s, Some(name), Some(email), Some(password), salt, newId, jwt,
                                        Resolves, Resolves, mail).session;
      && email in after.accounts
      && LoginResult(after, Some(email), Some(password), jwt2, Resolves).reply.success
  {
    VerifyHash(password, salt, SaltRounds);
  }

  /** The Express handlers over the live collection and cookie. */
  class Server {
    var accounts: map<string, Account>
    var cookie: Option<Cookie>

    function State(): Session
      reads this
    {
      Session(accounts, cookie)
    }

    constructor ()
      ensures State() == Session(map[], None)
    {
      accounts, cookie := map[], None;
    }

    /** `register`, step by step; each `return res.json(...)` is a `return`. */
    method Register(name: Option<string>, email: Option<string>, password: Option<string>,
                    salt: string, newId: string, jwt: string,
                    find: Call, save: Call, mail: Call) returns (r: HttpReply)
      modifies this
      ensures Effect(r, State()) ==
        RegisterResult(old(State()), name, email, password, salt, newId, jwt, find, save, mail)
    {
      if !Truthy(name) || !Truthy(email) || !Truthy(password) {
        return HttpReply(StatusOk, false, MissingDetails);
      }
      if find.Rejects? {
        return HttpReply(StatusOk, false, find.message);
      }
      if email.value in accounts {
        return HttpReply(StatusBadRequest, false, UserExists);
      }
      var hashed := Hash(password.value, salt, SaltRounds);
      if save.Rejects? {
        return HttpReply(StatusOk, false, save.message);
      }
      accounts := accounts[email.value := Account(newId, name.value, email.value, hashed)];
      cookie := Some(Cookie(jwt, CookieMaxAgeMs));
      if mail.Rejects? {
        return HttpReply(StatusOk, false, mail.message);
      }
      return HttpReply(StatusOk, true, Registered);
    }

    /** `login`, step by step. */
    method Login(email: Option<string>, password: Option<string>, jwt: string, find: Call) returns (r: HttpReply)
      modifies this
      ensures Effect(r, State()) == LoginResult(old(State()), email, password, jwt, find)
    {
      if !Truthy(email) || !Truthy(password) {
        return HttpReply(StatusBadRequest, false, MissingCredentials);
      }
      if find.Rejects? {
        return HttpReply(StatusOk, false, find.message);
      }
      if email.value !in accounts {
        return HttpReply(StatusOk, false, InvalidEmail);
      }
      var isMatch := Verify(password.value, accounts[email.value].password);
      if !isMatch {
        return HttpReply(StatusOk, false, InvalidPassword);
      }
      cookie := Some(Cookie(jwt, CookieMaxAgeMs));
      return HttpReply(StatusOk, true, LoggedIn);
    }

    /** `logout`. */
    method Logout() returns (r: HttpReply)
      modifies this
      ensures Effect(r, State()) == LogoutResult(old(State()))
    {
      cookie := None;
      return HttpReply(StatusOk, true, LoggedOut);
    }
  }
}
