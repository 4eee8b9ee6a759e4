/**
 * auth/login.php: check that email and password were posted, find the user by
 * email, verify the password, mint `bin2hex(random_bytes(32))` and insert it
 * into `tokens`. The 32 random bytes are a parameter. The script has no
 * try/catch, so a raised query error is fatal.
 *
 * The model assumes `tokens.token` is a unique key: an insert of a token that is
 * already present is refused like any other failed INSERT. The schema itself is
 * not part of this model.
 */
module AuthLogin {
  import opened Store
  import opened Password
  import Hex
  import Auth

  const MissingFields: string := "email and password are required"
  const QueryError: string := "error in query"
  const NotFound: string := "User not found"
  const WrongPassword: string := "Wrong password"
  const InsertFailed: string := "Failed to insert token (query error)"
  const LoggedIn: string := "User logged in successfully"

  /** `random_bytes(32)`. */
  const TokenBytes: nat := 32

  /** The reply and resulting database, for the posted fields, the random bytes
      drawn, and what the SELECT and the INSERT do. */
  function LoginResult(t: Tables, email: Option<string>, password: Option<string>,
                       randomBytes: seq<Hex.byte>, lookup: QueryResult, insert: QueryResult): (o: Outcome)
    requires |randomBytes| == TokenBytes
    ensures email.None? || password.None? ==> o == Outcome(Reply(false, MissingFields), t)
    // storage failures are reported as such, never as an unknown user or a wrong password
    ensures email.Some? && password.Some? && lookup.Raised? ==> o == Outcome(Fatal(lookup.message), t)
    ensures email.Some? && password.Some? && lookup.ReturnedFalse? ==> o == Outcome(Reply(false, QueryError), t)
    ensures email.Some? && password.Some? && lookup.Ok? && email.value !in t.users ==>
      o == Outcome(Reply(false, NotFound), t)
    ensures email.Some? && password.Some? && lookup.Ok? && email.value in t.users &&
            !Verify(password.value, t.users[email.value].password) ==>
      o == Outcome(Reply(false, WrongPassword), t)
    // a failed token INSERT (a collision with an existing token included) hands out no token
    ensures email.Some? && password.Some? && lookup.Ok? && email.value in t.users &&
            Verify(password.value, t.users[email.value].password) ==>
      && (insert.Raised? ==> o == Outcome(Fatal(insert.message), t))
      && (insert.ReturnedFalse? ==> o == Outcome(Reply(false, InsertFailed), t))
      && (insert.Ok? && Hex.Encode(randomBytes) in t.tokens ==> o == Outcome(Reply(false, InsertFailed), t))
    // a failure changes no table and hands out no token
    ensures !o.response.Successful() ==> o.tables == t && (o.response.Json? ==> o.response.token.None?)
    ensures o.response.Successful() <==>
      email.Some? && password.Some? && lookup.Ok? && email.value in t.users &&
      Verify(password.value, t.users[email.value].password) &&
      insert.Ok? && Hex.Encode(randomBytes) !in t.tokens
    // success returns the token it stored: 64 lower-case hex digits, resolving to the user's id
    ensures o.response.Successful() ==>
      && o.response == Json(true, Some(LoggedIn), None, Some(Hex.Encode(randomBytes)), None)
      && o.response.token == Some(Hex.Encode(randomBytes))
      && |o.response.token.value| == 2 * TokenBytes == 64
      && (forall i :: 0 <= i < 64 ==> Hex.IsHexDigit(o.response.token.value[i]))
      && o.tables == InsertToken(t, o.response.token.value, t.users[email.value].id)
      && Auth.GetUserIdByToken(o.tables.tokens, o.response.token.value) == Some(t.users[email.value].id)
    // earlier tokens are never removed or re-pointed
    ensures forall k :: k in t.tokens ==> k in o.tables.tokens && o.tables.tokens[k] == t.tokens[k]
    ensures o.tables.users == t.users
    ensures WellFormed(t) ==> WellFormed(o.tables)
  {
    if email.None? || password.None? then Outcome(Reply(false, MissingFields), t)
    else if lookup.Raised? then Outcome(Fatal(lookup.message), t)
    else if lookup.ReturnedFalse? then Outcome(Reply(false, QueryError), t)
    else if email.value !in t.users then Outcome(Reply(false, NotFound), t)
    else
      var user := t.users[email.value];
      if !Verify(password.value, user.password) then Outcome(Reply(false, WrongPassword), t)
      else
        var token := Hex.Encode(randomBytes);
        if insert.Raised? then Outcome(Fatal(insert.message), t)
        else if insert.ReturnedFalse? || token in t.tokens then Outcome(Reply(false, InsertFailed), t)
        else
          assert IdInUse(t.users, user.id);
          Outcome(Json(true, Some(LoggedIn), None, Some(token), None), InsertToken(t, token, user.id))
  }

  /** Two successful logins of the same user, with different random bytes, leave
      two different tokens that both resolve to that user. */
  lemma {:induction false} LoginTwice(t: Tables, email: string, password: string, bytes1: seq<Hex.byte>,
                                      bytes2: seq<Hex.byte>)
    requires |bytes1| == TokenBytes && |bytes2| == TokenBytes && bytes1 != bytes2
    requires LoginResult(t, Some(email), Some(password), bytes1, Ok, Ok).response.Successful()
    requires LoginResult(LoginResult(t, Some(email), Some(password), bytes1, Ok, Ok).tables,
                         Some(email), Some(password), bytes2, Ok, Ok).response.Successful()
    ensures var o1 := LoginResult(t, Some(email), Some(password), bytes1, Ok, Ok);
            var o2 := LoginResult(o1.tables, Some(email), Some(password), bytes2, Ok, Ok);
      && o1.response.token.value != o2.response.token.value
      && Auth.GetUserIdByToken(o2.tables.tokens, o1.response.token.value) == Some(t.users[email].id)
      && Auth.GetUserIdByToken(o2.tables.tokens, o2.response.token.value) == Some(t.users[email].id)
  {
    Hex.EncodeInjective(bytes1, bytes2);
  }

  /** The script, step by step; each `die()` is a `return`. */
  method Login(db: Database, email: Option<string>, password: Option<string>,
               randomBytes: seq<Hex.byte>, lookup: QueryResult, insert: QueryResult) returns (r: Response)
    requires |randomBytes| == TokenBytes
    modifies db
    ensures Outcome(r, db.State()) == LoginResult(old(db.State()), email, password, randomBytes, lookup, insert)
    ensures old(WellFormed(db.State())) ==> WellFormed(db.State())
  {
    if email.None? || password.None? {
      return Reply(false, MissingFields);
    }
    if lookup.Raised? {
      return Fatal(lookup.message);
    }
    if lookup.ReturnedFalse? {
      return Reply(false, QueryError);
    }
    if email.value !in db.users {
      return Reply(false, NotFound);
    }
    var user := db.users[email.value];
    if !Verify(password.value, user.password) {
      return Reply(false, WrongPassword);
    }
    var token := Hex.Encode(randomBytes);
    if insert.Raised? {
      return Fatal(insert.message);
    }
    if insert.ReturnedFalse? || token in db.tokens {
      return Reply(false, InsertFailed);
    }
    db.tokens := InsertToken(db.State(), token, user.id).tokens;
    return Json(true, Some(LoggedIn), None, Some(token), None);
  }
}
