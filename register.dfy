/**
 * auth/register.php: check that email, password and full_name were posted,
 * refuse an email that already has a `users` row, hash the password and insert
 * one row. The script has no try/catch, so a raised query error is fatal.
 */
module AuthRegister {
  import opened Store
  import opened Password

  const MissingFields: string := "email, password and full_name are required"
  const QueryError: string := "error in query"
  const AlreadyRegistered: string := "Email is already registered"
  const InsertFailed: string := "Failed to register (query error)"
  const Registered: string := "User registered successfully"

  /** The script's reply and resulting database, for the posted fields, the salt
      `password_hash` draws, and what the SELECT and the INSERT do. */
  function RegisterResult(t: Tables, email: Option<string>, password: Option<string>,
                          fullName: Option<string>, salt: string,
                          lookup: QueryResult, insert: QueryResult): (o: Outcome)
    // isset() fails: nothing is queried
    ensures email.None? || password.None? || fullName.None? ==>
      o == Outcome(Reply(false, MissingFields), t)
    // every failure leaves the database as it was and issues no token
    ensures !o.response.Successful() ==> o.tables == t
    ensures o.tables.tokens == t.tokens
    ensures o.response.Successful() <==>
      email.Some? && password.Some? && fullName.Some? &&
      lookup.Ok? && email.value !in t.users && insert.Ok?
    // storage failures are reported as such, never as a duplicate or a credential problem
    ensures email.Some? && password.Some? && fullName.Some? && lookup.Raised? ==>
      o == Outcome(Fatal(lookup.message), t)
    ensures email.Some? && password.Some? && fullName.Some? && lookup.ReturnedFalse? ==>
      o == Outcome(Reply(false, QueryError), t)
    ensures email.Some? && password.Some? && fullName.Some? && lookup.Ok? && email.value in t.users ==>
      o == Outcome(Reply(false, AlreadyRegistered), t)
    ensures email.Some? && password.Some? && fullName.Some? && lookup.Ok? && email.value !in t.users ==>
      && (insert.Raised? ==> o == Outcome(Fatal(insert.message), t))
      && (insert.ReturnedFalse? ==> o == Outcome(Reply(false, InsertFailed), t))
    // success adds exactly one row, holding a hash that verifies against the password, with role 'user'
    ensures o.response.Successful() ==>
      && o.response == Reply(true, Registered)
      && o.tables == InsertUser(t, email.value, Hash(password.value, salt, DefaultCost), fullName.value)
      && |o.tables.users| == |t.users| + 1
      && Verify(password.value, o.tables.users[email.value].password)
      && o.tables.users[email.value].role == DefaultRole
    ensures WellFormed(t) ==> WellFormed(o.tables)
  {
    if email.None? || password.None? || fullName.None? then
      Outcome(Reply(false, MissingFields), t)
    else if lookup.Raised? then Outcome(Fatal(lookup.message), t)
    else if lookup.ReturnedFalse? then Outcome(Reply(false, QueryError), t)
    else if email.value in t.users then Outcome(Reply(false, AlreadyRegistered), t)
    else
      var hashed := Hash(password.value, salt, DefaultCost);
      if insert.Raised? then Outcome(Fatal(insert.message), t)
      else if insert.ReturnedFalse? then Outcome(Reply(false, InsertFailed), t)
      else
        VerifyHash(password.value, salt, DefaultCost);
        Outcome(Reply(true, Registered), InsertUser(t, email.value, hashed, fullName.value))
  }

  /** Registration never creates an administrator: every 'admin' row afterwards was there before, unchanged. */
  lemma RegisterGrantsNoAdmin(t: Tables, email: Option<string>, password: Option<string>,
                              fullName: Option<string>, salt: string, lookup: QueryResult, insert: QueryResult)
    ensures var after := RegisterResult(t, email, password, fullName, salt, lookup, insert).tables;
      forall e :: e in after.users && after.users[e].role == AdminRole ==>
        e in t.users && after.users[e] == t.users[e]
  {
  }

  /** After a successful registration, registering the same email again is refused and changes nothing. */
  lemma RegisterTwice(t: Tables, email: string, password: string, fullName: string, salt: string,
                      password2: Option<string>, fullName2: Option<string>, salt2: string, insert2: QueryResult)
    requires RegisterResult(t, Some(email), Some(password), Some(fullName), salt, Ok, Ok).response.Successful()
    requires password2.Some? && fullName2.Some?
    ensures var t1 := RegisterResult(t, Some(email), Some(password), Some(fullName), salt, Ok, Ok).tables;
      RegisterResult(t1, Some(email), password2, fullName2, salt2, Ok, insert2) ==
        Outcome(Reply(false, AlreadyRegistered), t1)
  {
  }

  /** The script, step by step; each `die()` is a `return`. */
  method Register(db: Database, email: Option<string>, password: Option<string>,
                  fullName: Option<string>, salt: string,
                  lookup: QueryResult, insert: QueryResult) returns (r: Response)
    modifies db
    ensures Outcome(r, db.State()) ==
      RegisterResult(old(db.State()), email, password, fullName, salt, lookup, insert)
    ensures old(WellFormed(db.State())) ==> WellFormed(db.State())
  {
    if email.None? || password.None? || fullName.None? {
      return Reply(false, MissingFields);
    }
    if lookup.Raised? {
      return Fatal(lookup.message);
    }
    if lookup.ReturnedFalse? {
      return Reply(false, QueryError);
    }
    if email.value in db.users {
      return Reply(false, AlreadyRegistered);
    }
    var hashed := Hash(password.value, salt, DefaultCost);
    if insert.Raised? {
      return Fatal(insert.message);
    }
    if insert.ReturnedFalse? {
      return Reply(false, InsertFailed);
    }
    var after := InsertUser(db.State(), email.value, hashed, fullName.value);
    db.users, db.nextUserId := after.users, after.nextUserId;
    return Reply(true, Registered);
  }
}
