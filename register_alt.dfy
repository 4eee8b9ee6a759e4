/**
 * helpers/auth/register.php: the same registration steps as auth/register.php,
 * with its own messages, a `status` member and a `data` member, and inside a
 * try/catch: a raised query error is answered with success=false and the
 * exception's message as `status` (and no `message` member).
 */
module HelperRegister {
  import opened Store
  import opened Password

  const MissingData: string := "Required data is missing"
  const QueryFailed: string := "Database query failed"
  const AlreadyExists: string := "User already exists"
  const InsertFailed: string := "Failed to register query user"
  const Registered: string := "User registered successfully"

  /** `["success" => false, "status" => "error", "message" => ..., ("data" => ...)]`. */
  function Error(message: string, data: Option<Data>): Response
  {
    Json(false, Some(message), Some("error"), None, data)
  }

  /** The `catch (Exception $e)` reply. */
  function Caught(exception: string): (r: Response)
    ensures r.Json? && !r.success && r.message.None? && r.status == Some(exception)
  {
    Json(false, None, Some(exception), None, None)
  }

  function RegisterResult(t: Tables, email: Option<string>, password: Option<string>,
                          fullName: Option<string>, salt: string,
                          lookup: QueryResult, insert: QueryResult): (o: Outcome)
    ensures email.None? || password.None? || fullName.None? ==>
      o == Outcome(Error(MissingData, None), t)
    ensures email.Some? && password.Some? && fullName.Some? && lookup.ReturnedFalse? ==>
      o == Outcome(Error(QueryFailed, Some(EmptyList)), t)
    // a raised lookup is caught: the exception's message becomes `status`
    ensures email.Some? && password.Some? && fullName.Some? && lookup.Raised? ==>
      o == Outcome(Caught(lookup.message), t)
    // a duplicate is refused, echoing back what was submitted
    ensures email.Some? && password.Some? && fullName.Some? && lookup.Ok? && email.value in t.users ==>
      o == Outcome(Error(AlreadyExists, Some(Submitted(email.value, fullName.value))), t)
    ensures email.Some? && password.Some? && fullName.Some? && lookup.Ok? && email.value !in t.users ==>
      && (insert.Raised? ==> o == Outcome(Caught(insert.message), t))
      && (insert.ReturnedFalse? ==> o == Outcome(Error(InsertFailed, Some(EmptyList)), t))
    // a raised exception never escapes the script: it becomes a failure reply carrying its message
    ensures o.response.Json?
    ensures o.response.Json? && o.response.message.None? ==>
      !o.response.success && o.response.status.Some? &&
      ((lookup.Raised? && o.response.status.value == lookup.message) ||
       (insert.Raised? && o.response.status.value == insert.message))
    // success is the only reply with status "success" among those that carry a message
    ensures o.response.Successful() ==> o.response.status == Some("success")
    ensures o.response.Json? && o.response.message.Some? ==>
      (o.response.Successful() <==> o.response.status == Some("success"))
    ensures o.response.Successful() <==>
      email.Some? && password.Some? && fullName.Some? &&
      lookup.Ok? && email.value !in t.users && insert.Ok?
    ensures !o.response.Successful() ==> o.tables == t
    ensures o.response.Successful() ==>
      && o.response == Json(true, Some(Registered), Some("success"), None, None)
      && o.tables == InsertUser(t, email.value, Hash(password.value, salt, DefaultCost), fullName.value)
      && Verify(password.value, o.tables.users[email.value].password)
      && o.tables.users[email.value].role == DefaultRole
    ensures WellFormed(t) ==> WellFormed(o.tables)
  {
    if email.None? || password.None? || fullName.None? then
      Outcome(Error(MissingData, None), t)
    else if lookup.Raised? then Outcome(Caught(lookup.message), t)
    else if lookup.ReturnedFalse? then Outcome(Error(QueryFailed, Some(EmptyList)), t)
    else if email.value in t.users then
      Outcome(Error(AlreadyExists, Some(Submitted(email.value, fullName.value))), t)
    else
      var hashed := Hash(password.value, salt, DefaultCost);
      if insert.Raised? then Outcome(Caught(insert.message), t)
      else if insert.ReturnedFalse? then Outcome(Error(InsertFailed, Some(EmptyList)), t)
      else
        VerifyHash(password.value, salt, DefaultCost);
        Outcome(Json(true, Some(Registered), Some("success"), None, None),
                InsertUser(t, email.value, hashed, fullName.value))
  }

  /** The script, step by step; each `exit()` is a `return`. */
  method Register(db: Database, email: Option<string>, password: Option<string>,
                  fullName: Option<string>, salt: string,
                  lookup: QueryResult, insert: QueryResult) returns (r: Response)
    modifies db
    ensures Outcome(r, db.State()) ==
      RegisterResult(old(db.State()), email, password, fullName, salt, lookup, insert)
    ensures old(WellFormed(db.State())) ==> WellFormed(db.State())
  {
    if email.None? || password.None? || fullName.None? {
      return Error(MissingData, None);
    }
    if lookup.Raised? {
      return Caught(lookup.message);
    }
    if lookup.ReturnedFalse? {
      return Error(QueryFailed, Some(EmptyList));
    }
    if email.value in db.users {
      return Error(AlreadyExists, Some(Submitted(email.value, fullName.value)));
    }
    var hashed := Hash(password.value, salt, DefaultCost);
    if insert.Raised? {
      return Caught(insert.message);
    }
    if insert.ReturnedFalse? {
      return Error(InsertFailed, Some(EmptyList));
    }
    var after := InsertUser(db.State(), email.value, hashed, fullName.value);
    db.users, db.nextUserId := after.users, after.nextUserId;
    return Json(true, Some(Registered), Some("success"), None, None);
  }
}
