/**
 * addcategory.php (lower-case file name): an administrator adds a row to
 * `category`. Checks run in the order token present, isAdmin, category_name
 * present; only then the INSERT. Inside a try/catch whose reply has a fixed
 * message and the exception's message as `status`.
 */
module AddCategoryLower {
  import opened Store
  import Auth

  const TokenRequired: string := "Token is required"
  const Unauthorized: string := "Unauthorized user"
  const NameRequired: string := "category_name is required"
  const InsertFailed: string := "Failed to add category"
  const Added: string := "Category added successfully"
  const CatchMessage: string := "Catch Output Whats Wrong Find Out"

  function AddCategoryResult(t: Tables, token: Option<string>, categoryName: Option<string>,
                             insert: QueryResult): (o: Outcome)
    ensures token.None? ==> o == Outcome(Reply(false, TokenRequired), t)
    // a non-admin token is refused before the name is even looked at
    ensures token.Some? && !Auth.IsAdmin(t.users, t.tokens, token.value) ==>
      o == Outcome(Reply(false, Unauthorized), t)
    ensures token.Some? && Auth.IsAdmin(t.users, t.tokens, token.value) && categoryName.None? ==>
      o == Outcome(Reply(false, NameRequired), t)
    // a raised exception gets the fixed message, with its own text as `status`
    ensures token.Some? && Auth.IsAdmin(t.users, t.tokens, token.value) && categoryName.Some? &&
            insert.Raised? ==>
      o == Outcome(Json(false, Some(CatchMessage), Some(insert.message), None, None), t)
    ensures token.Some? && Auth.IsAdmin(t.users, t.tokens, token.value) && categoryName.Some? &&
            insert.ReturnedFalse? ==>
      o == Outcome(Reply(false, InsertFailed), t)
    // the table changes only after all three checks pass and the INSERT succeeds
    ensures o.tables != t ==> token.Some? && Auth.IsAdmin(t.users, t.tokens, token.value) &&
                               categoryName.Some? && insert.Ok?
    ensures o.response.Successful() <==>
      token.Some? && Auth.IsAdmin(t.users, t.tokens, token.value) && categoryName.Some? && insert.Ok?
    ensures o.response.Successful() ==>
      && o.response == Reply(true, Added)
      && o.tables == InsertCategory(t, categoryName.value)
      && |o.tables.category| == |t.category| + 1
      && o.tables.category[|t.category|].categoryName == categoryName.value
    ensures !o.response.Successful() ==> o.tables == t
    ensures WellFormed(t) ==> WellFormed(o.tables)
  {
    if token.None? then Outcome(Reply(false, TokenRequired), t)
    else if !Auth.IsAdmin(t.users, t.tokens, token.value) then Outcome(Reply(false, Unauthorized), t)
    else if categoryName.None? then Outcome(Reply(false, NameRequired), t)
    else if insert.Raised? then
      Outcome(Json(false, Some(CatchMessage), Some(insert.message), None, None), t)
    else if insert.ReturnedFalse? then Outcome(Reply(false, InsertFailed), t)
    else Outcome(Reply(true, Added), InsertCategory(t, categoryName.value))
  }

  /** The script, step by step; each `die()` is a `return`. */
  method AddCategory(db: Database, token: Option<string>, categoryName: Option<string>,
                     insert: QueryResult) returns (r: Response)
    modifies db
    ensures Outcome(r, db.State()) == AddCategoryResult(old(db.State()), token, categoryName, insert)
    ensures old(WellFormed(db.State())) ==> WellFormed(db.State())
  {
    if token.None? {
      return Reply(false, TokenRequired);
    }
    if !Auth.IsAdmin(db.users, db.tokens, token.value) {
      return Reply(false, Unauthorized);
    }
    if categoryName.None? {
      return Reply(false, NameRequired);
    }
    if insert.Raised? {
      return Json(false, Some(CatchMessage), Some(insert.message), None, None);
    }
    if insert.ReturnedFalse? {
      return Reply(false, InsertFailed);
    }
    var after := InsertCategory(db.State(), categoryName.value);
    db.category, db.nextCategoryId := after.category, after.nextCategoryId;
    return Reply(true, Added);
  }
}
