/**
 * addCategory.php (camel-case file name): the same admin-gated INSERT into
 * `category` as addcategory.php; the connection is included only after the
 * three checks, and the catch replies with the exception's message as `message`.
 */
module AddCategoryCamel {
  import opened Store
  import Auth

  const TokenRequired: string := "Token is required"
  const Unauthorized: string := "Unauthorized user"
  const NameRequired: string := "category_name is required"
  const InsertFailed: string := "Failed to add category"
  const Added: string := "Category added successfully"

  function AddCategoryResult(t: Tables, token: Option<string>, categoryName: Option<string>,
                             insert: QueryResult): (o: Outcome)
    ensures token.None? ==> o == Outcome(Reply(false, TokenRequired), t)
    ensures token.Some? && !Auth.IsAdmin(t.users, t.tokens, token.value) ==>
      o == Outcome(Reply(false, Unauthorized), t)
    ensures token.Some? && Auth.IsAdmin(t.users, t.tokens, token.value) && categoryName.None? ==>
      o == Outcome(Reply(false, NameRequired), t)
    // a raised exception is answered with its own message; a false result with the fixed one
    ensures token.Some? && Auth.IsAdmin(t.users, t.tokens, token.value) && categoryName.Some? ==>
      && (insert.Raised? ==> o == Outcome(Reply(false, insert.message), t))
      && (insert.ReturnedFalse? ==> o == Outcome(Reply(false, InsertFailed), t))
    ensures o.tables != t ==> token.Some? && Auth.IsAdmin(t.users, t.tokens, token.value) &&
                               categoryName.Some? && insert.Ok?
    ensures o.response.Successful() <==>
      token.Some? && Auth.IsAdmin(t.users, t.tokens, token.value) && categoryName.Some? && insert.Ok?
    ensures o.response.Successful() ==>
      && o.response == Reply(true, Added)
      && o.tables == InsertCategory(t, categoryName.value)
      && |o.tables.category| == |t.category| + 1
      && o.tables.category[|t.category|].categoryName == categoryName.value
    ensures !o.response.Successful() ==> o.tables == t
    ensures WellFormed(t) ==> WellFormed(o.tables)
  {
    if token.None? then Outcome(Reply(false, TokenRequired), t)
    else if !Auth.IsAdmin(t.users, t.tokens, token.value) then Outcome(Reply(false, Unauthorized), t)
    else if categoryName.None? then Outcome(Reply(false, NameRequired), t)
    else if insert.Raised? then Outcome(Reply(false, insert.message), t)
    else if insert.ReturnedFalse? then Outcome(Reply(false, InsertFailed), t)
    else Outcome(Reply(true, Added), InsertCategory(t, categoryName.value))
  }

  /** The script, step by step; each `die()` is a `return`. */
  method AddCategory(db: Database, token: Option<string>, categoryName: Option<string>,
                     insert: QueryResult) returns (r: Response)
    modifies db
    ensures Outcome(r, db.State()) == AddCategoryResult(old(db.State()), token, categoryName, insert)
    ensures old(WellFormed(db.State())) ==> WellFormed(db.State())
  {
    if token.None? {
      return Reply(false, TokenRequired);
    }
    if !Auth.IsAdmin(db.users, db.tokens, token.value) {
      return Reply(false, Unauthorized);
    }
    if categoryName.None? {
      return Reply(false, NameRequired);
    }
    if insert.Raised? {
      return Reply(false, insert.message);
    }
    if insert.ReturnedFalse? {
      return Reply(false, InsertFailed);
    }
    var after := InsertCategory(db.State(), categoryName.value);
    db.category, db.nextCategoryId := after.category, after.nextCategoryId;
    return Reply(true, Added);
  }
}
