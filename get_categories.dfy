/**
 * getCategories.php: any resolvable token (no role check) receives every row of
 * `categories`. Only SELECTs, so the script is a function of the tables.
 */
module GetCategories {
  import opened Store
  import Auth

  const TokenRequired: string := "Token is required"
  const InvalidToken: string := "Invalid token"
  const Fetched: string := "Categories fetched successfully"
  const FetchFailed: string := "mysqli_fetch_all(): Argument #1 ($result) must be of type mysqli_result, bool given"

  /** The reply for the posted token and what the SELECT does; the error paths are those of getProducts.php. */
  function GetCategoriesResult(t: Tables, token: Option<string>, select: QueryResult): (r: Response)
    ensures token.None? ==> r == Reply(false, TokenRequired)
    ensures token.Some? && Auth.Falsy(Auth.GetUserIdByToken(t.tokens, token.value)) ==>
      r == Reply(false, InvalidToken)
    ensures token.Some? && !Auth.Falsy(Auth.GetUserIdByToken(t.tokens, token.value)) && select.Raised? ==>
      r == Reply(false, select.message)
    ensures token.Some? && !Auth.Falsy(Auth.GetUserIdByToken(t.tokens, token.value)) && select.ReturnedFalse? ==>
      r == Fatal(FetchFailed)
    // no role check: a resolvable token of any role gets the data
    ensures r.Successful() <==>
      token.Some? && !Auth.Falsy(Auth.GetUserIdByToken(t.tokens, token.value)) && select.Ok?
    // all of `categories`, in table order; nothing from `category`
    ensures r.Successful() ==> r.data == Some(Categories(t.categories))
  {
    if token.None? then Reply(false, TokenRequired)
    else if Auth.Falsy(Auth.GetUserIdByToken(t.tokens, token.value)) then Reply(false, InvalidToken)
    else if select.Raised? then Reply(false, select.message)
    else if select.ReturnedFalse? then Fatal(FetchFailed)
    else Json(true, Some(Fetched), None, None, Some(Categories(t.categories)))
  }

  /** A category added through addcategory.php goes to `category`, so this
      listing, which reads `categories`, returns the same rows as before. */
  lemma AddedCategoryNotListed(t: Tables, token: Option<string>, select: QueryResult, name: string)
    ensures GetCategoriesResult(InsertCategory(t, name), token, select) == GetCategoriesResult(t, token, select)
  {
  }
}
