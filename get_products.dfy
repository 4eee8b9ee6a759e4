/**
 * getProducts.php: any resolvable token (no role check) receives the inner join
 * `product join category on product.category_id = category.category_id`.
 * Only SELECTs, so the script is a function of the tables.
 */
module GetProducts {
  import opened Store
  import Auth

  const TokenRequired: string := "Token is required"
  const InvalidToken: string := "Invalid token"
  const Fetched: string := "Products fetched successfully"
  const FetchFailed: string := "mysqli_fetch_all(): Argument #1 ($result) must be of type mysqli_result, bool given"

  /** The join rows contributed by one product, in `category` order. */
  function MatchesOf(p: ProductRow, cs: seq<CategoryRow>): (rows: seq<JoinedRow>)
    ensures forall r :: r in rows ==> r.product == p && r.category in cs && p.categoryId == r.category.categoryId
    ensures forall c :: c in cs && c.categoryId == p.categoryId ==> JoinedRow(p, c) in rows
  {
    if cs == [] then []
    else (if p.categoryId == cs[0].categoryId then [JoinedRow(p, cs[0])] else []) + MatchesOf(p, cs[1..])
  }

  /** The inner join as a nested loop: every product, paired with each category of equal id. */
  function Join(ps: seq<ProductRow>, cs: seq<CategoryRow>): (rows: seq<JoinedRow>)
    ensures forall r :: r in rows ==>
      r.product in ps && r.category in cs && r.product.categoryId == r.category.categoryId
  {
    if ps == [] then [] else MatchesOf(ps[0], cs) + Join(ps[1..], cs)
  }

  /** Every matching pair appears; a product with no category of its id contributes nothing. */
  lemma {:induction false} JoinComplete(ps: seq<ProductRow>, cs: seq<CategoryRow>, p: ProductRow, c: CategoryRow)
    requires p in ps && c in cs && p.categoryId == c.categoryId
    ensures JoinedRow(p, c) in Join(ps, cs)
  {
    if ps[0] != p {
      JoinComplete(ps[1..], cs, p, c);
    }
  }

  /** A product whose category_id matches no category row is omitted from the result. */
  lemma UnmatchedOmitted(ps: seq<ProductRow>, cs: seq<CategoryRow>, p: ProductRow)
    requires forall c :: c in cs ==> c.categoryId != p.categoryId
    ensures forall r :: r in Join(ps, cs) ==> r.product != p
  {
  }

  /** The reply for the posted token and what the SELECT does. A raised error is
      caught and its message returned; a `false` result reaches `mysqli_fetch_all`,
      whose TypeError is not an `Exception`, so the script dies. */
  function GetProductsResult(t: Tables, token: Option<string>, select: QueryResult): (r: Response)
    ensures token.None? ==> r == Reply(false, TokenRequired)
    ensures token.Some? && Auth.Falsy(Auth.GetUserIdByToken(t.tokens, token.value)) ==>
      r == Reply(false, InvalidToken)
    ensures token.Some? && !Auth.Falsy(Auth.GetUserIdByToken(t.tokens, token.value)) && select.Raised? ==>
      r == Reply(false, select.message)
    ensures token.Some? && !Auth.Falsy(Auth.GetUserIdByToken(t.tokens, token.value)) && select.ReturnedFalse? ==>
      r == Fatal(FetchFailed)
    // no role check: a resolvable token of any role gets the data
    ensures r.Successful() <==>
      token.Some? && !Auth.Falsy(Auth.GetUserIdByToken(t.tokens, token.value)) && select.Ok?
    ensures r.Successful() ==> r.data == Some(Products(Join(t.product, t.category)))
    ensures r.Successful() ==> forall row :: row in r.data.value.productRows ==>
      row.product in t.product && row.category in t.category &&
      row.product.categoryId == row.category.categoryId
  {
    if token.None? then Reply(false, TokenRequired)
    else if Auth.Falsy(Auth.GetUserIdByToken(t.tokens, token.value)) then Reply(false, InvalidToken)
    else if select.Raised? then Reply(false, select.message)
    else if select.ReturnedFalse? then Fatal(FetchFailed)
    else Json(true, Some(Fetched), None, None, Some(Products(Join(t.product, t.category))))
  }

  /** A product added through addProduct.php goes to `products`, so this
      listing, which reads `product`, returns the same rows as before. */
  lemma AddedProductNotListed(t: Tables, token: Option<string>, select: QueryResult, row: ProductRow)
    ensures GetProductsResult(InsertProduct(t, row), token, select) == GetProductsResult(t, token, select)
  {
  }

  /** In a well-formed database every issued token, a plain user's or an admin's, is served. */
  lemma IssuedTokenServed(t: Tables, token: string)
    requires WellFormed(t) && token in t.tokens
    ensures GetProductsResult(t, Some(token), Ok).Successful()
  {
    Auth.ResolvedIdIsTruthy(t, token);
  }
}
