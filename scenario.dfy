/**
 * Properties that span several scripts run one after another against the same
 * database: register, log in, then present the token to the gated endpoints.
 */
module Scenario {
  import opened Store
  import opened Password
  import Hex
  import Auth
  import AuthRegister
  import AuthLogin
  import AddCategoryLower
  import AddProduct
  import GetProducts
  import GetCategories

  /** Register, then log in with the same password: the minted token resolves to
      the new user's id, a second registration of the email is refused, a wrong
      password is refused, and the token is refused by the admin gate (a new
      account has role 'user') yet accepted by the read endpoints. */
  lemma {:induction false} RegisterLoginResolve(t: Tables, email: string, password: string, fullName: string,
                                                salt: string, bytes: seq<Hex.byte>, wrong: string,
                                                category: string, bytes2: seq<Hex.byte>)
    requires WellFormed(t) && email !in t.users
    requires |bytes| == AuthLogin.TokenBytes && Hex.Encode(bytes) !in t.tokens
    requires |bytes2| == AuthLogin.TokenBytes
    requires !Verify(wrong, Hash(password, salt, DefaultCost))
    ensures var registered := AuthRegister.RegisterResult(t, Some(email), Some(password), Some(fullName), salt, Ok, Ok);
            var loggedIn := AuthLogin.LoginResult(registered.tables, Some(email), Some(password), bytes, Ok, Ok);
            var token := Hex.Encode(bytes);
      && registered.response.Successful()
      && AuthRegister.RegisterResult(registered.tables, Some(email), Some(password), Some(fullName), salt, Ok, Ok)
           == Outcome(Reply(false, AuthRegister.AlreadyRegistered), registered.tables)
      && loggedIn.response.Successful()
      && loggedIn.response.token == Some(token)
      && AuthLogin.LoginResult(registered.tables, Some(email), Some(wrong), bytes2, Ok, Ok)
           == Outcome(Reply(false, AuthLogin.WrongPassword), registered.tables)
      && Auth.GetUserIdByToken(loggedIn.tables.tokens, token) == Some(t.nextUserId)
      && !Auth.IsAdmin(loggedIn.tables.users, loggedIn.tables.tokens, token)
      && AddCategoryLower.AddCategoryResult(loggedIn.tables, Some(token), Some(category), Ok)
           == Outcome(Reply(false, AddCategoryLower.Unauthorized), loggedIn.tables)
      && GetProducts.GetProductsResult(loggedIn.tables, Some(token), Ok).Successful()
      && GetCategories.GetCategoriesResult(loggedIn.tables, Some(token), Ok).Successful()
  {
    var registered := AuthRegister.RegisterResult(t, Some(email), Some(password), Some(fullName), salt, Ok, Ok);
    var t1 := registered.tables;
    assert t1 == InsertUser(t, email, Hash(password, salt, DefaultCost), fullName);
    VerifyHash(password, salt, DefaultCost);
    assert t1.users[email].password == Hash(password, salt, DefaultCost);
    var loggedIn := AuthLogin.LoginResult(t1, Some(email), Some(password), bytes, Ok, Ok);
    var token := Hex.Encode(bytes);
    assert loggedIn.response.Successful();
    var t2 := loggedIn.tables;
    assert t2.users == t1.users && t2.tokens[token] == t.nextUserId;
    Auth.IsAdminOfOwner(t2, token, email);
    Auth.ResolvedIdIsTruthy(t2, token);
  }

  /** Whatever a user-role token is combined with, addProduct.php leaves the database unchanged. */
  lemma UserTokenCannotAddProduct(t: Tables, token: string, email: string, productName: Option<string>,
                                  price: Option<string>, description: Option<string>, categoryId: Option<nat>,
                                  image: Option<AddProduct.Upload>, uniqueId: string, moved: bool,
                                  insert: QueryResult)
    requires WellFormed(t) && token in t.tokens && email in t.users
    requires t.users[email].id == t.tokens[token] && t.users[email].role == DefaultRole
    ensures AddProduct.AddProductResult(t, Some(token), productName, price, description, categoryId,
                                        image, uniqueId, moved, insert)
      == Outcome(Reply(false, AddProduct.Unauthorized), t)
  {
    Auth.IsAdminOfOwner(t, token, email);
  }
}
