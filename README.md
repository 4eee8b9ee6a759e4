# PHP-Learning-Phase auth and endpoint core, in Dafny

The repository is a small e-commerce back end written while learning PHP, with a Node/Express
authentication controller beside it. Each PHP file is an endpoint script. It reads `$_POST`, runs SQL
against the MySQL database `reactEcom` and echoes one JSON object. The model replaces the database with
an explicit store and keeps the scripts' decision logic: the same checks in the same order, the same
messages, the same tables written.

- `Store` (store.dfy) holds the tables the scripts name:
  - `users` is keyed by email, with AUTO_INCREMENT ids and a `role` column defaulting to `user`.
    These are assumptions about the schema, which is not part of the repository.
  - `tokens` maps a token to its `user_id`.
  - `products`, `product`, `category` and `categories` are kept apart as the scripts spell them.
  
  `Database` is the live store, a class whose fields the endpoint methods update. `Tables` is its
  value. `WellFormed` is the assumed schema invariant: ids are unique and positive, and every token points
  at a user. The endpoints are proved to preserve it. Whether each `mysqli_query` succeeds, returns `false` or raises is an input (`QueryResult`).
- Every mutating script has two forms:
  - A reference function `...Result` gives the reply and the database afterwards, and carries the
    properties.
  - An imperative method performs the script step by step, with each `die()`/`exit()` as a `return`.
    Its postcondition says its reply and new state are those of the function.
  
  Scripts without a `try` (auth/register.php, auth/login.php) turn a raised query error into
  `Fatal`.
- `Auth` and `AuthConn` are the token lookup and the admin gate of helpers/auth.php and
  helpers/Auth.php.
- `AuthRegister`, `HelperRegister` and `AuthLogin` are the registration and login scripts. `Hex` is
  `bin2hex`, with its inverse, used to show that minted tokens are 64 lower-case hex digits and
  distinct for distinct random bytes.
- `AddProduct` is the admin-gated product upload, including the extension and size validator.
- `AddCategoryLower` and `AddCategoryCamel` are the two category scripts. `GetProducts` and
  `GetCategories` are the token-gated reads.
- `AuthController` is the Node controller: a user collection and the client's `token` cookie, as the
  class `Server`.
- `Scenario` holds properties that span several endpoints.
- `Password` stands in for bcrypt. `Hash` is a concrete stand-in digest over cost, salt and secret (a rolling hash; no contract relies on it being one-way). The
  one fact the endpoints use is `VerifyHash`: a secret verifies against its own hash. A wrong password
  appears only as the hypothesis `!Verify(...)`.

Behaviour the model makes explicit:
- Products added by addProduct.php go to `products`, but getProducts.php lists `product`
  (`GetProducts.AddedProductNotListed`).
- Categories added by either category script go to `category`, but getCategories.php lists
  `categories` (`GetCategories.AddedCategoryNotListed`).
- The Node `register` saves the user and sets the cookie before sending the welcome mail. A mail
  failure then reports `success: false` for an account that exists and can log in
  (`AuthController.RegisterThenLogin`).
- `isAdmin` treats the user id `0` like a missing token. In a well-formed store no token resolves
  to 0 (`Auth.ResolvedIdIsTruthy`).

## Model

| member | source | states |
|---|---|---|
| Password.Hash | auth/register.php:50 | the stored hash records the cost and the salt it was made with; it is a hash value, never the plaintext |
| Password.Verify | auth/login.php:45 | a secret verifies exactly when re-hashing it with the stored salt and cost gives the stored hash |
| Password.VerifyHash | auth/login.php:45 | a password verifies against a hash made from it, whatever salt and cost were drawn |
| Hex.Encode | auth/login.php:55 | `bin2hex` output is twice as long as its input and every character is one of 0-9a-f |
| Hex.DigitValue | auth/login.php:55 | a character has a hex value exactly when it is a lower-case hex digit, and that value is below 16 |
| Hex.PairValue | auth/login.php:55 | two characters decode to a byte exactly when both are hex digits |
| Hex.Decode | auth/login.php:55 | decoding succeeds only on even-length input and yields half as many bytes |
| Hex.DigitValueOfDigit | auth/login.php:55 | the digit written for a nibble decodes back to that nibble |
| Hex.PairValueOfByte | auth/login.php:55 | the two digits written for a byte decode back to that byte |
| Hex.DecodeByte | auth/login.php:55 | decoding a byte's two digits followed by any decodable rest yields the byte followed by the rest |
| Hex.DecodeEncode | auth/login.php:55 | decoding the encoding of any byte sequence gives back that sequence (round trip) |
| Hex.EncodeInjective | auth/login.php:55 | distinct byte sequences give distinct hex strings, so distinct random bytes give distinct tokens |
| Store.WellFormed | auth/register.php:54 | the assumed schema invariant, preserved by every endpoint: AUTO_INCREMENT user ids from 1 and unique, every token row pointing at an existing user, category ids below their counter |
| Store.Database.constructor | helpers/connection.php:24 | the model's starting state: an empty store with both AUTO_INCREMENT counters at 1, which is well-formed (the real database's contents are unknown) |
| Store.InsertUser | auth/register.php:54 | the insert adds exactly one row under the email, with the next id and role `user`; all else is unchanged and well-formedness is kept for a fresh email |
| Store.InsertToken | auth/login.php:59 | the insert maps the token to the user id and changes nothing else; well-formedness is kept for an existing user id |
| Store.InsertCategory | addcategory.php:33 | the insert appends one `category` row with a fresh id; all else is unchanged and well-formedness is kept |
| Store.InsertProduct | addProduct.php:91 | the insert appends one `products` row and changes nothing else |
| Auth.GetUserIdByToken | helpers/auth.php:8-22 | a token resolves exactly when a token row has that exact token, and then to that row's user_id; otherwise null |
| Auth.Falsy | helpers/auth.php:31 | `!$user_id`: a resolved id is truthy exactly when it is present and at least 1 |
| Auth.RolesOf | helpers/auth.php:35-42 | the roles returned are exactly those of users rows with the given user_id |
| Auth.IsAdmin | helpers/auth.php:25-45 | false for a falsy resolved id (null or 0); true implies the token resolves to a nonzero id; true exactly when a users row with that id has role `admin` |
| Auth.IsAdminOfOwner | helpers/auth.php:41 | in a well-formed store a resolvable token is admin exactly when its owner's role is `admin`, so role `user` gives false |
| Auth.ResolvedIdIsTruthy | helpers/auth.php:29-33 | in a well-formed store a token passes the falsy check exactly when it was issued |
| AuthConn.GetUserIdByToken | helpers/Auth.php:8-22 | same lookup as helpers/auth.php: the exact-match row's user_id, else null |
| AuthConn.IsAdmin | helpers/Auth.php:25-45 | false for a falsy id; true exactly when a users row with the resolved id has role `admin` |
| AuthConn.SameAsAuth | helpers/Auth.php:8-45 | both helper files give the same answers on every store; only the connection global differs |
| AuthRegister.RegisterResult | auth/register.php:6-79 | a missing field gives the required-fields reply untouched; a failed lookup gives "error in query" (a raised one is fatal); a duplicate email gives "Email is already registered"; a failed insert gives "Failed to register (query error)" (a raised one is fatal); success happens exactly when all fields are present, the email is new and both queries succeed, and then replies "User registered successfully" and adds one users row with a verifying hash and role `user`; any failure leaves every table unchanged; no token is issued; well-formedness is kept |
| AuthRegister.RegisterGrantsNoAdmin | auth/register.php:54 | every admin row after registration was already there, unchanged |
| AuthRegister.RegisterTwice | auth/register.php:39-71 | after a successful registration the same email is refused as a duplicate and nothing changes |
| AuthRegister.Register | auth/register.php:6-79 | the script's reply and the store afterwards are those of RegisterResult, and a well-formed store stays well-formed |
| HelperRegister.RegisterResult | helpers/auth/register.php:43-131 | "Required data is missing" on a missing field; "Database query failed" with empty data on a failed lookup; "User already exists" echoing email and full_name on a duplicate; "Failed to register query user" on a failed insert; a raised lookup or insert is caught and answered with its message as `status`, so no exception escapes; success, with status "success", exactly when all fields are present, the email is new and both queries succeed, adding one users row with a verifying hash; failures leave the store unchanged |
| HelperRegister.Caught | helpers/auth/register.php:126-130 | the catch reply: success=false, no `message`, and the exception's message as `status` |
| HelperRegister.Register | helpers/auth/register.php:43-131 | the script's reply and the store afterwards are those of RegisterResult, and a well-formed store stays well-formed |
| AuthLogin.LoginResult | auth/login.php:6-84 | missing fields, a failed lookup ("error in query", or fatal when raised), unknown email, wrong password and a failed token insert ("Failed to insert token (query error)", or fatal when raised) each give their reply; a failure changes no table and returns no token; success happens exactly when the user exists, the password verifies and the token insert succeeds; it returns `bin2hex` of the 32 bytes, 64 hex digits, inserted as one token row that resolves to the user's id; earlier tokens and users are kept; well-formedness is kept |
| AuthLogin.LoginTwice | auth/login.php:55-59 | two logins with different random bytes leave two different tokens, both resolving to the user |
| AuthLogin.Login | auth/login.php:6-84 | the script's reply and the store afterwards are those of LoginResult, and a well-formed store stays well-formed |
| AddProduct.LastDot | addProduct.php:57 | the index found holds a '.' with no '.' after it; there is none exactly when the name has no '.' |
| AddProduct.Extension | addProduct.php:57 | the extension is the dot-free text after the last '.', or empty when the name has no '.' |
| AddProduct.ExtensionAfterDot | addProduct.php:77-79 | for a dot-free extension, `stem.ext` has extension `ext` whatever the stem |
| AddProduct.CheckImage | addProduct.php:57-75 | accepted exactly when the extension is in the allow-list and the size is at most 5 MiB; a bad extension is reported whatever the size; a size rejection means more than 5242880 bytes |
| AddProduct.SizeBoundary | addProduct.php:69-75 | exactly 5242880 bytes passes and 5242881 fails |
| AddProduct.UpperCaseRejected | addProduct.php:59-67 | the allow-list match is case-sensitive: `.JPG` is rejected |
| AddProduct.NoExtensionRejected | addProduct.php:57-67 | a name with no '.' is rejected |
| AddProduct.LastExtensionCounts | addProduct.php:57 | only the text after the last '.' counts: `archive.png.gif` is a gif |
| AddProduct.StoredPath | addProduct.php:77-79 | the stored path `uploads/<uniqid>.<ext>` keeps the checked extension |
| AddProduct.SaveProductResult | addProduct.php:57-112 | bad extension, oversize and failed move each give their reply, in that order; after the move a failed insert gives 'Failed to add product' and a raised one its message; success happens exactly when the image is accepted, the file is moved and the insert succeeds, and then one `products` row is appended whose image path keeps the upload's extension; any failure leaves the store unchanged |
| AddProduct.AddProductResult | addProduct.php:6-112 | token missing, non-admin token and missing field each give their reply, in that order, before the image is looked at; with all five fields from an admin the outcome is SaveProductResult's; success happens exactly when every check passes, the file is moved and the insert succeeds; any failure leaves the store unchanged; a well-formed store stays well-formed |
| AddProduct.SaveProduct | addProduct.php:57-112 | the reply and the store afterwards are those of SaveProductResult, and a well-formed store stays well-formed |
| AddProduct.AddProduct | addProduct.php:6-112 | the script's reply and the store afterwards are those of AddProductResult, and a well-formed store stays well-formed |
| AddCategoryLower.AddCategoryResult | addcategory.php:3-54 | token missing, non-admin and missing name are refused in that order; a failed insert gives 'Failed to add category'; an exception gives the fixed catch message with its text as `status`; the table changes only, and success happens exactly, when all checks pass and the insert succeeds, appending one `category` row with the name |
| AddCategoryLower.AddCategory | addcategory.php:3-54 | the script's reply and the store afterwards are those of AddCategoryResult, and a well-formed store stays well-formed |
| AddCategoryCamel.AddCategoryResult | addCategory.php:3-54 | the same order of checks; a failed insert gives 'Failed to add category' and an exception is answered with success=false and its own message; the table changes only, and success happens exactly, when all checks pass and the insert succeeds, appending one `category` row |
| AddCategoryCamel.AddCategory | addCategory.php:3-54 | the script's reply and the store afterwards are those of AddCategoryResult, and a well-formed store stays well-formed |
| GetProducts.MatchesOf | getProducts.php:25 | the join rows for one product are exactly its pairings with the categories of equal id |
| GetProducts.Join | getProducts.php:25-29 | every joined row pairs a product and a category of equal category_id |
| GetProducts.JoinComplete | getProducts.php:25-29 | every matching product/category pair appears in the join |
| GetProducts.UnmatchedOmitted | getProducts.php:25-29 | a product with no category of its id is omitted |
| GetProducts.GetProductsResult | getProducts.php:3-43 | 'Token is required', then 'Invalid token'; any resolvable token, of any role, gets data when the SELECT succeeds; the data is the `product`/`category` join, with every row matching; a raised SELECT error is returned as the message, and a `false` result is fatal in `mysqli_fetch_all` |
| GetProducts.AddedProductNotListed | getProducts.php:25 | a product inserted by addProduct.php does not change this listing |
| GetProducts.IssuedTokenServed | getProducts.php:15-25 | in a well-formed store every issued token is served, a plain user's as well as an admin's |
| GetCategories.GetCategoriesResult | getCategories.php:3-43 | 'Token is required', then 'Invalid token'; any resolvable token gets every row of `categories` when the SELECT succeeds; a raised SELECT error is returned as the message, and a `false` result is fatal in `mysqli_fetch_all` |
| GetCategories.AddedCategoryNotListed | getCategories.php:25 | a category inserted into `category` does not change this listing |
| AuthController.Truthy | controllers/authController.js:11 | JavaScript truthiness of a body field: present and non-empty |
| AuthController.CookieMatchesJwt | controllers/authController.js:35-44 | the cookie's maxAge equals the JWT's 7-day lifetime: 604800000 ms |
| AuthController.RegisterResult | controllers/authController.js:7-63 | a falsy field gives 'Missing Details' before any lookup; an existing email gives status 400 'User already exists'; a rejected findOne or save is answered by the catch with its message; the collection changes exactly when the lookup and save succeed for a new email, saving the bcrypt hash (cost 10) and setting the 7-day cookie; success ('Registration successful') also needs the mail, and a mail failure reports its message after the save; otherwise nothing changes |
| AuthController.LoginResult | controllers/authController.js:65-104 | missing fields give status 400; a rejected findOne is answered by the catch with its message; an unknown email gives 'Invalid Email' and a wrong password 'Invalid password'; success ('Login successful') exactly when the user exists and the password verifies, and only then is the 7-day cookie set; the collection is never changed |
| AuthController.LogoutResult | controllers/authController.js:106-119 | the cookie is cleared, the collection is unchanged and the reply is a success |
| AuthController.RegisterThenLogin | controllers/authController.js:25-33 | an account saved by register logs in with its password, even when the mail failed |
| AuthController.Server.Register | controllers/authController.js:7-63 | the handler's reply, collection and cookie afterwards are those of RegisterResult |
| AuthController.Server.Login | controllers/authController.js:65-104 | the handler's reply and cookie afterwards are those of LoginResult |
| AuthController.Server.Logout | controllers/authController.js:106-119 | the handler's reply and cookie afterwards are those of LogoutResult |
| Scenario.RegisterLoginResolve | auth/login.php:55-74 | registering, then logging in, yields a token that resolves to the new id; re-registering and a wrong password are refused; the new user is not admin, so addcategory.php refuses the token while getProducts.php and getCategories.php serve it |
| Scenario.UserTokenCannotAddProduct | addProduct.php:18-24 | a user-role token is refused by addProduct.php whatever the other inputs, and the store is unchanged |

## Left out

- Schema: the repository holds no schema, so several facts are assumptions. These are: `email` is a
  unique key of `users`; `user_id` is AUTO_INCREMENT from 1; `role` defaults to 'user'; every token
  row points at an existing user. `isAdmin` reads only the first users row for an id
  (helpers/auth.php:39-41), and `Auth.IsAdmin` asks whether any row with that id is an admin. The two
  agree only under the assumed unique ids (`Auth.IsAdminOfOwner`). `AuthRegister.RegisterGrantsNoAdmin`
  and `Scenario.UserTokenCannotAddProduct` also rest on these assumptions.
- AuthController.Truthy: request-body fields are modelled as strings only. A JSON `0`, `false` or `[]`
  in the body has JavaScript truthiness that this predicate does not capture.
- AddProduct.AddProductResult: `category_id` is taken as a natural number. The script passes any
  posted string into the INSERT, and what MySQL does with a non-numeric value is not modelled.
- GetProducts.Join: rows come out product-major, in table order. The SELECT has no ORDER BY, so
  MySQL's order is unspecified. The model fixes one order, and the set of rows is what its contracts
  promise.
- Connection globals: helpers/connection.php defines `$conn`, but helpers/auth.php, addCategory.php,
  addProduct.php, getProducts.php, getCategories.php, auth/register.php and auth/login.php use `$con`.
  The store is passed explicitly instead. The consequence of the undefined global, a `mysqli_query`
  on null, is not modelled.
- SQL text, string interpolation and injection are not modelled. Each query is an exact-key lookup or
  an insert. MySQL's case-insensitive collation is not modelled either, so lookups compare emails and
  tokens exactly.
- Auth lookups: the queries inside `getUserIdByToken` and `isAdmin` are assumed to succeed. Their
  failure modes are not inputs.
- Password hashing: bcrypt is replaced by a concrete stand-in digest. Its only property used is that
  a password verifies against its own hash. Salts are inputs.
- Randomness and clocks: `random_bytes(32)`, `uniqid()`, the JWT string, the Mongo `_id` and whether
  `move_uploaded_file` succeeds are inputs. The upload's temporary file and the filesystem are not
  modelled.
- Node foreign calls:
  - JWT signing and expiry, nodemailer, and the cookie options (`httpOnly`, `secure`, `sameSite`) are
    not modelled; only the cookie's value and maxAge are kept.
  - A rejection from `bcrypt.hash`, `bcrypt.compare`, `jwt.sign` or `clearCookie` is not an input.
    Only `findOne`, `save` and `sendMail` may reject.
- AddProduct.Extension: `pathinfo` also strips a directory part. Client file names are taken as plain
  base names.
- AuthLogin.LoginResult: a minted token that already exists in `tokens` is treated as a failed insert,
  assuming `tokens.token` is a unique key. The schema is not part of this model.
- The form of a fatal error's text is not modelled. A fatal error is modelled as `Fatal` carrying the
  message. Two cases lead there: a query error raised in a script without `try`, and
  `mysqli_fetch_all` on `false` in the read scripts.
- JSON encoding, HTTP transport and the CORS headers are not modelled. The response datatype stands
  for the echoed object.
- Concurrency is not modelled. The check-then-insert race of two simultaneous registrations needs
  parallel requests.
- The React front end (src/) is presentation only and is not part of this model.
