/**
 * The MySQL database `reactEcom` the PHP endpoints talk to, reduced to the
 * tables they name. Every query is an exact-key lookup or an insert; whether a
 * query succeeds is an input (`QueryResult`), since the driver is not modelled.
 *
 * Table names are kept exactly as the scripts spell them: addProduct.php writes
 * `products` but getProducts.php reads `product`; addcategory.php and
 * addCategory.php write `category` but getCategories.php reads `categories`.
 */
module Store {
  import opened Password

  datatype Option<+T> = None | Some(value: T)

  /** The `role` column's default (registration never sets it) and the value isAdmin looks for. */
  const DefaultRole: string := "user"
  const AdminRole: string := "admin"

  /** A `users` row; the table is keyed here by its `email` column. */
  datatype User = User(id: nat, password: PasswordHash, fullName: string, role: string)

  /** A row of `products` (as addProduct.php inserts it) or of `product` (as getProducts.php reads it). */
  datatype ProductRow = ProductRow(
    productTitle: string, price: string, description: string, categoryId: nat, imageUrl: string)

  /** A row of `category` or of `categories`. */
  datatype CategoryRow = CategoryRow(categoryId: nat, categoryName: string)

  /** One row of `product join category on product.category_id = category.category_id`. */
  datatype JoinedRow = JoinedRow(product: ProductRow, category: CategoryRow)

  /** The whole database as a value. */
  datatype Tables = Tables(
    users: map<string, User>,
    tokens: map<string, nat>,
    products: seq<ProductRow>,
    product: seq<ProductRow>,
    category: seq<CategoryRow>,
    categories: seq<CategoryRow>,
    nextUserId: nat,
    nextCategoryId: nat)

  /** What one `mysqli_query` call does: succeed, return false, or raise
      `mysqli_sql_exception` (the default error mode from PHP 8.1 on). */
  datatype QueryResult = Ok | ReturnedFalse | Raised(message: string)

  /** The `data` member of a JSON reply. */
  datatype Data =
    | EmptyList
    | Submitted(email: string, fullName: string)
    | Products(productRows: seq<JoinedRow>)
    | Categories(categoryRows: seq<CategoryRow>)

  /** What a script sends back: the JSON envelope, or PHP's fatal-error page when
      an exception escapes a script that has no `catch`. Absent keys are None. */
  datatype Response =
    | Json(success: bool, message: Option<string>, status: Option<string>,
           token: Option<string>, data: Option<Data>)
    | Fatal(error: string)
  {
    predicate Successful()
    {
      Json? && success
    }
  }

  /** `json_encode(["success" => ..., "message" => ...])`. */
  function Reply(success: bool, message: string): Response
  {
    Json(success, Some(message), None, None, None)
  }

  /** A script's reply together with the database it leaves behind. */
  datatype Outcome = Outcome(response: Response, tables: Tables)

  /** Some `users` row has this `user_id`. */
  ghost predicate IdInUse(users: map<string, User>, id: nat)
  {
    exists e :: e in users && users[e].id == id
  }

  /** What the schema guarantees: AUTO_INCREMENT ids starting at 1 and unique,
      every token row pointing at an existing user, category ids below the counter. */
  ghost predicate WellFormed(t: Tables)
  {
    && t.nextUserId >= 1
    && (forall e :: e in t.users ==> 1 <= t.users[e].id < t.nextUserId)
    && (forall e1, e2 :: e1 in t.users && e2 in t.users && t.users[e1].id == t.users[e2].id ==> e1 == e2)
    && (forall k :: k in t.tokens ==> IdInUse(t.users, t.tokens[k]))
    && (forall i :: 0 <= i < |t.category| ==> t.category[i].categoryId < t.nextCategoryId)
  }

  /** `INSERT INTO users (email, password, full_name)`: the row gets the next
      AUTO_INCREMENT id and the column default for `role`. */
  function InsertUser(t: Tables, email: string, hashed: PasswordHash, fullName: string): (t': Tables)
    ensures t'.users == t.users[email := User(t.nextUserId, hashed, fullName, DefaultRole)]
    ensures t' == t.(users := t'.users, nextUserId := t.nextUserId + 1)
    ensures WellFormed(t) && email !in t.users ==> WellFormed(t')
  {
    var t' := t.(users := t.users[email := User(t.nextUserId, hashed, fullName, DefaultRole)],
                 nextUserId := t.nextUserId + 1);
    assert WellFormed(t) && email !in t.users ==> forall k :: k in t'.tokens ==> IdInUse(t'.users, t'.tokens[k]) by {
      if WellFormed(t) && email !in t.users {
        forall k | k in t'.tokens ensures IdInUse(t'.users, t'.tokens[k]) {
          var e :| e in t.users && t.users[e].id == t.tokens[k];
          assert e in t'.users && t'.users[e].id == t'.tokens[k];
        }
      }
    }
    t'
  }

  /** `INSERT INTO tokens (token, user_id)`. */
  function InsertToken(t: Tables, token: string, userId: nat): (t': Tables)
    ensures t'.tokens == t.tokens[token := userId]
    ensures t' == t.(tokens := t'.tokens)
    ensures WellFormed(t) && IdInUse(t.users, userId) ==> WellFormed(t')
  {
    t.(tokens := t.tokens[token := userId])
  }

  /** `INSERT INTO category (category_name)`: the row gets the next AUTO_INCREMENT id. */
  function InsertCategory(t: Tables, name: string): (t': Tables)
    ensures t'.category == t.category + [CategoryRow(t.nextCategoryId, name)]
    ensures forall i :: 0 <= i < |t.category| && WellFormed(t) ==> t.category[i].categoryId != t.nextCategoryId
    ensures t' == t.(category := t'.category, nextCategoryId := t.nextCategoryId + 1)
    ensures WellFormed(t) ==> WellFormed(t')
  {
    t.(category := t.category + [CategoryRow(t.nextCategoryId, name)], nextCategoryId := t.nextCategoryId + 1)
  }

  /** `INSERT INTO products (product_title, price, description, category_id, image_url)`. */
  function InsertProduct(t: Tables, row: ProductRow): (t': Tables)
    ensures t'.products == t.products + [row]
    ensures t' == t.(products := t'.products)
  {
    t.(products := t.products + [row])
  }

  /** The live database every endpoint receives. */
  class Database {
    var users: map<string, User>
    var tokens: map<string, nat>
    var products: seq<ProductRow>
    var product: seq<ProductRow>
    var category: seq<CategoryRow>
    var categories: seq<CategoryRow>
    var nextUserId: nat
    var nextCategoryId: nat

    function State(): Tables
      reads this
    {
      Tables(users, tokens, products, product, category, categories, nextUserId, nextCategoryId)
    }

    /** An empty database whose AUTO_INCREMENT counters start at 1. */
    constructor ()
      ensures WellFormed(State())
      ensures State() == Tables(map[], map[], [], [], [], [], 1, 1)
    {
      users, tokens := map[], map[];
      products, product, category, categories := [], [], [], [];
      nextUserId, nextCategoryId := 1, 1;
    }
  }
}
