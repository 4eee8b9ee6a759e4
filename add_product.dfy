/**
 * addProduct.php: an administrator adds a row to `products` with an uploaded
 * image. Checks run in the order token present, isAdmin, the five fields
 * present, image extension, image size; then the upload is moved to
 * `uploads/<uniqid>.<ext>` and the row inserted. The unique id and whether
 * `move_uploaded_file` succeeds are parameters.
 */
module AddProduct {
  import opened Store
  import Auth

  const TokenRequired: string := "Token is required"
  const Unauthorized: string := "Unauthorized user"
  const FieldsRequired: string := "product_name, price, description, category_id and image are required"
  const BadExtension: string := "Invalid image extension, should be jpg, jpeg, png, gif, webp"
  const TooLarge: string := "Image size should be less than 5MB"
  const UploadFailed: string := "Failed to upload image"
  const InsertFailed: string := "Failed to add product"
  const Added: string := "Product added successfully"

  const AllowedExtensions: seq<string> := ["jpg", "jpeg", "png", "gif", "webp"]

  /** `1024 * 1024 * 5` bytes. */
  const MaxImageSize: nat := 1024 * 1024 * 5

  /** `$_FILES['image']`: the client's file name and its size in bytes. */
  datatype Upload = Upload(name: string, size: nat)

  predicate NoDot(s: string)
  {
    forall j :: 0 <= j < |s| ==> s[j] != '.'
  }

  /** The index of the last '.' in `s`, if any. */
  function LastDot(s: string): (i: Option<nat>)
    ensures i.Some? ==> i.value < |s| && s[i.value] == '.' && NoDot(s[i.value + 1..])
    ensures i.None? <==> NoDot(s)
    decreases |s|
  {
    if s == [] then None
    else if s[|s| - 1] == '.' then Some(|s| - 1)
    else
      var i := LastDot(s[..|s| - 1]);
      assert i.Some? ==> s[i.value + 1..] == s[..|s| - 1][i.value + 1..] + [s[|s| - 1]];
      assert i.None? ==> s == s[..|s| - 1] + [s[|s| - 1]];
      i
  }

  /** `pathinfo($name, PATHINFO_EXTENSION)`: the text after the last '.', or "" when there is none. */
  function Extension(name: string): (ext: string)
    ensures NoDot(ext)
    ensures NoDot(name) ==> ext == ""
    ensures !NoDot(name) ==> |ext| < |name| && name == name[..|name| - |ext| - 1] + "." + ext
  {
    match LastDot(name)
    case None => ""
    case Some(i) =>
      assert name == name[..i] + "." + name[i + 1..];
      name[i + 1..]
  }

  /** The extension is the text after the last dot whatever comes before it, so
      renaming to `<uniqid>.<ext>` keeps the uploaded file's extension. */
  lemma ExtensionAfterDot(stem: string, ext: string)
    requires NoDot(ext)
    ensures Extension(stem + "." + ext) == ext
  {
    var s := stem + "." + ext;
    assert s[|stem|] == '.';
    assert s[|stem| + 1..] == ext;
    assert !NoDot(s);
  }

  /** The verdict of the two image checks, in the order the script makes them. */
  datatype ImageVerdict = Accepted(ext: string) | ExtensionRejected | SizeRejected

  function CheckImage(image: Upload): (v: ImageVerdict)
    ensures v.Accepted? <==> Extension(image.name) in AllowedExtensions && image.size <= MaxImageSize
    ensures v.Accepted? ==> v.ext == Extension(image.name)
    // the extension is judged first: a bad extension is reported whatever the size
    ensures Extension(image.name) !in AllowedExtensions ==> v == ExtensionRejected
    ensures v == SizeRejected ==> image.size > 5242880
  {
    var ext := Extension(image.name);
    if ext !in AllowedExtensions then ExtensionRejected
    else if image.size > MaxImageSize then SizeRejected
    else Accepted(ext)
  }

  /** Exactly 5 MiB passes and one byte more fails. */
  lemma SizeBoundary()
    ensures CheckImage(Upload("photo.png", 5242880)) == Accepted("png")
    ensures CheckImage(Upload("photo.png", 5242881)) == SizeRejected
  {
    assert "photo.png" == "photo" + "." + "png";
    ExtensionAfterDot("photo", "png");
    assert AllowedExtensions[2] == "png";
  }

  /** The match is case-sensitive: 'JPG' is not 'jpg'. */
  lemma UpperCaseRejected()
    ensures CheckImage(Upload("photo.JPG", 10)) == ExtensionRejected
  {
    assert "photo.JPG" == "photo" + "." + "JPG";
    ExtensionAfterDot("photo", "JPG");
    assert forall e :: e in AllowedExtensions ==> e[0] == 'j' || e[0] == 'p' || e[0] == 'g' || e[0] == 'w';
    assert "JPG"[0] == 'J';
  }

  /** A name without a dot has the empty extension, which is not allowed. */
  lemma NoExtensionRejected()
    ensures CheckImage(Upload("photo", 10)) == ExtensionRejected
  {
    assert NoDot("photo");
    assert Extension("photo") == "";
    assert "" !in AllowedExtensions;
  }

  /** Only the text after the last dot counts. */
  lemma LastExtensionCounts()
    ensures CheckImage(Upload("archive.png.gif", 10)) == Accepted("gif")
  {
    assert "archive.png.gif" == "archive.png" + "." + "gif";
    ExtensionAfterDot("archive.png", "gif");
    assert AllowedExtensions[3] == "gif";
  }

  /** `'uploads/' . uniqid() . '.' . $image_ext`: whatever the unique id, the
      stored file keeps the extension that was checked. */
  function StoredPath(uniqueId: string, ext: string): (path: string)
    requires NoDot(ext)
    ensures Extension(path) == ext
  {
    ExtensionAfterDot("uploads/" + uniqueId, ext);
    "uploads/" + uniqueId + "." + ext
  }

  /** The second half of the script, once an administrator has sent every field:
      the extension check, the size check, the move and the INSERT, in that order. */
  function SaveProductResult(t: Tables, productName: string, price: string, description: string,
                             categoryId: nat, image: Upload, uniqueId: string, moved: bool,
                             insert: QueryResult): (o: Outcome)
    ensures Extension(image.name) !in AllowedExtensions ==> o == Outcome(Reply(false, BadExtension), t)
    ensures Extension(image.name) in AllowedExtensions && image.size > MaxImageSize ==>
      o == Outcome(Reply(false, TooLarge), t)
    ensures CheckImage(image).Accepted? && !moved ==> o == Outcome(Reply(false, UploadFailed), t)
    // after the move, a failed INSERT is reported as such: its exception message, or the fixed text
    ensures CheckImage(image).Accepted? && moved && insert.Raised? ==>
      o == Outcome(Reply(false, insert.message), t)
    ensures CheckImage(image).Accepted? && moved && insert.ReturnedFalse? ==>
      o == Outcome(Reply(false, InsertFailed), t)
    ensures o.response.Successful() <==> CheckImage(image).Accepted? && moved && insert.Ok?
    // the only change is one `products` row pointing at the moved file
    ensures o.response.Successful() ==>
      && o.response == Reply(true, Added)
      && o.tables == InsertProduct(t, ProductRow(productName, price, description, categoryId,
                                                 StoredPath(uniqueId, Extension(image.name))))
      && Extension(o.tables.products[|t.products|].imageUrl) == Extension(image.name)
    ensures !o.response.Successful() ==> o.tables == t
  {
    match CheckImage(image)
    case ExtensionRejected => Outcome(Reply(false, BadExtension), t)
    case SizeRejected => Outcome(Reply(false, TooLarge), t)
    case Accepted(ext) =>
      var path := StoredPath(uniqueId, ext);
      if !moved then Outcome(Reply(false, UploadFailed), t)
      else if insert.Raised? then Outcome(Reply(false, insert.message), t)
      else if insert.ReturnedFalse? then Outcome(Reply(false, InsertFailed), t)
      else Outcome(Reply(true, Added), InsertProduct(t, ProductRow(productName, price, description, categoryId, path)))
  }

  /** The whole script: the token, the admin check and the five fields, then SaveProductResult. */
  function AddProductResult(t: Tables, token: Option<string>, productName: Option<string>,
                            price: Option<string>, description: Option<string>, categoryId: Option<nat>,
                            image: Option<Upload>, uniqueId: string, moved: bool,
                            insert: QueryResult): (o: Outcome)
    ensures token.None? ==> o == Outcome(Reply(false, TokenRequired), t)
    // a non-admin token is refused before fields, upload or insert
    ensures token.Some? && !Auth.IsAdmin(t.users, t.tokens, token.value) ==>
      o == Outcome(Reply(false, Unauthorized), t)
    ensures token.Some? && Auth.IsAdmin(t.users, t.tokens, token.value) &&
            (productName.None? || price.None? || description.None? || categoryId.None? || image.None?) ==>
      o == Outcome(Reply(false, FieldsRequired), t)
    ensures token.Some? && Auth.IsAdmin(t.users, t.tokens, token.value) &&
            productName.Some? && price.Some? && description.Some? && categoryId.Some? && image.Some? ==>
      o == SaveProductResult(t, productName.value, price.value, description.value, categoryId.value,
                             image.value, uniqueId, moved, insert)
    ensures o.response.Successful() <==>
      && token.Some? && Auth.IsAdmin(t.users, t.tokens, token.value)
      && productName.Some? && price.Some? && description.Some? && categoryId.Some? && image.Some?
      && CheckImage(image.value).Accepted? && moved && insert.Ok?
    ensures !o.response.Successful() ==> o.tables == t
    ensures WellFormed(t) ==> WellFormed(o.tables)
  {
    if token.None? then Outcome(Reply(false, TokenRequired), t)
    else if !Auth.IsAdmin(t.users, t.tokens, token.value) then Outcome(Reply(false, Unauthorized), t)
    else if productName.None? || price.None? || description.None? || categoryId.None? || image.None? then
      Outcome(Reply(false, FieldsRequired), t)
    else
      SaveProductResult(t, productName.value, price.value, description.value, categoryId.value,
                        image.value, uniqueId, moved, insert)
  }

  /** From the extension check to the INSERT; each `die()` is a `return`. */
  method SaveProduct(db: Database, productName: string, price: string, description: string,
                     categoryId: nat, image: Upload, uniqueId: string, moved: bool,
                     insert: QueryResult) returns (r: Response)
    modifies db
    ensures Outcome(r, db.State()) ==
      SaveProductResult(old(db.State()), productName, price, description, categoryId, image, uniqueId, moved, insert)
    ensures old(WellFormed(db.State())) ==> WellFormed(db.State())
  {
    var ext := Extension(image.name);
    if ext !in AllowedExtensions {
      return Reply(false, BadExtension);
    }
    if image.size > MaxImageSize {
      return Reply(false, TooLarge);
    }
    var path := StoredPath(uniqueId, ext);
    if !moved {
      return Reply(false, UploadFailed);
    }
    if insert.Raised? {
      return Reply(false, insert.message);
    }
    if insert.ReturnedFalse? {
      return Reply(false, InsertFailed);
    }
    var row := ProductRow(productName, price, description, categoryId, path);
    ghost var before := db.State();
    db.products := InsertProduct(db.State(), row).products;
    assert WellFormed(before) ==> WellFormed(db.State());
    return Reply(true, Added);
  }

  /** The script, step by step: the three checks, each `die()` a `return`, then SaveProduct. */
  method AddProduct(db: Database, token: Option<string>, productName: Option<string>,
                    price: Option<string>, description: Option<string>, categoryId: Option<nat>,
                    image: Option<Upload>, uniqueId: string, moved: bool,
                    insert: QueryResult) returns (r: Response)
    modifies db
    ensures Outcome(r, db.State()) ==
      AddProductResult(old(db.State()), token, productName, price, description, categoryId,
                       image, uniqueId, moved, insert)
    ensures old(WellFormed(db.State())) ==> WellFormed(db.State())
  {
    if token.None? {
      return Reply(false, TokenRequired);
    }
    if !Auth.IsAdmin(db.users, db.tokens, token.value) {
      return Reply(false, Unauthorized);
    }
    if productName.None? || price.None? || description.None? || categoryId.None? || image.None? {
      return Reply(false, FieldsRequired);
    }
    r := SaveProduct(db, productName.value, price.value, description.value, categoryId.value,
                     image.value, uniqueId, moved, insert);
  }
}
