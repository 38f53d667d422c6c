/**
 * The product model: the `products` table, the `createProduct` dual write
 * (store insert, then index document), the two list queries and the
 * start-up sample-data sync.
 *
 * Behaviour kept as written: `discount_percentage` is stored and indexed as
 * the caller passed it, never derived from the two prices; the sample sync
 * reads `.name` from a row whose only column is aliased `category_name`, so
 * its documents carry no category name.
 */
module Products {
  import opened Wrappers
  import opened Js
  import opened Database
  import opened SearchIndex
  import opened Sorting

  /** The eight positional parameters of `createProduct`. */
  datatype Args = Args(
    name: Val, brand: Val, price: Val, originalPrice: Val,
    discountPercentage: Val, imageUrl: Val, categoryId: Val, promotion: Val)

  /** What `createProduct` lets propagate: the INSERT failed, or the category lookup or index write after it did. */
  datatype Thrown = StoreRejected | SyncFailed

  /** The row `SELECT ... FROM categories WHERE id = ?` finds first. */
  function CategoryLookup(categories: seq<CategoryRow>, categoryId: Val): (r: Option<CategoryRow>)
    ensures r.Some? ==> r.value in categories && SqlIdEquals(categoryId, r.value.id)
    ensures r.None? ==> forall c :: c in categories ==> !SqlIdEquals(categoryId, c.id)
  {
    if categories == [] then None
    else if SqlIdEquals(categoryId, categories[0].id) then Some(categories[0])
    else CategoryLookup(categories[1..], categoryId)
  }

  /** `categoryRows[0]?.category_name || null` */
  function CreatedCategoryName(categories: seq<CategoryRow>, categoryId: Val): Val {
    match CategoryLookup(categories, categoryId)
    case Some(c) => Or(c.name, Null)
    case None => Null
  }

  /** The row the INSERT adds; `views` and the timestamps take their column defaults. */
  function InsertedRow(id: nat, a: Args, now: string): ProductRow {
    ProductRow(id, Bind(a.name), Bind(a.brand), Bind(a.price), Bind(a.originalPrice),
      Bind(a.discountPercentage), Bind(a.imageUrl), Bind(a.categoryId), Bind(a.promotion),
      Num(0), Str(now), Str(now))
  }

  /** The body `createProduct` sends to the index. */
  function CreatedDoc(id: nat, a: Args, categoryName: Val): map<Field, Val> {
    map[
      Id := Num(id),
      Name := a.name,
      Brand := a.brand,
      Price := ParseNumber(a.price),
      OriginalPrice := if Truthy(a.originalPrice) then ParseNumber(a.originalPrice) else Null,
      DiscountPercentage := Or(a.discountPercentage, Num(0)),
      ImageUrl := a.imageUrl,
      CategoryId := ParseNumber(a.categoryId),
      CategoryName := categoryName,
      Promotion := Or(a.promotion, Bool(false)),
      Views := Num(0)
    ]
  }

  /** The object `createProduct` resolves to. */
  function CreatedRecord(id: nat, a: Args): map<string, Val> {
    map[
      "id" := Num(id), "name" := a.name, "brand" := a.brand, "price" := a.price,
      "original_price" := a.originalPrice, "discount_percentage" := a.discountPercentage,
      "image_url" := a.imageUrl, "category_id" := a.categoryId, "promotion" := a.promotion
    ]
  }

  method CreateProduct(db: Db, es: Index, a: Args, now: string, storeFault: bool, syncFault: bool)
    returns (r: Result<map<string, Val>, Thrown>)
    requires db.Valid()
    modifies db, es
    ensures db.Valid()
    ensures unchanged(db`categories, db`favorites, db`orders, db`comments, db`users)
    ensures storeFault ==> r == Err(StoreRejected) && unchanged(db, es)
    ensures !storeFault ==>
      var id := old(db.nextProductId);
      && db.products == old(db.products) + [InsertedRow(id, a, now)]
      && db.nextProductId == id + 1
    ensures !storeFault && syncFault ==> r == Err(SyncFailed) && unchanged(es)
    ensures !storeFault && !syncFault ==>
      var id := old(db.nextProductId);
      && r == Ok(CreatedRecord(id, a))
      && es.docs == old(es.docs)[DocKey(id) := JsonObject(CreatedDoc(id, a, CreatedCategoryName(db.categories, a.categoryId)))]
      && es.visible == old(es.visible) && es.created
      && (old(es.created) ==> es.mapping == old(es.mapping))
  {
    if storeFault {
      return Err(StoreRejected);
    }
    var id := db.nextProductId;
    ProductsAppendValid(db.products, id, InsertedRow(id, a, now));
    db.products := db.products + [InsertedRow(id, a, now)];
    db.nextProductId := id + 1;
    if syncFault {
      return Err(SyncFailed);
    }
    var categoryName := CreatedCategoryName(db.categories, a.categoryId);
    es.Upsert(DocKey(id), CreatedDoc(id, a, categoryName));
    r := Ok(CreatedRecord(id, a));
  }

  /** The returned product carries the new id and the arguments unchanged. */
  lemma CreatedRecordEchoesArgs(id: nat, a: Args)
    ensures var p := CreatedRecord(id, a);
      && p["id"] == Num(id) && p["name"] == a.name && p["brand"] == a.brand && p["price"] == a.price
      && p["original_price"] == a.originalPrice && p["discount_percentage"] == a.discountPercentage
      && p["image_url"] == a.imageUrl && p["category_id"] == a.categoryId && p["promotion"] == a.promotion
  {
  }

  /**
   * The indexed document has the new id and `views = 0`; `discount_percentage`
   * is the argument when truthy and 0 otherwise (nothing derives it from the
   * prices); `promotion` defaults to false; `category_name` is the matching
   * category's name, or null when no category matches.
   */
  lemma {:induction false} CreatedDocFacts(categories: seq<CategoryRow>, id: nat, a: Args)
    ensures var d := JsonObject(CreatedDoc(id, a, CreatedCategoryName(categories, a.categoryId)));
      && d[Id] == Num(id) && d[Views] == Num(0)
      && d[DiscountPercentage] == (if Truthy(a.discountPercentage) then a.discountPercentage else Num(0))
      && d[Promotion] == (if Truthy(a.promotion) then a.promotion else Bool(false))
      && ((forall c :: c in categories ==> !SqlIdEquals(a.categoryId, c.id)) ==> d[CategoryName] == Null)
    ensures forall c :: (c in categories && SqlIdEquals(a.categoryId, c.id) && Truthy(c.name) &&
      (forall c' :: c' in categories && SqlIdEquals(a.categoryId, c'.id) ==> c' == c)) ==>
        JsonObject(CreatedDoc(id, a, CreatedCategoryName(categories, a.categoryId)))[CategoryName] == c.name
  {
    var look := CategoryLookup(categories, a.categoryId);
    if look.None? {
      assert forall c :: c in categories ==> !SqlIdEquals(a.categoryId, c.id);
    }
  }

  // ------------------------------------------------------------------ list queries

  /** A product row with the `category_name` the LEFT JOIN attaches. */
  datatype Joined = Joined(row: ProductRow, categoryName: Val)

  /** `c.name` of the category the LEFT JOIN matches, NULL when none does. */
  function JoinedName(categories: seq<CategoryRow>, categoryId: Val): Val {
    match CategoryLookup(categories, categoryId)
    case Some(c) => c.name
    case None => Null
  }

  /** `getAllProducts`: `products.*` with `categories.name AS category_name`, one row per product. */
  function AllProducts(products: seq<ProductRow>, categories: seq<CategoryRow>): (r: seq<Joined>)
    ensures |r| == |products|
    ensures forall i :: 0 <= i < |r| ==> r[i].row == products[i]
    ensures forall i :: 0 <= i < |r| && (forall c :: c in categories ==> !SqlIdEquals(products[i].categoryId, c.id)) ==>
      r[i].categoryName == Null
  {
    seq(|products|, i requires 0 <= i < |products| => Joined(products[i], JoinedName(categories, products[i].categoryId)))
  }

  /** With unique category ids, the joined name is the name of the one matching category. */
  lemma AllProductsNamesMatch(products: seq<ProductRow>, categories: seq<CategoryRow>, next: nat, i: nat, c: CategoryRow)
    requires CategoriesValid(categories, next)
    requires i < |products| && c in categories && SqlIdEquals(products[i].categoryId, c.id)
    ensures AllProducts(products, categories)[i].categoryName == c.name
  {
    var look := CategoryLookup(categories, products[i].categoryId);
    var k :| 0 <= k < |categories| && categories[k] == look.value;
    var m :| 0 <= m < |categories| && categories[m] == c;
    assert categories[k].id == categories[m].id;
    assert k == m;
  }

  /** The columns `getProductsWithCategories` selects. */
  datatype Listed = Listed(
    id: nat, name: Val, brand: Val, price: Val, originalPrice: Val, discountPercentage: Val,
    imageUrl: Val, promotion: Val, views: Val, categoryName: Val)

  function ListedOf(j: Joined): Listed {
    Listed(j.row.id, j.row.name, j.row.brand, j.row.price, j.row.originalPrice,
      j.row.discountPercentage, j.row.imageUrl, j.row.promotion, j.row.views, j.categoryName)
  }

  /** Ascending text order with NULL first, as MySQL sorts a nullable text column. */
  predicate NullsFirstLe(a: Option<string>, b: Option<string>) {
    a.None? || (b.Some? && TextLe(a.value, b.value))
  }

  /** `ORDER BY c.name, p.name` */
  predicate ListedLe(a: Listed, b: Listed) {
    var ca, cb := SqlText(a.categoryName), SqlText(b.categoryName);
    if ca == cb then NullsFirstLe(SqlText(a.name), SqlText(b.name)) else NullsFirstLe(ca, cb)
  }

  lemma {:induction false} TextLeAntisymmetric(a: string, b: string)
    requires TextLe(a, b) && TextLe(b, a)
    ensures a == b
  {
    if a != [] && b != [] {
      TextLeAntisymmetric(a[1..], b[1..]);
      assert a == [a[0]] + a[1..] && b == [b[0]] + b[1..];
    }
  }

  lemma NullsFirstLeFacts(a: Option<string>, b: Option<string>, c: Option<string>)
    ensures NullsFirstLe(a, b) || NullsFirstLe(b, a)
    ensures NullsFirstLe(a, b) && NullsFirstLe(b, c) ==> NullsFirstLe(a, c)
    ensures NullsFirstLe(a, b) && NullsFirstLe(b, a) ==> a == b
  {
    if a.Some? && b.Some? {
      TextLeTotal(a.value, b.value);
      if TextLe(a.value, b.value) && TextLe(b.value, a.value) {
        TextLeAntisymmetric(a.value, b.value);
      }
      if c.Some? && TextLe(a.value, b.value) && TextLe(b.value, c.value) {
        TextLeTransitive(a.value, b.value, c.value);
      }
    }
  }

  /** The (category name, product name) order is a total preorder. */
  lemma ListedLeIsTotalPreorder()
    ensures TotalPreorder(ListedLe)
  {
    forall a: Listed, b: Listed ensures ListedLe(a, b) || ListedLe(b, a) {
      NullsFirstLeFacts(SqlText(a.categoryName), SqlText(b.categoryName), SqlText(b.categoryName));
      NullsFirstLeFacts(SqlText(a.name), SqlText(b.name), SqlText(b.name));
    }
    forall a: Listed, b: Listed, c: Listed | ListedLe(a, b) && ListedLe(b, c) ensures ListedLe(a, c) {
      var ca, cb, cc := SqlText(a.categoryName), SqlText(b.categoryName), SqlText(c.categoryName);
      NullsFirstLeFacts(ca, cb, cc);
      NullsFirstLeFacts(cb, ca, cc);
      NullsFirstLeFacts(SqlText(a.name), SqlText(b.name), SqlText(c.name));
    }
  }

  function ListAll(js: seq<Joined>): seq<Listed> {
    seq(|js|, i requires 0 <= i < |js| => ListedOf(js[i]))
  }

  /**
   * `getProductsWithCategories`: every product once, with its joined
   * category name, sorted by category name and then product name.
   */
  function ProductsWithCategories(products: seq<ProductRow>, categories: seq<CategoryRow>): (r: seq<Listed>)
    ensures SortedBy(r, ListedLe)
    ensures multiset(r) == multiset(ListAll(AllProducts(products, categories)))
  {
    ListedLeIsTotalPreorder();
    SortBy(ListAll(AllProducts(products, categories)), ListedLe)
  }

  // ------------------------------------------------------------------ sample data

  /** The values of the `k`-th sample row of `initializeSampleData`. */
  function SampleArgs(k: nat): Args {
    if k == 0 then
      Args(Str("iPhone 15"), Str("Apple"), Num(25000000), Num(28000000), Num(10),
        Str("https://example.com/iphone15.jpg"), Num(1), Bool(true))
    else if k == 1 then
      Args(Str("Samsung Galaxy S24"), Str("Samsung"), Num(20000000), Null, Num(0),
        Str("https://example.com/galaxy.jpg"), Num(1), Bool(false))
    else if k == 2 then
      Args(Str("MacBook Pro"), Str("Apple"), Num(50000000), Num(55000000), Num(9),
        Str("https://example.com/macbook.jpg"), Num(2), Bool(true))
    else
      Args(Str("Dell XPS 13"), Str("Dell"), Num(35000000), Null, Num(0),
        Str("https://example.com/dell.jpg"), Num(2), Bool(false))
  }

  /** The four rows inserted into an empty table, with ids from `first`. */
  function SampleRows(first: nat, now: string): seq<ProductRow> {
    seq(4, k requires 0 <= k < 4 => InsertedRow(first + k, SampleArgs(k), now))
  }

  /**
   * The body the sample sync indexes for `p`. The lookup row has a single
   * column, `category_name`; reading `.name` from it gives undefined.
   */
  function SyncedDoc(p: ProductRow, c: CategoryRow): map<Field, Val> {
    var categoryRow := map["category_name" := c.name];
    var categoryName := if "name" in categoryRow then categoryRow["name"] else Undefined;
    map[
      Id := Num(p.id),
      Name := p.name,
      Brand := p.brand,
      Price := ParseNumber(p.price),
      OriginalPrice := if Truthy(p.originalPrice) then ParseNumber(p.originalPrice) else Null,
      DiscountPercentage := Or(p.discountPercentage, Num(0)),
      ImageUrl := p.imageUrl,
      CategoryId := ParseNumber(p.categoryId),
      CategoryName := categoryName,
      Promotion := Or(p.promotion, Bool(false)),
      Views := Or(p.views, Num(0))
    ]
  }

  /** The index writes of the sync loop over `rows`: rows whose category lookup finds nothing are skipped. */
  function SyncEntries(rows: seq<ProductRow>, categories: seq<CategoryRow>): seq<(string, Doc)> {
    if rows == [] then []
    else
      var init := SyncEntries(rows[..|rows| - 1], categories);
      var p := rows[|rows| - 1];
      match CategoryLookup(categories, p.categoryId)
      case None => init
      case Some(c) => init + [(DocKey(p.id), JsonObject(SyncedDoc(p, c)))]
  }

  /** Every write of the sync is for a row whose category exists, and no synced document has a category name. */
  lemma {:induction false} SyncEntriesFacts(rows: seq<ProductRow>, categories: seq<CategoryRow>)
    ensures forall e :: e in SyncEntries(rows, categories) ==>
      && CategoryName !in e.1
      && exists p :: p in rows && e.0 == DocKey(p.id) && CategoryLookup(categories, p.categoryId).Some?
  {
    if rows != [] {
      var init := rows[..|rows| - 1];
      SyncEntriesFacts(init, categories);
      forall e | e in SyncEntries(rows, categories)
        ensures CategoryName !in e.1
        ensures exists p :: p in rows && e.0 == DocKey(p.id) && CategoryLookup(categories, p.categoryId).Some?
      {
        if e in SyncEntries(init, categories) {
          var p :| p in init && e.0 == DocKey(p.id) && CategoryLookup(categories, p.categoryId).Some?;
          assert p in rows;
        } else {
          assert rows[|rows| - 1] in rows;
        }
      }
    }
  }

  /** The write, if any, the sync makes for row `p`. */
  function SyncStep(p: ProductRow, categories: seq<CategoryRow>): seq<(string, Doc)> {
    match CategoryLookup(categories, p.categoryId)
    case None => []
    case Some(c) => [(DocKey(p.id), JsonObject(SyncedDoc(p, c)))]
  }

  lemma SyncEntriesSnoc(rows: seq<ProductRow>, categories: seq<CategoryRow>, i: nat)
    requires i < |rows|
    ensures SyncEntries(rows[..i + 1], categories) == SyncEntries(rows[..i], categories) + SyncStep(rows[i], categories)
  {
    assert rows[..i + 1][..i] == rows[..i];
  }

  /** A row without a category adds no write. */
  lemma SyncSkipsOne(rows: seq<ProductRow>, categories: seq<CategoryRow>, i: nat)
    requires i < |rows| && CategoryLookup(categories, rows[i].categoryId).None?
    ensures SyncEntries(rows[..i + 1], categories) == SyncEntries(rows[..i], categories)
  {
    SyncEntriesSnoc(rows, categories, i);
    assert SyncStep(rows[i], categories) == [];
    assert SyncEntries(rows[..i], categories) + [] == SyncEntries(rows[..i], categories);
  }

  /** Rows past the failure point without a category add no writes. */
  lemma {:induction false} SyncEntriesSkip(rows: seq<ProductRow>, categories: seq<CategoryRow>, from: nat, i: nat)
    requires from <= i <= |rows|
    requires forall k :: from <= k < i ==> CategoryLookup(categories, rows[k].categoryId).None?
    ensures SyncEntries(rows[..i], categories) == SyncEntries(rows[..from], categories)
  {
    if i > from {
      assert rows[..i][..i - 1] == rows[..i - 1];
      SyncEntriesSkip(rows, categories, from, i - 1);
    }
  }

  /** The smaller of the failure point and the row count: how far the sync writes. */
  function SyncedPrefix(esFailsFrom: nat, rows: seq<ProductRow>): (n: nat)
    ensures n <= |rows|
  {
    if esFailsFrom < |rows| then esFailsFrom else |rows|
  }

  /**
   * The index the sync loop leaves when it runs from row `i` on over `docs`:
   * a row without a category is skipped, the first write from row
   * `esFailsFrom` on fails and ends the loop, any other row is written.
   */
  function SyncFrom(docs: map<string, Doc>, rows: seq<ProductRow>, categories: seq<CategoryRow>, i: nat, esFailsFrom: nat): map<string, Doc>
    decreases |rows| - i
  {
    if i >= |rows| then docs
    else
      match CategoryLookup(categories, rows[i].categoryId)
      case None => SyncFrom(docs, rows, categories, i + 1, esFailsFrom)
      case Some(c) =>
        if i >= esFailsFrom then docs
        else SyncFrom(docs[DocKey(rows[i].id) := JsonObject(SyncedDoc(rows[i], c))], rows, categories, i + 1, esFailsFrom)
  }

  /** From the failure point on the loop writes nothing more. */
  lemma {:induction false} SyncFromAfterFailure(docs: map<string, Doc>, rows: seq<ProductRow>, categories: seq<CategoryRow>, i: nat, esFailsFrom: nat)
    requires esFailsFrom <= i
    ensures SyncFrom(docs, rows, categories, i, esFailsFrom) == docs
    decreases |rows| - i
  {
    if i < |rows| && CategoryLookup(categories, rows[i].categoryId).None? {
      SyncFromAfterFailure(docs, rows, categories, i + 1, esFailsFrom);
    }
  }

  lemma {:induction false} SyncFromWrites(base: map<string, Doc>, rows: seq<ProductRow>, categories: seq<CategoryRow>, i: nat, esFailsFrom: nat)
    requires i <= esFailsFrom && i <= |rows|
    ensures SyncFrom(UpsertAll(base, SyncEntries(rows[..i], categories)), rows, categories, i, esFailsFrom)
         == UpsertAll(base, SyncEntries(rows[..SyncedPrefix(esFailsFrom, rows)], categories))
    decreases |rows| - i
  {
    var docs := UpsertAll(base, SyncEntries(rows[..i], categories));
    if i == |rows| {
      assert SyncedPrefix(esFailsFrom, rows) == i;
    } else if i == esFailsFrom {
      SyncFromAfterFailure(docs, rows, categories, i, esFailsFrom);
      assert SyncedPrefix(esFailsFrom, rows) == i;
    } else {
      match CategoryLookup(categories, rows[i].categoryId)
      case None =>
        SyncSkipsOne(rows, categories, i);
        SyncFromWrites(base, rows, categories, i + 1, esFailsFrom);
      case Some(c) =>
        var e := (DocKey(rows[i].id), JsonObject(SyncedDoc(rows[i], c)));
        SyncEntriesSnoc(rows, categories, i);
        assert SyncStep(rows[i], categories) == [e];
        UpsertAllSnoc(base, SyncEntries(rows[..i], categories), e);
        SyncFromWrites(base, rows, categories, i + 1, esFailsFrom);
    }
  }

  /** The whole loop leaves the old documents overwritten by the writes of the rows before the failure point. */
  lemma SyncFromStart(base: map<string, Doc>, rows: seq<ProductRow>, categories: seq<CategoryRow>, esFailsFrom: nat)
    ensures SyncFrom(base, rows, categories, 0, esFailsFrom)
         == UpsertAll(base, SyncEntries(rows[..SyncedPrefix(esFailsFrom, rows)], categories))
  {
    assert rows[..0] == [];
    SyncFromWrites(base, rows, categories, 0, esFailsFrom);
  }

  /** One pass of the sync loop over row `i`; `stop` when its write fails. */
  method SyncRow(es: Index, rows: seq<ProductRow>, categories: seq<CategoryRow>, i: nat, esFailsFrom: nat)
    returns (stop: bool)
    requires i < |rows|
    modifies es
    ensures es.visible == old(es.visible)
    ensures old(es.created) ==> es.created && es.mapping == old(es.mapping)
    ensures stop ==> es.docs == old(es.docs) == SyncFrom(old(es.docs), rows, categories, i, esFailsFrom)
    ensures !stop ==> SyncFrom(es.docs, rows, categories, i + 1, esFailsFrom) == SyncFrom(old(es.docs), rows, categories, i, esFailsFrom)
  {
    var c := CategoryLookup(categories, rows[i].categoryId);
    if c.None? {
      return false;
    }
    if i >= esFailsFrom {
      return true;
    }
    es.Upsert(DocKey(rows[i].id), SyncedDoc(rows[i], c.value));
    return false;
  }

  /**
   * The sync loop of `initializeSampleData` over the rows just read back: a
   * row whose category lookup finds nothing is skipped; the index fails from
   * row `esFailsFrom` on, and the first failing write ends the loop.
   */
  method SyncRows(es: Index, rows: seq<ProductRow>, categories: seq<CategoryRow>, esFailsFrom: nat)
    modifies es
    ensures es.visible == old(es.visible)
    ensures old(es.created) ==> es.created && es.mapping == old(es.mapping)
    ensures es.docs == UpsertAll(old(es.docs), SyncEntries(rows[..SyncedPrefix(esFailsFrom, rows)], categories))
  {
    var i := 0;
    while i < |rows|
      invariant 0 <= i <= |rows|
      invariant es.visible == old(es.visible)
      invariant old(es.created) ==> es.created && es.mapping == old(es.mapping)
      invariant SyncFrom(es.docs, rows, categories, i, esFailsFrom) == SyncFrom(old(es.docs), rows, categories, 0, esFailsFrom)
    {
      var stop := SyncRow(es, rows, categories, i, esFailsFrom);
      if stop {
        break;
      }
      i := i + 1;
    }
    SyncFromStart(old(es.docs), rows, categories, esFailsFrom);
  }

  /** The sample rows take the next four ids, in order. */
  lemma SampleRowsValid(first: nat, now: string)
    ensures |SampleRows(first, now)| == 4
    ensures ProductsValid(SampleRows(first, now), first + 4)
  {
  }

  /** `initializeSampleData`: only an empty table gets the sample rows, which are then synced to the index. */
  method InitializeSampleData(db: Db, es: Index, now: string, storeFault: bool, esFailsFrom: nat)
    requires db.Valid()
    modifies db, es
    ensures db.Valid()
    ensures unchanged(db`categories, db`favorites, db`orders, db`comments, db`users)
    ensures es.visible == old(es.visible)
    ensures old(es.created) ==> es.created && es.mapping == old(es.mapping)
    ensures storeFault || old(db.products) != [] ==> unchanged(db, es)
    ensures !storeFault && old(db.products) == [] ==>
      && db.products == SampleRows(old(db.nextProductId), now)
      && db.nextProductId == old(db.nextProductId) + 4
      && es.docs == UpsertAll(old(es.docs), SyncEntries(db.products[..SyncedPrefix(esFailsFrom, db.products)], db.categories))
  {
    if storeFault || |db.products| != 0 {
      return;
    }
    var first := db.nextProductId;
    SampleRowsValid(first, now);
    db.products := SampleRows(first, now);
    db.nextProductId := first + 4;
    SyncRows(es, db.products, db.categories, esFailsFrom);
  }
}
