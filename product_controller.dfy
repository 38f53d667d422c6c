/**
 * The `createProduct` request handler: check the body, call the model with
 * the body's fields as positional arguments, answer 201, 400 or 500.
 *
 * The handler passes five arguments to the eight-parameter model function,
 * so `image_url` arrives as `original_price` and `category_id` as
 * `discount_percentage`; the model keeps that.
 */
module ProductController {
  import opened Wrappers
  import opened Js
  import opened Database
  import opened SearchIndex
  import opened Products

  datatype Reply =
    | Created201(product: map<string, Val>)
    | BadRequest400
    | ServerError500

  /** `!name || !brand || !price` is false. */
  predicate Accepts(body: map<string, Val>) {
    Truthy(Prop(body, "name")) && Truthy(Prop(body, "brand")) && Truthy(Prop(body, "price"))
  }

  /** `Product.createProduct(name, brand, price, image_url, category_id)` */
  function ModelArgs(body: map<string, Val>): (a: Args)
    ensures a.name == Prop(body, "name") && a.brand == Prop(body, "brand") && a.price == Prop(body, "price")
    ensures a.originalPrice == Prop(body, "image_url")
    ensures a.discountPercentage == Prop(body, "category_id")
    ensures a.imageUrl == Undefined && a.categoryId == Undefined && a.promotion == Undefined
  {
    Args(Prop(body, "name"), Prop(body, "brand"), Prop(body, "price"),
      Prop(body, "image_url"), Prop(body, "category_id"), Undefined, Undefined, Undefined)
  }

  method CreateProduct(db: Db, es: Index, body: map<string, Val>, now: string, storeFault: bool, syncFault: bool)
    returns (reply: Reply)
    requires db.Valid()
    modifies db, es
    ensures db.Valid()
    ensures unchanged(db`categories, db`favorites, db`orders, db`comments, db`users)
    ensures !Accepts(body) ==> reply == BadRequest400 && unchanged(db, es)
    ensures Accepts(body) && storeFault ==> reply == ServerError500 && unchanged(db, es)
    ensures Accepts(body) && !storeFault ==>
      && db.products == old(db.products) + [InsertedRow(old(db.nextProductId), ModelArgs(body), now)]
      && db.nextProductId == old(db.nextProductId) + 1
    ensures Accepts(body) && !storeFault && syncFault ==> reply == ServerError500 && unchanged(es)
    ensures Accepts(body) && !storeFault && !syncFault ==>
      && reply == Created201(CreatedRecord(old(db.nextProductId), ModelArgs(body)))
      && es.docs == old(es.docs)[DocKey(old(db.nextProductId)) :=
           JsonObject(CreatedDoc(old(db.nextProductId), ModelArgs(body), Null))]
  {
    if !Accepts(body) {
      return BadRequest400;
    }
    var r := Products.CreateProduct(db, es, ModelArgs(body), now, storeFault, syncFault);
    match r {
      case Ok(product) => reply := Created201(product);
      case Err(_) => reply := ServerError500;
    }
  }

  /** 0, "" and a missing value are all refused as a price; so are a falsy name or brand. */
  lemma FalsyRequiredFieldRejected(body: map<string, Val>)
    ensures Prop(body, "price") in {Undefined, Null, Num(0), Str(""), Bool(false)} ==> !Accepts(body)
    ensures !Truthy(Prop(body, "name")) || !Truthy(Prop(body, "brand")) ==> !Accepts(body)
  {
  }

  /** Acceptance does not look at `image_url` or `category_id`. */
  lemma OptionalFieldsIgnored(body: map<string, Val>, imageUrl: Val, categoryId: Val)
    ensures Accepts(body["image_url" := imageUrl]["category_id" := categoryId]) == Accepts(body)
  {
    var b := body["image_url" := imageUrl]["category_id" := categoryId];
    assert Prop(b, "name") == Prop(body, "name");
    assert Prop(b, "brand") == Prop(body, "brand");
    assert Prop(b, "price") == Prop(body, "price");
  }

  /**
   * What the positional mix-up stores and indexes: `image_url` in
   * `original_price`, `category_id` in `discount_percentage`, no category,
   * no image, and a document whose `category_name` is null.
   */
  lemma {:induction false} ForwardingMisplacesFields(body: map<string, Val>, categories: seq<CategoryRow>, id: nat, now: string)
    ensures var row := InsertedRow(id, ModelArgs(body), now);
      && row.originalPrice == Bind(Prop(body, "image_url"))
      && row.discountPercentage == Bind(Prop(body, "category_id"))
      && row.imageUrl == Null && row.categoryId == Null && row.promotion == Null
    ensures CreatedCategoryName(categories, ModelArgs(body).categoryId) == Null
    ensures var d := JsonObject(CreatedDoc(id, ModelArgs(body), Null));
      && d[DiscountPercentage] == Or(Prop(body, "category_id"), Num(0))
      && d[CategoryName] == Null
      && ImageUrl !in d
  {
  }
}
