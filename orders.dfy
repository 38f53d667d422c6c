/**
 * The `orders` table: a multiset of (user, product, quantity) rows, one
 * appended per `createOrder`; "has purchased" is a positive row count.
 */
module Orders {
  import opened Wrappers
  import opened Js
  import opened Database

  /** `createOrder(userId, productId, quantity = 1)`: the default applies only to an undefined argument. */
  function QuantityArg(quantity: Val): (q: Val)
    ensures quantity == Undefined ==> q == Num(1)
    ensures quantity != Undefined ==> q == quantity
  {
    if quantity == Undefined then Num(1) else quantity
  }

  /** `createOrder`: append one row and resolve to its id; a store error is rethrown. */
  method CreateOrder(db: Db, userId: Val, productId: Val, quantity: Val, fault: bool)
    returns (r: Result<nat, SqlError>)
    requires db.Valid()
    modifies db
    ensures db.Valid()
    ensures unchanged(db`products, db`categories, db`favorites, db`comments, db`users)
    ensures fault || SqlInt(userId).None? || SqlInt(productId).None? ==> r == Err(SqlError) && unchanged(db)
    ensures !fault && SqlInt(userId).Some? && SqlInt(productId).Some? ==>
      && r == Ok(old(db.nextOrderId))
      && db.orders == old(db.orders) +
           [OrderRow(old(db.nextOrderId), SqlInt(userId).value, SqlInt(productId).value, Bind(QuantityArg(quantity)))]
      && db.nextOrderId == old(db.nextOrderId) + 1
  {
    // user_id and product_id are NOT NULL
    if fault || SqlInt(userId).None? || SqlInt(productId).None? {
      return Err(SqlError);
    }
    var id := db.nextOrderId;
    db.orders := db.orders + [OrderRow(id, SqlInt(userId).value, SqlInt(productId).value, Bind(QuantityArg(quantity)))];
    db.nextOrderId := id + 1;
    r := Ok(id);
  }

  /** `user_id = ? AND product_id = ?` */
  predicate Matches(o: OrderRow, userId: Val, productId: Val) {
    SqlIdEquals(userId, o.userId) && SqlIdEquals(productId, o.productId)
  }

  /** `SELECT COUNT(*) ... WHERE user_id = ? AND product_id = ?` */
  function PurchaseCount(orders: seq<OrderRow>, userId: Val, productId: Val): (n: nat)
    ensures n > 0 <==> exists o :: o in orders && Matches(o, userId, productId)
    ensures n <= |orders|
  {
    if orders == [] then 0
    else
      var last := if Matches(orders[|orders| - 1], userId, productId) then 1 else 0;
      PurchaseCount(orders[..|orders| - 1], userId, productId) + last
  }

  /** `hasUserPurchasedProduct`: whether the count is positive; a store error is rethrown. */
  function HasUserPurchasedProduct(orders: seq<OrderRow>, userId: Val, productId: Val, fault: bool): (r: Result<bool, SqlError>)
    ensures fault <==> r.Err?
    ensures r == Ok(true) <==> !fault && exists o :: o in orders && Matches(o, userId, productId)
  {
    if fault then Err(SqlError) else Ok(PurchaseCount(orders, userId, productId) > 0)
  }

  /** One more order raises its own pair's count by one and no other pair's. */
  lemma PurchaseCountAppend(orders: seq<OrderRow>, o: OrderRow, userId: Val, productId: Val)
    ensures PurchaseCount(orders + [o], userId, productId) ==
      PurchaseCount(orders, userId, productId) + (if Matches(o, userId, productId) then 1 else 0)
  {
    assert (orders + [o])[..|orders|] == orders;
  }

  /** After `createOrder(u, p)` with whole-number ids succeeds, `hasUserPurchasedProduct(u, p)` is true. */
  lemma PurchasedAfterOrder(orders: seq<OrderRow>, id: nat, userId: Val, productId: Val, quantity: Val)
    requires SqlWhole(userId) && SqlWhole(productId)
    ensures var o := OrderRow(id, SqlInt(userId).value, SqlInt(productId).value, quantity);
      && HasUserPurchasedProduct(orders + [o], userId, productId, false) == Ok(true)
      && PurchaseCount(orders + [o], userId, productId) == PurchaseCount(orders, userId, productId) + 1
  {
    var o := OrderRow(id, SqlInt(userId).value, SqlInt(productId).value, quantity);
    SelectsIffWholeAndStored(userId, o.userId);
    SelectsIffWholeAndStored(productId, o.productId);
    PurchaseCountAppend(orders, o, userId, productId);
  }

  /**
   * An id with a fraction is stored rounded by `createOrder` but selects no
   * row, so `hasUserPurchasedProduct` with it is always false.
   */
  lemma FractionNeverPurchased(orders: seq<OrderRow>, userId: Val, productId: Val)
    requires !SqlWhole(userId) || !SqlWhole(productId)
    ensures HasUserPurchasedProduct(orders, userId, productId, false) == Ok(false)
  {
    forall o | o in orders ensures !Matches(o, userId, productId) {
      SelectsIffWholeAndStored(userId, o.userId);
      SelectsIffWholeAndStored(productId, o.productId);
    }
  }

  /** An order for another user or another product does not change the answer. */
  lemma OtherOrdersIrrelevant(orders: seq<OrderRow>, o: OrderRow, userId: Val, productId: Val, fault: bool)
    requires !Matches(o, userId, productId)
    ensures HasUserPurchasedProduct(orders + [o], userId, productId, fault) == HasUserPurchasedProduct(orders, userId, productId, fault)
  {
    PurchaseCountAppend(orders, o, userId, productId);
  }
}
