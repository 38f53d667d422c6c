/**
 * The category request handlers: list, get, create, update and delete over
 * the `categories` table, answering with the row(s), 201, 400, 404 or 500.
 * Each handler opens its own connection; a failed connection ends the
 * process with exit code 1. Statements go through `execute`, which refuses
 * an undefined bind parameter.
 */
module CategoryController {
  import opened Wrappers
  import opened Js
  import opened Database
  import opened Sorting
  import opened Products

  datatype Reply =
    | Rows(categories: seq<CategoryRow>)
    | One(category: CategoryRow)
    | Created201(id: nat)
    | Done
    | BadRequest400
    | NotFound404
    | ServerError500
    | ProcessExit(code: int)

  /** `ORDER BY created_at DESC` */
  predicate NewestFirst(a: CategoryRow, b: CategoryRow) {
    a.createdAt >= b.createdAt
  }

  lemma NewestFirstIsTotalPreorder()
    ensures TotalPreorder(NewestFirst)
  {
  }

  /** `SELECT * FROM categories ORDER BY created_at DESC` */
  function Listing(categories: seq<CategoryRow>): (r: seq<CategoryRow>)
    ensures forall i, j :: 0 <= i < j < |r| ==> r[i].createdAt >= r[j].createdAt
    ensures multiset(r) == multiset(categories)
  {
    NewestFirstIsTotalPreorder();
    SortBy(categories, NewestFirst)
  }

  method GetAllCategories(db: Db, connectFails: bool, fault: bool) returns (reply: Reply)
    ensures connectFails ==> reply == ProcessExit(1)
    ensures !connectFails && fault ==> reply == ServerError500
    ensures !connectFails && !fault ==> reply == Rows(Listing(db.categories))
  {
    if connectFails {
      return ProcessExit(1);
    }
    if fault {
      return ServerError500;
    }
    reply := Rows(Listing(db.categories));
  }

  /** `GET /:id`: the row whose id the route parameter names, or 404. */
  method GetCategoryById(db: Db, id: string, connectFails: bool, fault: bool) returns (reply: Reply)
    ensures connectFails ==> reply == ProcessExit(1)
    ensures !connectFails && fault ==> reply == ServerError500
    ensures !connectFails && !fault ==>
      match CategoryLookup(db.categories, Str(id))
      case None => reply == NotFound404
      case Some(c) => reply == One(c)
  {
    if connectFails {
      return ProcessExit(1);
    }
    if fault {
      return ServerError500;
    }
    match CategoryLookup(db.categories, Str(id)) {
      case None => reply := NotFound404;
      case Some(c) => reply := One(c);
    }
  }

  /** `createCategory`: a falsy name is refused before any connection; a missing description is stored as null. */
  method CreateCategory(db: Db, body: map<string, Val>, now: int, connectFails: bool, fault: bool) returns (reply: Reply)
    requires db.Valid()
    modifies db
    ensures db.Valid()
    ensures unchanged(db`products, db`favorites, db`orders, db`comments, db`users)
    ensures !Truthy(Prop(body, "name")) ==> reply == BadRequest400 && unchanged(db)
    ensures Truthy(Prop(body, "name")) && connectFails ==> reply == ProcessExit(1) && unchanged(db)
    ensures Truthy(Prop(body, "name")) && !connectFails && fault ==> reply == ServerError500 && unchanged(db)
    ensures Truthy(Prop(body, "name")) && !connectFails && !fault ==>
      && reply == Created201(old(db.nextCategoryId))
      && db.categories == old(db.categories) +
           [CategoryRow(old(db.nextCategoryId), Prop(body, "name"), Or(Prop(body, "description"), Null), now)]
      && db.nextCategoryId == old(db.nextCategoryId) + 1
  {
    var name, description := Prop(body, "name"), Prop(body, "description");
    if !Truthy(name) {
      return BadRequest400;
    }
    if connectFails {
      return ProcessExit(1);
    }
    if fault {
      return ServerError500;
    }
    var id := db.nextCategoryId;
    db.categories := db.categories + [CategoryRow(id, name, Or(description, Null), now)];
    db.nextCategoryId := id + 1;
    reply := Created201(id);
  }

  /** `UPDATE categories SET name = ?, description = ? WHERE id = ?` */
  function Updated(categories: seq<CategoryRow>, id: Val, name: Val, description: Val): (r: seq<CategoryRow>)
    ensures |r| == |categories|
    ensures forall i :: 0 <= i < |r| ==> r[i].id == categories[i].id && r[i].createdAt == categories[i].createdAt
  {
    if categories == [] then []
    else
      var c := categories[0];
      [if SqlIdEquals(id, c.id) then c.(name := name, description := description) else c]
        + Updated(categories[1..], id, name, description)
  }

  /** After an update, the row it matched reads back with the new name and description; no other row changes. */
  lemma {:induction false} UpdateThenGet(categories: seq<CategoryRow>, id: Val, name: Val, description: Val)
    ensures match CategoryLookup(categories, id)
      case None => Updated(categories, id, name, description) == categories
      case Some(c) => CategoryLookup(Updated(categories, id, name, description), id) == Some(c.(name := name, description := description))
    ensures forall i :: 0 <= i < |categories| && !SqlIdEquals(id, categories[i].id) ==>
      Updated(categories, id, name, description)[i] == categories[i]
  {
    if categories != [] {
      UpdateThenGet(categories[1..], id, name, description);
      var r := Updated(categories, id, name, description);
      forall i | 0 <= i < |categories| && !SqlIdEquals(id, categories[i].id)
        ensures r[i] == categories[i]
      {
        if i > 0 {
          assert r[i] == Updated(categories[1..], id, name, description)[i - 1];
        }
      }
    }
  }

  lemma UpdatedValid(categories: seq<CategoryRow>, next: nat, id: Val, name: Val, description: Val)
    requires CategoriesValid(categories, next)
    ensures CategoriesValid(Updated(categories, id, name, description), next)
  {
  }

  /** `updateCategory`: no validation; an undefined name makes `execute` throw; no matching row is 404. */
  method UpdateCategory(db: Db, id: string, body: map<string, Val>, connectFails: bool, fault: bool) returns (reply: Reply)
    requires db.Valid()
    modifies db
    ensures db.Valid()
    ensures unchanged(db`products, db`favorites, db`orders, db`comments, db`users)
    ensures db.nextCategoryId == old(db.nextCategoryId)
    ensures connectFails ==> reply == ProcessExit(1) && unchanged(db)
    ensures !connectFails && (fault || Prop(body, "name") == Undefined) ==> reply == ServerError500 && unchanged(db)
    ensures !connectFails && !fault && Prop(body, "name") != Undefined ==>
      if CategoryLookup(old(db.categories), Str(id)).None? then
        reply == NotFound404 && unchanged(db)
      else
        && reply == Done
        && db.categories == Updated(old(db.categories), Str(id), Prop(body, "name"), Or(Prop(body, "description"), Null))
  {
    if connectFails {
      return ProcessExit(1);
    }
    var name, description := Prop(body, "name"), Prop(body, "description");
    if fault || name == Undefined {
      return ServerError500;
    }
    UpdatedValid(db.categories, db.nextCategoryId, Str(id), name, Or(description, Null));
    var updated := Updated(db.categories, Str(id), name, Or(description, Null));
    if CategoryLookup(db.categories, Str(id)).None? {
      return NotFound404;
    }
    db.categories := updated;
    reply := Done;
  }

  /** `DELETE FROM categories WHERE id = ?` */
  function Removed(categories: seq<CategoryRow>, id: Val): (r: seq<CategoryRow>)
    ensures forall c :: c in r <==> c in categories && !SqlIdEquals(id, c.id)
  {
    if categories == [] then []
    else (if SqlIdEquals(id, categories[0].id) then [] else [categories[0]]) + Removed(categories[1..], id)
  }

  lemma ConsValid(x: CategoryRow, rest: seq<CategoryRow>, next: nat)
    requires CategoriesValid(rest, next) && x.id < next
    requires forall y :: y in rest ==> x.id < y.id
    ensures CategoriesValid([x] + rest, next)
  {
    var s := [x] + rest;
    forall i, j | 0 <= i < j < |s| ensures s[i].id < s[j].id {
      assert s[j] == rest[j - 1];
      if i > 0 {
        assert s[i] == rest[i - 1];
      }
    }
  }

  lemma {:induction false} RemovedValid(categories: seq<CategoryRow>, next: nat, id: Val)
    requires CategoriesValid(categories, next)
    ensures CategoriesValid(Removed(categories, id), next)
  {
    if categories != [] {
      assert CategoriesValid(categories[1..], next);
      RemovedValid(categories[1..], next, id);
      var rest := Removed(categories[1..], id);
      if !SqlIdEquals(id, categories[0].id) {
        forall y | y in rest ensures categories[0].id < y.id {
          var k :| 0 <= k < |categories[1..]| && categories[1..][k] == y;
          assert categories[k + 1] == y;
        }
        ConsValid(categories[0], rest, next);
      } else {
        assert [] + rest == rest;
      }
    }
  }

  /** After a delete, getting the same id finds nothing. */
  lemma DeleteThenGetNotFound(categories: seq<CategoryRow>, id: Val)
    ensures CategoryLookup(Removed(categories, id), id) == None
  {
  }

  /** `ON DELETE SET NULL`: products of the deleted category lose their category. */
  function Unlinked(products: seq<ProductRow>, id: nat): (r: seq<ProductRow>)
    ensures |r| == |products|
    ensures forall i :: 0 <= i < |r| ==> r[i].id == products[i].id
    ensures forall i :: 0 <= i < |r| ==> !SqlIdEquals(r[i].categoryId, id)
    ensures forall i :: 0 <= i < |r| && !SqlIdEquals(products[i].categoryId, id) ==> r[i] == products[i]
  {
    seq(|products|, i requires 0 <= i < |products| =>
      if SqlIdEquals(products[i].categoryId, id) then products[i].(categoryId := Null) else products[i])
  }

  /** `deleteCategory`: 404 when no row matches; otherwise the row is gone and its products are unlinked. */
  method DeleteCategory(db: Db, id: string, connectFails: bool, fault: bool) returns (reply: Reply)
    requires db.Valid()
    modifies db
    ensures db.Valid()
    ensures unchanged(db`favorites, db`orders, db`comments, db`users)
    ensures db.nextCategoryId == old(db.nextCategoryId) && db.nextProductId == old(db.nextProductId)
    ensures connectFails ==> reply == ProcessExit(1) && unchanged(db)
    ensures !connectFails && fault ==> reply == ServerError500 && unchanged(db)
    ensures !connectFails && !fault ==>
      match CategoryLookup(old(db.categories), Str(id))
      case None => reply == NotFound404 && unchanged(db)
      case Some(c) =>
        && reply == Done
        && db.categories == Removed(old(db.categories), Str(id))
        && db.products == Unlinked(old(db.products), c.id)
  {
    if connectFails {
      return ProcessExit(1);
    }
    if fault {
      return ServerError500;
    }
    match CategoryLookup(db.categories, Str(id)) {
      case None =>
        reply := NotFound404;
      case Some(c) =>
        RemovedValid(db.categories, db.nextCategoryId, Str(id));
        db.categories := Removed(db.categories, Str(id));
        db.products := Unlinked(db.products, c.id);
        reply := Done;
    }
  }
}
