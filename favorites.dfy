/**
 * The `favorites` table: at most one row per (user, product) pair, added
 * with a plain INSERT whose duplicate-key error reads as "already there",
 * removed with a DELETE whose affected-row count is the answer.
 */
module Favorites {
  import opened Wrappers
  import opened Js
  import opened Database

  /** The (user, product) pairs the table holds. */
  function Pairs(rows: seq<FavoriteRow>): set<(int, int)> {
    set r | r in rows :: (r.userId, r.productId)
  }

  /** `user_id = ? AND product_id = ?` with the two bound values. */
  predicate Matches(r: FavoriteRow, userId: Val, productId: Val) {
    SqlIdEquals(userId, r.userId) && SqlIdEquals(productId, r.productId)
  }

  /** The number of rows `user_id = ? AND product_id = ?` selects: the DELETE's `affectedRows`. */
  function MatchCount(rows: seq<FavoriteRow>, userId: Val, productId: Val): (n: nat)
    ensures n > 0 <==> exists x :: x in rows && Matches(x, userId, productId)
    ensures n <= |rows|
  {
    if rows == [] then 0
    else
      var last := if Matches(rows[|rows| - 1], userId, productId) then 1 else 0;
      MatchCount(rows[..|rows| - 1], userId, productId) + last
  }

  /** The rows a `DELETE ... WHERE user_id = ? AND product_id = ?` leaves, in table order. */
  function WithoutMatches(rows: seq<FavoriteRow>, userId: Val, productId: Val): (r: seq<FavoriteRow>)
    ensures forall x :: x in r <==> x in rows && !Matches(x, userId, productId)
  {
    if rows == [] then []
    else
      var last := rows[|rows| - 1];
      WithoutMatches(rows[..|rows| - 1], userId, productId) + (if Matches(last, userId, productId) then [] else [last])
  }

  /** A row above and distinct from every row of a valid table can go after them. */
  lemma SnocValid(init: seq<FavoriteRow>, x: FavoriteRow, next: nat)
    requires FavoritesValid(init, next) && x.id < next
    requires forall y :: y in init ==> y.id < x.id && (x.userId != y.userId || x.productId != y.productId)
    ensures FavoritesValid(init + [x], next)
  {
    var s := init + [x];
    forall i, j | 0 <= i < j < |s|
      ensures s[i].id < s[j].id
      ensures s[i].userId != s[j].userId || s[i].productId != s[j].productId
    {
      assert s[i] == init[i];
      if j < |init| {
        assert s[j] == init[j];
      }
    }
  }

  /** `affectedRows` is the number of rows the DELETE takes out. */
  lemma {:induction false} RemovedCount(rows: seq<FavoriteRow>, userId: Val, productId: Val)
    ensures |WithoutMatches(rows, userId, productId)| + MatchCount(rows, userId, productId) == |rows|
  {
    if rows != [] {
      RemovedCount(rows[..|rows| - 1], userId, productId);
    }
  }

  /** Deleting keeps the table's invariants: ids in insertion order, one row per pair. */
  lemma {:induction false} WithoutMatchesValid(rows: seq<FavoriteRow>, next: nat, userId: Val, productId: Val)
    requires FavoritesValid(rows, next)
    ensures FavoritesValid(WithoutMatches(rows, userId, productId), next)
  {
    if rows != [] {
      var init, last := rows[..|rows| - 1], rows[|rows| - 1];
      assert FavoritesValid(init, next);
      WithoutMatchesValid(init, next, userId, productId);
      var kept := WithoutMatches(init, userId, productId);
      if !Matches(last, userId, productId) {
        forall y | y in kept
          ensures y.id < last.id && (last.userId != y.userId || last.productId != y.productId)
        {
          var k :| 0 <= k < |init| && init[k] == y;
          assert rows[k] == y;
        }
        SnocValid(kept, last, next);
      } else {
        assert kept + [] == kept;
      }
    }
  }

  /** `addFavorite`: true when the pair was new, false on a duplicate; other store errors propagate. */
  method AddFavorite(db: Db, userId: Val, productId: Val, fault: bool) returns (r: Result<bool, SqlError>)
    requires db.Valid()
    modifies db
    ensures db.Valid()
    ensures unchanged(db`products, db`categories, db`orders, db`comments, db`users)
    ensures fault || SqlInt(userId).None? || SqlInt(productId).None? ==> r == Err(SqlError) && unchanged(db)
    ensures !fault && SqlInt(userId).Some? && SqlInt(productId).Some? ==>
      var pair := (SqlInt(userId).value, SqlInt(productId).value);
      if pair in Pairs(old(db.favorites)) then
        r == Ok(false) && unchanged(db)
      else
        && r == Ok(true)
        && db.favorites == old(db.favorites) + [FavoriteRow(old(db.nextFavoriteId), pair.0, pair.1)]
        && db.nextFavoriteId == old(db.nextFavoriteId) + 1
  {
    // NOT NULL columns refuse a null user or product
    if fault || SqlInt(userId).None? || SqlInt(productId).None? {
      return Err(SqlError);
    }
    var u, p := SqlInt(userId).value, SqlInt(productId).value;
    if (u, p) in Pairs(db.favorites) {
      // ER_DUP_ENTRY on unique_favorite
      return Ok(false);
    }
    db.favorites := db.favorites + [FavoriteRow(db.nextFavoriteId, u, p)];
    db.nextFavoriteId := db.nextFavoriteId + 1;
    r := Ok(true);
  }

  /** `removeFavorite`: true iff a matching row existed; afterwards none does. */
  method RemoveFavorite(db: Db, userId: Val, productId: Val, fault: bool) returns (r: Result<bool, SqlError>)
    requires db.Valid()
    modifies db
    ensures db.Valid()
    ensures unchanged(db`products, db`categories, db`orders, db`comments, db`users)
    ensures db.nextFavoriteId == old(db.nextFavoriteId)
    ensures fault ==> r == Err(SqlError) && unchanged(db)
    ensures !fault ==>
      && db.favorites == WithoutMatches(old(db.favorites), userId, productId)
      && r == Ok(exists x :: x in old(db.favorites) && Matches(x, userId, productId))
  {
    if fault {
      return Err(SqlError);
    }
    var affectedRows := MatchCount(db.favorites, userId, productId);
    WithoutMatchesValid(db.favorites, db.nextFavoriteId, userId, productId);
    db.favorites := WithoutMatches(db.favorites, userId, productId);
    r := Ok(affectedRows > 0);
  }

  /** Adding a new pair adds exactly that pair. */
  lemma PairsAfterAdd(rows: seq<FavoriteRow>, row: FavoriteRow)
    ensures Pairs(rows + [row]) == Pairs(rows) + {(row.userId, row.productId)}
  {
  }

  /** Whole-number ids select exactly the row holding the pair they are stored as. */
  lemma MatchesStoredPair(r: FavoriteRow, userId: Val, productId: Val)
    requires SqlWhole(userId) && SqlWhole(productId)
    ensures Matches(r, userId, productId) <==> (r.userId, r.productId) == (SqlInt(userId).value, SqlInt(productId).value)
  {
    SelectsIffWholeAndStored(userId, r.userId);
    SelectsIffWholeAndStored(productId, r.productId);
  }

  /** Removing with whole-number ids takes out exactly their pair and touches no other user or product. */
  lemma PairsAfterRemove(rows: seq<FavoriteRow>, userId: Val, productId: Val)
    requires SqlWhole(userId) && SqlWhole(productId)
    ensures Pairs(WithoutMatches(rows, userId, productId)) ==
      Pairs(rows) - {(SqlInt(userId).value, SqlInt(productId).value)}
  {
    var kept := WithoutMatches(rows, userId, productId);
    var pair := (SqlInt(userId).value, SqlInt(productId).value);
    forall q | q in Pairs(rows) - {pair} ensures q in Pairs(kept) {
      var r :| r in rows && (r.userId, r.productId) == q;
      MatchesStoredPair(r, userId, productId);
      assert r in kept;
    }
    forall q | q in Pairs(kept) ensures q != pair {
      var r :| r in kept && (r.userId, r.productId) == q;
      MatchesStoredPair(r, userId, productId);
    }
  }

  lemma {:induction false} WithoutMatchesNone(rows: seq<FavoriteRow>, userId: Val, productId: Val)
    requires forall i :: 0 <= i < |rows| ==> !Matches(rows[i], userId, productId)
    ensures WithoutMatches(rows, userId, productId) == rows
  {
    if rows != [] {
      var init, last := rows[..|rows| - 1], rows[|rows| - 1];
      assert !Matches(last, userId, productId);
      WithoutMatchesNone(init, userId, productId);
      assert rows == init + [last];
    }
  }

  /** `addFavorite` of a new pair of whole-number ids followed by `removeFavorite` of it gives back the original rows. */
  lemma AddThenRemoveRestores(rows: seq<FavoriteRow>, id: nat, userId: Val, productId: Val)
    requires SqlWhole(userId) && SqlWhole(productId)
    requires (SqlInt(userId).value, SqlInt(productId).value) !in Pairs(rows)
    ensures WithoutMatches(rows + [FavoriteRow(id, SqlInt(userId).value, SqlInt(productId).value)], userId, productId) == rows
  {
    var row := FavoriteRow(id, SqlInt(userId).value, SqlInt(productId).value);
    forall i | 0 <= i < |rows| ensures !Matches(rows[i], userId, productId) {
      assert (rows[i].userId, rows[i].productId) in Pairs(rows);
      MatchesStoredPair(rows[i], userId, productId);
    }
    MatchesStoredPair(row, userId, productId);
    WithoutMatchesNone(rows, userId, productId);
    assert (rows + [row])[..|rows|] == rows;
  }

  /**
   * An id with a fraction is stored rounded by `addFavorite` but selects no
   * row, so `removeFavorite` with it removes nothing and answers false.
   */
  lemma FractionRemovesNothing(rows: seq<FavoriteRow>, userId: Val, productId: Val)
    requires !SqlWhole(userId) || !SqlWhole(productId)
    ensures WithoutMatches(rows, userId, productId) == rows
    ensures MatchCount(rows, userId, productId) == 0
  {
    forall i | 0 <= i < |rows| ensures !Matches(rows[i], userId, productId) {
      SelectsIffWholeAndStored(userId, rows[i].userId);
      SelectsIffWholeAndStored(productId, rows[i].productId);
    }
    WithoutMatchesNone(rows, userId, productId);
  }

  /** The products whose id is `id`. */
  function ProductsWithId(products: seq<ProductRow>, id: int): (r: seq<ProductRow>)
    ensures forall p :: p in r <==> p in products && p.id == id
  {
    if products == [] then []
    else (if products[0].id == id then [products[0]] else []) + ProductsWithId(products[1..], id)
  }

  /** `f.user_id = ?` */
  predicate OfUser(f: FavoriteRow, userId: Val) {
    SqlIdEquals(userId, f.userId)
  }

  /**
   * `getFavoritesByUser`: the products joined to the user's favourites.
   * A favourite whose product row is missing yields nothing.
   */
  function FavoritesByUser(favorites: seq<FavoriteRow>, products: seq<ProductRow>, userId: Val): (r: seq<ProductRow>)
    ensures forall p :: p in r <==> p in products && exists f :: f in favorites && OfUser(f, userId) && f.productId == p.id
  {
    if favorites == [] then []
    else
      var f := favorites[0];
      var rest := FavoritesByUser(favorites[1..], products, userId);
      var here := if OfUser(f, userId) then ProductsWithId(products, f.productId) else [];
      assert forall g :: g in favorites <==> g == f || g in favorites[1..];
      here + rest
  }
}
