/**
 * The `comments` table: comments are appended, listed per product newest
 * first with the author's name and email, and counted per product.
 */
module Comments {
  import opened Wrappers
  import opened Js
  import opened Database
  import opened Sorting

  /** `createComment`: append one comment and resolve to its id; a store error is rethrown. */
  method CreateComment(db: Db, userId: Val, productId: Val, commentText: Val, now: int, fault: bool)
    returns (r: Result<nat, SqlError>)
    requires db.Valid()
    modifies db
    ensures db.Valid()
    ensures unchanged(db`products, db`categories, db`favorites, db`orders, db`users)
    ensures fault || SqlInt(userId).None? || SqlInt(productId).None? || SqlText(commentText).None? ==>
      r == Err(SqlError) && unchanged(db)
    ensures !fault && SqlInt(userId).Some? && SqlInt(productId).Some? && SqlText(commentText).Some? ==>
      && r == Ok(old(db.nextCommentId))
      && db.comments == old(db.comments) +
           [CommentRow(old(db.nextCommentId), SqlInt(userId).value, SqlInt(productId).value, commentText, now)]
      && db.nextCommentId == old(db.nextCommentId) + 1
  {
    // user_id, product_id and comment_text are NOT NULL
    if fault || SqlInt(userId).None? || SqlInt(productId).None? || SqlText(commentText).None? {
      return Err(SqlError);
    }
    var id := db.nextCommentId;
    db.comments := db.comments + [CommentRow(id, SqlInt(userId).value, SqlInt(productId).value, commentText, now)];
    db.nextCommentId := id + 1;
    r := Ok(id);
  }

  /** `c.product_id = ?` */
  predicate OfProduct(c: CommentRow, productId: Val) {
    SqlIdEquals(productId, c.productId)
  }

  /** A row of `getCommentsByProduct`: the comment with `u.name AS user_name, u.email AS user_email`. */
  datatype CommentView = CommentView(
    id: nat, userId: int, productId: int, commentText: Val, commentDate: int, userName: Val, userEmail: Val)

  function ViewOf(c: CommentRow, u: UserRow): CommentView {
    CommentView(c.id, c.userId, c.productId, c.text, c.date, u.name, u.email)
  }

  /** The product's comments joined with their authors, in table order (before ORDER BY). */
  function Joined(comments: seq<CommentRow>, users: seq<UserRow>, productId: Val): (r: seq<CommentView>)
    ensures forall v :: v in r <==>
      exists c, u :: c in comments && u in users && OfProduct(c, productId) && u.id == c.userId && v == ViewOf(c, u)
    ensures forall v :: v in r ==> SqlIdEquals(productId, v.productId)
  {
    if comments == [] then []
    else
      var c := comments[0];
      var here := if OfProduct(c, productId) then Authored(c, users) else [];
      assert forall d :: d in comments <==> d == c || d in comments[1..];
      here + Joined(comments[1..], users, productId)
  }

  /** `JOIN users u ON c.user_id = u.id` for one comment. */
  function Authored(c: CommentRow, users: seq<UserRow>): (r: seq<CommentView>)
    ensures forall v :: v in r <==> exists u :: u in users && u.id == c.userId && v == ViewOf(c, u)
    ensures forall v :: v in r ==> v.productId == c.productId
  {
    if users == [] then []
    else
      var u := users[0];
      assert forall w :: w in users <==> w == u || w in users[1..];
      (if u.id == c.userId then [ViewOf(c, u)] else []) + Authored(c, users[1..])
  }

  /** `ORDER BY c.comment_date DESC` */
  predicate NewerFirst(a: CommentView, b: CommentView) {
    a.commentDate >= b.commentDate
  }

  lemma NewerFirstIsTotalPreorder()
    ensures TotalPreorder(NewerFirst)
  {
  }

  /**
   * `getCommentsByProduct`: only the product's comments, each with its
   * author, newest first.
   */
  function CommentsByProduct(comments: seq<CommentRow>, users: seq<UserRow>, productId: Val): (r: seq<CommentView>)
    ensures forall i, j :: 0 <= i < j < |r| ==> r[i].commentDate >= r[j].commentDate
    ensures multiset(r) == multiset(Joined(comments, users, productId))
    ensures forall v :: v in r ==> SqlIdEquals(productId, v.productId)
  {
    NewerFirstIsTotalPreorder();
    var r := SortBy(Joined(comments, users, productId), NewerFirst);
    assert forall v :: v in r ==> v in multiset(Joined(comments, users, productId));
    r
  }

  // ------------------------------------------------------------------ statistics

  /** The product's comments, in table order. */
  function ProductComments(comments: seq<CommentRow>, productId: Val): (r: seq<CommentRow>)
    ensures forall c :: c in r <==> c in comments && OfProduct(c, productId)
    ensures |r| <= |comments|
  {
    if comments == [] then []
    else
      var last := comments[|comments| - 1];
      var init := comments[..|comments| - 1];
      assert forall d :: d in comments <==> d == last || d in init;
      ProductComments(init, productId) + (if OfProduct(last, productId) then [last] else [])
  }

  function Commenters(cs: seq<CommentRow>): set<int> {
    set c | c in cs :: c.userId
  }

  datatype Stats = Stats(totalComments: nat, uniqueCommenters: nat)

  /** `COUNT(*)` and `COUNT(DISTINCT c.user_id)` over the product's comments. */
  function CommentStats(comments: seq<CommentRow>, productId: Val): (r: Stats)
    ensures r.uniqueCommenters <= r.totalComments <= |comments|
  {
    var cs := ProductComments(comments, productId);
    CommentersAtMostComments(cs);
    Stats(|cs|, |Commenters(cs)|)
  }

  lemma {:induction false} CommentersAtMostComments(cs: seq<CommentRow>)
    ensures |Commenters(cs)| <= |cs|
  {
    if cs != [] {
      var init := cs[..|cs| - 1];
      CommentersAtMostComments(init);
      assert Commenters(cs) == Commenters(init) + {cs[|cs| - 1].userId};
    }
  }

  /** There are never more distinct commenters than comments. */
  lemma UniqueAtMostTotal(comments: seq<CommentRow>, productId: Val)
    ensures CommentStats(comments, productId).uniqueCommenters <= CommentStats(comments, productId).totalComments
  {
    CommentersAtMostComments(ProductComments(comments, productId));
  }

  /** A product nobody commented on has both counts 0. */
  lemma {:induction false} NoCommentsZeroStats(comments: seq<CommentRow>, productId: Val)
    requires forall c :: c in comments ==> !OfProduct(c, productId)
    ensures CommentStats(comments, productId) == Stats(0, 0)
  {
    if comments != [] {
      var init := comments[..|comments| - 1];
      NoCommentsZeroStats(init, productId);
      assert ProductComments(comments, productId) == ProductComments(init, productId) + [];
    }
  }

  /** One more comment adds itself to its product's comments and nothing to another's. */
  lemma ProductCommentsSnoc(comments: seq<CommentRow>, c: CommentRow, productId: Val)
    ensures ProductComments(comments + [c], productId) ==
      ProductComments(comments, productId) + (if OfProduct(c, productId) then [c] else [])
  {
    assert (comments + [c])[..|comments|] == comments;
  }

  /** One more comment adds its author to the commenters, if not already there. */
  lemma CommentersSnoc(cs: seq<CommentRow>, c: CommentRow)
    ensures |Commenters(cs + [c])| == |Commenters(cs)| + (if c.userId in Commenters(cs) then 0 else 1)
  {
    var who := Commenters(cs);
    assert Commenters(cs + [c]) == who + {c.userId};
    if c.userId in who {
      assert who + {c.userId} == who;
    }
  }

  /**
   * A new comment on the product raises the total by one, and the number of
   * commenters by one exactly when its author had not commented on it yet.
   */
  lemma StatsAfterComment(comments: seq<CommentRow>, c: CommentRow, productId: Val)
    requires OfProduct(c, productId)
    ensures var before, after := CommentStats(comments, productId), CommentStats(comments + [c], productId);
      && after.totalComments == before.totalComments + 1
      && after.uniqueCommenters == before.uniqueCommenters +
           (if c.userId in Commenters(ProductComments(comments, productId)) then 0 else 1)
  {
    ProductCommentsSnoc(comments, c, productId);
    CommentersSnoc(ProductComments(comments, productId), c);
  }

  /** A comment on another product leaves this product's statistics alone. */
  lemma StatsIgnoreOtherProducts(comments: seq<CommentRow>, c: CommentRow, productId: Val)
    requires !OfProduct(c, productId)
    ensures CommentStats(comments + [c], productId) == CommentStats(comments, productId)
  {
    ProductCommentsSnoc(comments, c, productId);
    var cs := ProductComments(comments, productId);
    assert cs + [] == cs;
  }
}
