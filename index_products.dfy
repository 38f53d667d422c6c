/**
 * The `indexProducts` script: make sure the `products` index exists, write
 * one document per store row (replace by id), refresh, and exit.
 *
 * The script destructures `{ pool }` from a module that exports a bare
 * connection function, so as written `pool` is undefined; the model takes
 * `pool: Db?`, where null is that case and a Db is the pool the script
 * means to use.
 */
module IndexProducts {
  import opened Wrappers
  import opened Js
  import opened Database
  import opened SearchIndex
  import opened Products

  /** How the Node process ends. */
  datatype Exit = ExitCode(code: int) | UnhandledRejection

  /** The category name written when the LEFT JOIN found none. */
  const NoCategory := "Chưa có"

  /** The mapping the script creates a missing index with. */
  function ProductMapping(): map<Field, FieldType> {
    map[
      Id := Integer,
      Name := Text(Some("standard")),
      Brand := Text(Some("standard")),
      Price := Float,
      ImageUrl := Text(None),
      CategoryId := Integer,
      CategoryName := Text(Some("standard")),
      Promotion := Boolean,
      Views := Integer,
      CreatedAt := Date,
      UpdatedAt := Date
    ]
  }

  /** The body written for one joined row; `now` stands for `new Date().toISOString()`. */
  function Projection(j: Joined, now: string): (r: map<Field, Val>)
    ensures Id in r && r[Id] == Num(j.row.id)
    ensures Price in r && r[Price].Num?
    ensures Promotion in r && r[Promotion].Bool?
  {
    var p := j.row;
    map[
      Id := Num(p.id),
      Name := Or(p.name, Str("")),
      Brand := Or(p.brand, Str("")),
      Price := Or(ParseNumber(p.price), Num(0)),
      ImageUrl := Or(p.imageUrl, Str("")),
      CategoryId := Or(p.categoryId, Null),
      CategoryName := Or(j.categoryName, Str(NoCategory)),
      Promotion := Bool(Truthy(p.promotion)),
      Views := Or(p.views, Num(0)),
      CreatedAt := Or(p.createdAt, Str(now)),
      UpdatedAt := Or(p.updatedAt, Str(now))
    ]
  }

  /** The writes of the loop, in row order, keyed by `product.id.toString()`. */
  function Entries(rows: seq<Joined>, now: string): (r: seq<(string, Doc)>)
    ensures |r| == |rows|
    ensures forall i :: 0 <= i < |r| ==> r[i] == (DocKey(rows[i].row.id), JsonObject(Projection(rows[i], now)))
  {
    seq(|rows|, i requires 0 <= i < |rows| => (DocKey(rows[i].row.id), JsonObject(Projection(rows[i], now))))
  }

  /** Writing row `i`'s projection extends the writes of the rows before it. */
  lemma WritesSnoc(base: map<string, Doc>, rows: seq<Joined>, now: string, i: nat)
    requires i < |rows|
    ensures UpsertAll(base, Entries(rows, now)[..i + 1])
         == UpsertAll(base, Entries(rows, now)[..i])[DocKey(rows[i].row.id) := JsonObject(Projection(rows[i], now))]
  {
    var entries := Entries(rows, now);
    assert entries[..i + 1] == entries[..i] + [entries[i]];
    UpsertAllSnoc(base, entries[..i], entries[i]);
  }

  /** One pass of the `for ... of rows` loop: row `i`'s projection is written. */
  method WriteRow(es: Index, ghost base: map<string, Doc>, rows: seq<Joined>, now: string, i: nat)
    requires i < |rows| && es.created
    requires es.docs == UpsertAll(base, Entries(rows, now)[..i])
    modifies es
    ensures es.created && es.mapping == old(es.mapping) && es.visible == old(es.visible)
    ensures es.docs == UpsertAll(base, Entries(rows, now)[..i + 1])
  {
    WritesSnoc(base, rows, now, i);
    es.Upsert(DocKey(rows[i].row.id), Projection(rows[i], now));
  }

  /**
   * The `for ... of rows` loop: write each row's projection in order. Index
   * writes fail from row `esFailsFrom` on; the first failure ends the loop.
   */
  method WriteAll(es: Index, rows: seq<Joined>, now: string, esFailsFrom: nat) returns (complete: bool)
    requires es.created
    modifies es
    ensures complete <==> esFailsFrom >= |rows|
    ensures es.created && es.mapping == old(es.mapping) && es.visible == old(es.visible)
    ensures es.docs == UpsertAll(old(es.docs), Entries(rows, now)[..if complete then |rows| else esFailsFrom])
  {
    var i := 0;
    while i < |rows|
      invariant 0 <= i <= |rows| && i <= esFailsFrom
      invariant es.created && es.mapping == old(es.mapping) && es.visible == old(es.visible)
      invariant es.docs == UpsertAll(old(es.docs), Entries(rows, now)[..i])
    {
      if i == esFailsFrom {
        return false;
      }
      WriteRow(es, old(es.docs), rows, now, i);
      i := i + 1;
    }
    return true;
  }

  /**
   * Run the script once. `esDown` makes the health call fail; index writes
   * fail from row `esFailsFrom` on. A failure skips the rest of the try
   * block, the refresh included.
   */
  method Reindex(es: Index, pool: Db?, now: string, esDown: bool, esFailsFrom: nat) returns (exit: Exit)
    modifies es
    ensures pool == null ==> exit == UnhandledRejection
    ensures pool != null ==> exit == ExitCode(0)
    ensures esDown ==> unchanged(es)
    ensures !esDown ==> es.created
    ensures !esDown && old(es.created) ==> es.mapping == old(es.mapping)
    ensures !esDown && !old(es.created) ==> es.mapping == Declared(ProductMapping())
    ensures !esDown && pool == null ==> es.docs == old(es.docs) && es.visible == old(es.visible)
    ensures !esDown && pool != null ==>
      var entries := Entries(AllProducts(pool.products, pool.categories), now);
      if esFailsFrom < |entries| then
        es.docs == UpsertAll(old(es.docs), entries[..esFailsFrom]) && es.visible == old(es.visible)
      else
        es.docs == UpsertAll(old(es.docs), entries) && es.visible == es.docs
  {
    if esDown {
      exit := if pool == null then UnhandledRejection else ExitCode(0);
      return;
    }
    if !es.created {
      es.Create(ProductMapping());
    }
    if pool == null {
      // `pool.query` throws; so does `pool.end()` in the finally block
      return UnhandledRejection;
    }
    var rows := AllProducts(pool.products, pool.categories);
    var complete := WriteAll(es, rows, now, esFailsFrom);
    if complete {
      assert Entries(rows, now)[..|rows|] == Entries(rows, now);
      es.Refresh();
    }
    exit := ExitCode(0);
  }

  /** Distinct store ids give distinct document keys. */
  lemma EntriesKeysDistinct(products: seq<ProductRow>, categories: seq<CategoryRow>, next: nat, now: string)
    requires ProductsValid(products, next)
    ensures var e := Entries(AllProducts(products, categories), now);
      forall a, b :: 0 <= a < b < |e| ==> e[a].0 != e[b].0
  {
    var e := Entries(AllProducts(products, categories), now);
    forall a, b | 0 <= a < b < |e| ensures e[a].0 != e[b].0 {
      NatToStringInjective(products[a].id, products[b].id);
    }
  }

  /** After a complete run every store row has its projection under `product.id.toString()`. */
  lemma ReindexCoversStore(docs: map<string, Doc>, products: seq<ProductRow>, categories: seq<CategoryRow>,
                           next: nat, now: string, i: nat)
    requires ProductsValid(products, next)
    requires i < |products|
    ensures var after := UpsertAll(docs, Entries(AllProducts(products, categories), now));
      && DocKey(products[i].id) in after
      && after[DocKey(products[i].id)] == JsonObject(Projection(AllProducts(products, categories)[i], now))
  {
    var e := Entries(AllProducts(products, categories), now);
    EntriesKeysDistinct(products, categories, next, now);
    LastWriteDistinct(e, i);
    UpsertAllAt(docs, e, e[i].0);
  }

  /** The run never deletes: every document stays, and one whose key no row has is untouched. */
  lemma ReindexNeverDeletes(docs: map<string, Doc>, rows: seq<Joined>, now: string, k: string)
    requires k in docs
    ensures k in UpsertAll(docs, Entries(rows, now))
    ensures (forall i :: 0 <= i < |rows| ==> DocKey(rows[i].row.id) != k) ==>
      UpsertAll(docs, Entries(rows, now))[k] == docs[k]
  {
    var e := Entries(rows, now);
    UpsertAllAt(docs, e, k);
    if forall i :: 0 <= i < |rows| ==> DocKey(rows[i].row.id) != k {
      LastWriteAbsent(e, k);
    }
  }

  /** No member of the body is undefined, so `JSON.stringify` keeps every one. */
  lemma ProjectionHasNoUndefined(j: Joined, now: string)
    ensures forall k :: k in Projection(j, now) ==> Projection(j, now)[k] != Undefined
  {
  }

  /**
   * Defaults: a missing category reads "Chưa có", missing name, brand and
   * image_url read "", `promotion` is always a boolean, `views` defaults to 0.
   */
  lemma ProjectionDefaults(j: Joined, now: string)
    ensures var d := Projection(j, now);
      && (j.categoryName == Null ==> d[CategoryName] == Str(NoCategory))
      && (!Truthy(j.row.name) ==> d[Name] == Str(""))
      && (!Truthy(j.row.brand) ==> d[Brand] == Str(""))
      && (!Truthy(j.row.imageUrl) ==> d[ImageUrl] == Str(""))
      && d[Promotion] == Bool(Truthy(j.row.promotion))
      && (!Truthy(j.row.views) ==> d[Views] == Num(0))
      && d[Id] == Num(j.row.id)
  {
  }

  /** Rows that carry both timestamps project the same whatever the clock says. */
  lemma ProjectionIgnoresClock(rows: seq<Joined>, now1: string, now2: string)
    requires forall i :: 0 <= i < |rows| ==> Truthy(rows[i].row.createdAt) && Truthy(rows[i].row.updatedAt)
    ensures Entries(rows, now1) == Entries(rows, now2)
  {
  }

  /**
   * Re-running on an unchanged store leaves the same documents, when every
   * row carries its timestamps.
   */
  lemma ReindexIdempotent(docs: map<string, Doc>, rows: seq<Joined>, now1: string, now2: string)
    requires forall i :: 0 <= i < |rows| ==> Truthy(rows[i].row.createdAt) && Truthy(rows[i].row.updatedAt)
    ensures UpsertAll(UpsertAll(docs, Entries(rows, now1)), Entries(rows, now2)) == UpsertAll(docs, Entries(rows, now1))
  {
    ProjectionIgnoresClock(rows, now1, now2);
    UpsertAllIdempotent(docs, Entries(rows, now1));
  }
}
