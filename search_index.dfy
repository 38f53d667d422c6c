/**
 * The Elasticsearch `products` index as the shop uses it: documents keyed
 * by the product id as a string, written with replace semantics, and visible
 * to search only after a refresh.
 */
module SearchIndex {
  import opened Wrappers
  import opened Js

  /** The document fields the shop writes; `FieldName` gives each one's JSON name. */
  datatype Field =
    | Id | Name | Brand | Price | OriginalPrice | DiscountPercentage | ImageUrl
    | CategoryId | CategoryName | Promotion | Views | CreatedAt | UpdatedAt

  function FieldName(f: Field): string {
    match f
    case Id => "id"
    case Name => "name"
    case Brand => "brand"
    case Price => "price"
    case OriginalPrice => "original_price"
    case DiscountPercentage => "discount_percentage"
    case ImageUrl => "image_url"
    case CategoryId => "category_id"
    case CategoryName => "category_name"
    case Promotion => "promotion"
    case Views => "views"
    case CreatedAt => "created_at"
    case UpdatedAt => "updated_at"
  }

  type Doc = map<Field, Val>

  datatype FieldType = Integer | Float | Boolean | Date | Text(analyzer: Option<string>)

  /** No index; a mapping given at creation; or the mapping Elasticsearch infers when a write creates the index. */
  datatype Mapping = Unmapped | Declared(fields: map<Field, FieldType>) | Dynamic

  /** `product.id.toString()` */
  function DocKey(id: nat): string {
    NatToString(id)
  }

  /** Writing `entries` in order, each replacing the document under its key. */
  function UpsertAll(docs: map<string, Doc>, entries: seq<(string, Doc)>): map<string, Doc> {
    if entries == [] then docs
    else
      var last := entries[|entries| - 1];
      UpsertAll(docs, entries[..|entries| - 1])[last.0 := last.1]
  }

  /** One more write replaces one document. */
  lemma UpsertAllSnoc(docs: map<string, Doc>, entries: seq<(string, Doc)>, e: (string, Doc))
    ensures UpsertAll(docs, entries + [e]) == UpsertAll(docs, entries)[e.0 := e.1]
  {
    assert (entries + [e])[..|entries|] == entries;
  }

  /** The value the last entry with key `k` writes, if any. */
  function LastWrite(entries: seq<(string, Doc)>, k: string): Option<Doc> {
    if entries == [] then None
    else if entries[|entries| - 1].0 == k then Some(entries[|entries| - 1].1)
    else LastWrite(entries[..|entries| - 1], k)
  }

  /** After the writes, a key holds its last write, or what it held before when nothing wrote it. */
  lemma {:induction false} UpsertAllAt(docs: map<string, Doc>, entries: seq<(string, Doc)>, k: string)
    ensures k in UpsertAll(docs, entries) <==> k in docs || LastWrite(entries, k).Some?
    ensures LastWrite(entries, k).Some? ==> UpsertAll(docs, entries)[k] == LastWrite(entries, k).value
    ensures LastWrite(entries, k).None? && k in docs ==> UpsertAll(docs, entries)[k] == docs[k]
  {
    if entries != [] {
      UpsertAllAt(docs, entries[..|entries| - 1], k);
    }
  }

  /** Replace semantics: writing the same entries again changes nothing. */
  lemma UpsertAllIdempotent(docs: map<string, Doc>, entries: seq<(string, Doc)>)
    ensures UpsertAll(UpsertAll(docs, entries), entries) == UpsertAll(docs, entries)
  {
    var once := UpsertAll(docs, entries);
    var twice := UpsertAll(once, entries);
    forall k ensures (k in twice <==> k in once) && (k in once ==> twice[k] == once[k]) {
      UpsertAllAt(docs, entries, k);
      UpsertAllAt(once, entries, k);
    }
  }

  lemma {:induction false} LastWriteAppend(entries: seq<(string, Doc)>, e: (string, Doc), k: string)
    ensures LastWrite(entries + [e], k) == if e.0 == k then Some(e.1) else LastWrite(entries, k)
  {
    assert (entries + [e])[..|entries|] == entries;
  }

  /** With distinct keys, the write with key `entries[i].0` is entry `i`. */
  lemma {:induction false} LastWriteDistinct(entries: seq<(string, Doc)>, i: nat)
    requires i < |entries|
    requires forall a, b :: 0 <= a < b < |entries| ==> entries[a].0 != entries[b].0
    ensures LastWrite(entries, entries[i].0) == Some(entries[i].1)
  {
    if i < |entries| - 1 {
      LastWriteDistinct(entries[..|entries| - 1], i);
    }
  }

  /** A key no entry writes has no last write. */
  lemma {:induction false} LastWriteAbsent(entries: seq<(string, Doc)>, k: string)
    requires forall a :: 0 <= a < |entries| ==> entries[a].0 != k
    ensures LastWrite(entries, k) == None
  {
    if entries != [] {
      LastWriteAbsent(entries[..|entries| - 1], k);
    }
  }

  class Index {
    var created: bool
    var mapping: Mapping
    /** the stored documents */
    var docs: map<string, Doc>
    /** what a search sees: the documents as of the last refresh */
    var visible: map<string, Doc>

    constructor ()
      ensures !created && mapping == Unmapped && docs == map[] && visible == map[]
    {
      created, mapping, docs, visible := false, Unmapped, map[], map[];
    }

    /** `indices.create` with a mapping. */
    method Create(fields: map<Field, FieldType>)
      requires !created
      modifies this
      ensures created && mapping == Declared(fields)
      ensures docs == old(docs) && visible == old(visible)
    {
      created, mapping := true, Declared(fields);
    }

    /** `esClient.index({id: key, body})`: replace the document; a missing index is created with an inferred mapping. */
    method Upsert(key: string, body: map<Field, Val>)
      modifies this
      ensures docs == old(docs)[key := JsonObject(body)]
      ensures created && mapping == (if old(created) then old(mapping) else Dynamic)
      ensures visible == old(visible)
    {
      if !created {
        created, mapping := true, Dynamic;
      }
      docs := docs[key := JsonObject(body)];
    }

    /** `indices.refresh`: make every stored document visible to search. */
    method Refresh()
      requires created
      modifies this
      ensures visible == docs
      ensures created == old(created) && mapping == old(mapping) && docs == old(docs)
    {
      visible := docs;
    }
  }
}
