/**
 * The browser-side "recently viewed" list: a most-recently-used list of at
 * most ten products, kept in localStorage under one key per user.
 *
 * localStorage is a map from key to stored text; the text is either JSON
 * that parses to a value, the empty string, or something `JSON.parse`
 * rejects. JSON serialisation of the list itself is not modelled: what is
 * written is what is read back.
 */
module RecentlyViewed {
  import opened Wrappers
  import opened Js

  const RecentlyViewedKey := "recentlyViewedProducts"
  const UserKey := "user"
  const MaxEntries := 10

  /** A parsed JSON value: a primitive, an object with an `id`, or an array of such objects. */
  datatype Json = JPrimitive(v: Val) | JObject(o: Record) | JArray(items: seq<Record>)

  /** The text stored under a localStorage key. */
  datatype Stored = Text(json: Json) | EmptyText | Malformed

  type Storage = map<string, Stored>

  /** `JSON.parse(localStorage.getItem(k))`; `None` when the parse throws. */
  function ParseItem(storage: Storage, k: string): Option<Json> {
    if k !in storage then Some(JPrimitive(Null)) // getItem gives null, and JSON.parse(null) is null
    else
      match storage[k]
      case Text(j) => Some(j)
      case EmptyText => None
      case Malformed => None
  }

  /** `getUserId()`: the stored user's `id`, `'guest'` when no user is stored; `None` when it throws. */
  function UserId(storage: Storage): (r: Option<Val>)
    ensures r.None? <==> UserKey in storage && storage[UserKey] in {EmptyText, Malformed}
    ensures UserKey !in storage ==> r == Some(Str("guest"))
    ensures UserKey in storage && storage[UserKey].Text? && storage[UserKey].json.JObject? ==>
      r == Some(storage[UserKey].json.o.id)
  {
    match ParseItem(storage, UserKey)
    case None => None
    case Some(JPrimitive(v)) => Some(if Truthy(v) then Undefined else Str("guest"))
    case Some(JObject(o)) => Some(o.id)
    case Some(JArray(_)) => Some(Undefined)
  }

  /** The per-user key `recentlyViewedProducts_${userId}`. */
  function KeyFor(userId: Val): string {
    RecentlyViewedKey + "_" + ToStr(userId)
  }

  /** `getRecentlyViewed()`: the parsed list, or `[]` when nothing is stored or anything throws. */
  function GetRecentlyViewed(storage: Storage): (r: Json)
    ensures r != JArray([]) ==>
      UserId(storage).Some? && KeyFor(UserId(storage).value) in storage &&
      storage[KeyFor(UserId(storage).value)] == Text(r)
    ensures (UserId(storage).Some? && KeyFor(UserId(storage).value) in storage &&
             storage[KeyFor(UserId(storage).value)].Text?) ==>
      r == storage[KeyFor(UserId(storage).value)].json
  {
    match UserId(storage)
    case None => JArray([])
    case Some(u) =>
      var k := KeyFor(u);
      if k !in storage then JArray([])
      else
        match storage[k]
        case Text(j) => j
        case EmptyText => JArray([]) // "" is falsy
        case Malformed => JArray([]) // JSON.parse threw; the catch returns []
  }

  function Ids(items: seq<Record>): seq<Val> {
    seq(|items|, i requires 0 <= i < |items| => items[i].id)
  }

  /** How many entries of `items` carry `id`. */
  function Occurrences(items: seq<Record>, id: Val): nat {
    multiset(Ids(items))[id]
  }

  /** `{...product, viewedAt: now}` */
  function Stamp(p: Record, now: string): Record {
    Record(p.id, p.fields["viewedAt" := Str(now)])
  }

  /** `items.filter(p => p.id !== id)` */
  function WithoutId(items: seq<Record>, id: Val): seq<Record> {
    if items == [] then []
    else (if items[0].id != id then [items[0]] else []) + WithoutId(items[1..], id)
  }

  /** The list `addToRecentlyViewed` writes back: filter, `unshift`, then keep ten. */
  function Pushed(items: seq<Record>, p: Record, now: string): seq<Record> {
    var front := [Stamp(p, now)] + WithoutId(items, p.id);
    if |front| > MaxEntries then front[..MaxEntries] else front
  }

  /** localStorage after `addToRecentlyViewed(p)`. */
  function AfterAdd(storage: Storage, p: Record, now: string): Storage {
    match UserId(storage)
    case None => storage
    case Some(u) =>
      match GetRecentlyViewed(storage)
      case JArray(items) => storage[KeyFor(u) := Text(JArray(Pushed(items, p, now)))]
      case _ => storage // `viewed.filter` is not a function: the catch swallows it
  }

  /** localStorage after `clearRecentlyViewed()`. */
  function AfterClear(storage: Storage): Storage {
    match UserId(storage)
    case None => storage
    case Some(u) => storage - {KeyFor(u)}
  }

  /** `a` is `b` with some elements left out, order kept. */
  predicate IsSubsequence<T(==)>(a: seq<T>, b: seq<T>) {
    if a == [] then true
    else if b == [] then false
    else if a[0] == b[0] then IsSubsequence(a[1..], b[1..])
    else IsSubsequence(a, b[1..])
  }

  // ------------------------------------------------------------------ the store

  class Browser {
    var storage: Storage

    constructor (initial: Storage)
      ensures storage == initial
    {
      storage := initial;
    }

    method AddToRecentlyViewed(product: Record, now: string)
      modifies this
      ensures storage == AfterAdd(old(storage), product, now)
    {
      var userId := UserId(storage);
      if userId.None? {
        return;
      }
      var key := KeyFor(userId.value);
      var got := GetRecentlyViewed(storage);
      if !got.JArray? {
        return;
      }
      var viewed := WithoutId(got.items, product.id);
      viewed := [Stamp(product, now)] + viewed;
      if |viewed| > MaxEntries {
        viewed := viewed[..MaxEntries];
      }
      storage := storage[key := Text(JArray(viewed))];
    }

    method ClearRecentlyViewed()
      modifies this
      ensures storage == AfterClear(old(storage))
    {
      var userId := UserId(storage);
      if userId.Some? {
        storage := storage - {KeyFor(userId.value)};
      }
    }
  }

  // ------------------------------------------------------------------ properties

  /** No per-user key is the key the logged-in user is stored under. */
  lemma KeyForIsNotUserKey(u: Val)
    ensures KeyFor(u) != UserKey
  {
    assert KeyFor(u)[0] == 'r';
  }

  /** Keys are per user: users whose ids print differently never share a list. */
  lemma {:induction false} KeyForSeparatesUsers(u: Val, v: Val)
    ensures KeyFor(u) == KeyFor(v) <==> ToStr(u) == ToStr(v)
  {
    var prefix := RecentlyViewedKey + "_";
    if KeyFor(u) == KeyFor(v) {
      assert ToStr(u) == KeyFor(u)[|prefix|..];
      assert ToStr(v) == KeyFor(v)[|prefix|..];
    }
  }

  /** Adding never changes who the current user is. */
  lemma AfterAddKeepsUser(storage: Storage, p: Record, now: string)
    ensures UserId(AfterAdd(storage, p, now)) == UserId(storage)
  {
    if u :| UserId(storage) == Some(u) {
      KeyForIsNotUserKey(u);
    }
  }

  /** With no user stored, lists are kept under `recentlyViewedProducts_guest`. */
  lemma GuestWhenNoUser(storage: Storage)
    requires UserKey !in storage
    ensures UserId(storage) == Some(Str("guest"))
    ensures KeyFor(Str("guest")) == "recentlyViewedProducts_guest"
  {
  }

  /** `getRecentlyViewed` gives `[]` when nothing is stored or the stored text does not parse. */
  lemma GetIsEmptyWhenNothingParses(storage: Storage)
    requires UserId(storage).None? ||
      KeyFor(UserId(storage).value) !in storage ||
      storage[KeyFor(UserId(storage).value)] in {EmptyText, Malformed}
    ensures GetRecentlyViewed(storage) == JArray([])
  {
  }

  lemma {:induction false} WithoutIdLength(items: seq<Record>, id: Val)
    ensures |WithoutId(items, id)| == |items| - Occurrences(items, id)
  {
    if items != [] {
      WithoutIdLength(items[1..], id);
      assert Ids(items) == [items[0].id] + Ids(items[1..]);
    }
  }

  lemma {:induction false} WithoutIdDropsId(items: seq<Record>, id: Val)
    ensures Occurrences(WithoutId(items, id), id) == 0
  {
    if items != [] {
      WithoutIdDropsId(items[1..], id);
      var head := if items[0].id != id then [items[0]] else [];
      assert WithoutId(items, id) == head + WithoutId(items[1..], id);
      OccurrencesAppend(head, WithoutId(items[1..], id), id);
      if head != [] {
        assert Ids(head) == [items[0].id];
      }
    }
  }

  lemma OccurrencesAppend(a: seq<Record>, b: seq<Record>, id: Val)
    ensures Occurrences(a + b, id) == Occurrences(a, id) + Occurrences(b, id)
  {
    assert Ids(a + b) == Ids(a) + Ids(b);
  }

  /** The filter keeps exactly the entries whose id differs, in their old order. */
  lemma {:induction false} WithoutIdKeeps(items: seq<Record>, id: Val)
    ensures forall x :: x in WithoutId(items, id) <==> x in items && x.id != id
    ensures IsSubsequence(WithoutId(items, id), items)
  {
    if items != [] {
      WithoutIdKeeps(items[1..], id);
      assert items == [items[0]] + items[1..];
      if items[0].id != id {
        assert WithoutId(items, id) == [items[0]] + WithoutId(items[1..], id);
      } else {
        assert WithoutId(items, id) == WithoutId(items[1..], id);
        SubsequenceOfTail(WithoutId(items[1..], id), items);
      }
    }
  }

  lemma {:induction false} SubsequenceOfTail<T>(a: seq<T>, b: seq<T>)
    requires b != [] && IsSubsequence(a, b[1..])
    ensures IsSubsequence(a, b)
    decreases |b|, 0
  {
    if a != [] && a[0] == b[0] {
      SubsequenceDropHead(a, b[1..]);
    }
  }

  lemma {:induction false} SubsequenceDropHead<T>(a: seq<T>, c: seq<T>)
    requires a != [] && IsSubsequence(a, c)
    ensures IsSubsequence(a[1..], c)
    decreases |c|, 1
  {
    if a[0] == c[0] {
      SubsequenceOfTail(a[1..], c);
    } else {
      SubsequenceDropHead(a, c[1..]);
      SubsequenceOfTail(a[1..], c);
    }
  }

  /** After `addToRecentlyViewed(p)`, the list starts with `p` and holds its id exactly once. */
  lemma PushedPutsProductFirstOnce(items: seq<Record>, p: Record, now: string)
    ensures var r := Pushed(items, p, now);
      |r| >= 1 && r[0] == Stamp(p, now) && r[0].id == p.id && Occurrences(r, p.id) == 1
  {
    var rest := WithoutId(items, p.id);
    var front := [Stamp(p, now)] + rest;
    WithoutIdDropsId(items, p.id);
    assert Ids(front) == [p.id] + Ids(rest);
    assert Occurrences(front, p.id) == 1;
    if |front| > MaxEntries {
      var r := front[..MaxEntries];
      assert front == r + front[MaxEntries..];
      assert Ids(front) == Ids(r) + Ids(front[MaxEntries..]);
      assert multiset(Ids(front)) == multiset(Ids(r)) + multiset(Ids(front[MaxEntries..]));
      assert Ids(r)[0] == p.id;
      assert p.id in multiset(Ids(r));
    }
  }

  /** The new length is min(1 + old entries with another id, 10); in particular never above 10. */
  lemma PushedLength(items: seq<Record>, p: Record, now: string)
    ensures var n := 1 + |items| - Occurrences(items, p.id);
      |Pushed(items, p, now)| == (if n < MaxEntries then n else MaxEntries)
    ensures |Pushed(items, p, now)| <= MaxEntries
  {
    WithoutIdLength(items, p.id);
  }

  /**
   * Behind the new head come the old entries with another id, oldest last
   * and in their old order; only the tail beyond ten is dropped.
   */
  lemma PushedKeepsOrder(items: seq<Record>, p: Record, now: string)
    ensures var r := Pushed(items, p, now); var kept := WithoutId(items, p.id);
      |r| - 1 <= |kept| && r[1..] == kept[..|r| - 1] && IsSubsequence(kept, items)
    ensures forall x :: x in Pushed(items, p, now)[1..] ==> x in items && x.id != p.id
  {
    WithoutIdKeeps(items, p.id);
    var kept := WithoutId(items, p.id);
    var r := Pushed(items, p, now);
    assert r[1..] == kept[..|r| - 1];
    forall x | x in r[1..] ensures x in items && x.id != p.id {
      assert x in kept;
    }
  }

  /** After an add, the current user's list is the pushed list; no other key changes. */
  lemma {:induction false} AddUpdatesOnlyOwnList(storage: Storage, p: Record, now: string)
    requires UserId(storage).Some? && GetRecentlyViewed(storage).JArray?
    ensures var u := UserId(storage).value; var after := AfterAdd(storage, p, now);
      && GetRecentlyViewed(after) == JArray(Pushed(GetRecentlyViewed(storage).items, p, now))
      && after.Keys == storage.Keys + {KeyFor(u)}
      && forall k :: k in storage && k != KeyFor(u) ==> after[k] == storage[k]
  {
    AfterAddKeepsUser(storage, p, now);
  }

  /** After `clearRecentlyViewed()`, `getRecentlyViewed()` gives `[]`. */
  lemma {:induction false} ClearThenGetIsEmpty(storage: Storage)
    ensures GetRecentlyViewed(AfterClear(storage)) == JArray([])
  {
    match UserId(storage)
    case None =>
    case Some(u) =>
      KeyForIsNotUserKey(u);
      assert UserId(AfterClear(storage)) == Some(u);
  }
}
