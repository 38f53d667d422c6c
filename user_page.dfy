/**
 * The state logic of the user page: the favourites list with its id set
 * kept in step, the product-detail modal, and the hand-off to the
 * recently-viewed list. Rendering is not modelled; a React state setter is
 * an assignment to the field it sets.
 */
module UserPage {
  import opened Wrappers
  import opened Js
  import opened RecentlyViewed

  /** `new Set(list.map(fav => fav.id))` */
  function IdSet(list: seq<Record>): set<Val> {
    set x | x in list :: x.id
  }

  /** What the favourites request resolved to. */
  datatype Response = Array(items: seq<Record>) | NotArray

  /** `favorites.find(fav => fav.id === productId) || { id: productId }` */
  function FindOrStub(list: seq<Record>, productId: Val): (r: Record)
    ensures r.id == productId
    ensures r in list || r == Record(productId, map[])
  {
    if list == [] then Record(productId, map[])
    else if list[0].id == productId then list[0]
    else FindOrStub(list[1..], productId)
  }

  datatype Counts = Counts(buyerCount: Val, commenterCount: Val)

  class Page {
    var favorites: seq<Record>
    var favoritesSet: set<Val>
    var modalVisible: bool
    var selectedProduct: Option<Record>
    var similarProducts: seq<Record>
    var counts: Counts
    var isFavorite: bool

    /** The list and the set name the same ids. */
    predicate Coherent()
      reads this
    {
      favoritesSet == IdSet(favorites)
    }

    /** The initial `useState` values. */
    constructor ()
      ensures Coherent()
      ensures favorites == [] && favoritesSet == {}
      ensures !modalVisible && selectedProduct == None && similarProducts == []
      ensures counts == Counts(Num(0), Num(0)) && !isFavorite
    {
      favorites, favoritesSet := [], {};
      modalVisible, selectedProduct, similarProducts := false, None, [];
      counts, isFavorite := Counts(Num(0), Num(0)), false;
    }

    /**
     * `loadFavorites(userId)`: nothing without a user id or when the request
     * throws (`response` None); otherwise the list is the response when it is
     * an array and `[]` when not, and the set is its ids.
     */
    method LoadFavorites(userId: Val, response: Option<Response>)
      modifies this
      ensures !Truthy(userId) || response.None? ==> unchanged(this)
      ensures Truthy(userId) && response.Some? ==>
        && favorites == (match response.value case Array(items) => items case NotArray => [])
        && favoritesSet == IdSet(favorites) && Coherent()
        && modalVisible == old(modalVisible) && selectedProduct == old(selectedProduct)
        && similarProducts == old(similarProducts) && counts == old(counts) && isFavorite == old(isFavorite)
    {
      if !Truthy(userId) || response.None? {
        return;
      }
      var favoritesData := match response.value case Array(items) => items case NotArray => [];
      favorites := favoritesData;
      favoritesSet := IdSet(favoritesData);
    }

    /**
     * `handleToggleFavorite(userId, productId)`: undefined without a user id,
     * false when the request throws (nothing changes), true after removing
     * every entry with the id or appending one entry with it.
     */
    method HandleToggleFavorite(userId: Val, productId: Val, requestFails: bool) returns (r: Val)
      modifies this
      ensures modalVisible == old(modalVisible) && selectedProduct == old(selectedProduct)
      ensures similarProducts == old(similarProducts) && counts == old(counts) && isFavorite == old(isFavorite)
      ensures !Truthy(userId) ==> r == Undefined && unchanged(this)
      ensures Truthy(userId) && requestFails ==> r == Bool(false) && unchanged(this)
      ensures Truthy(userId) && !requestFails ==> r == Bool(true)
      ensures old(Coherent()) ==> Coherent()
      ensures Truthy(userId) && !requestFails && productId in old(favoritesSet) ==>
        favorites == WithoutId(old(favorites), productId) && favoritesSet == old(favoritesSet) - {productId}
      ensures Truthy(userId) && !requestFails && productId !in old(favoritesSet) ==>
        favorites == old(favorites) + [FindOrStub(old(favorites), productId)]
        && favoritesSet == old(favoritesSet) + {productId}
    {
      if !Truthy(userId) {
        return Undefined;
      }
      var isFav := productId in favoritesSet;
      if isFav {
        if requestFails {
          return Bool(false);
        }
        RemoveKeepsCoherence(favorites, productId);
        favorites := WithoutId(favorites, productId);
        favoritesSet := favoritesSet - {productId};
      } else {
        var product := FindOrStub(favorites, productId);
        if requestFails {
          return Bool(false);
        }
        AppendKeepsCoherence(favorites, productId);
        favorites := favorites + [product];
        favoritesSet := favoritesSet + {productId};
      }
      r := Bool(true);
    }

    /**
     * `handleViewDetails(product)`: open the modal on the product, mark
     * whether it is a favourite, and record it as recently viewed.
     */
    method HandleViewDetails(product: Option<Record>, browser: Browser, now: string)
      modifies this, browser
      ensures favorites == old(favorites) && favoritesSet == old(favoritesSet)
      ensures similarProducts == old(similarProducts) && counts == old(counts)
      ensures product.None? ==> unchanged(this, browser)
      ensures product.Some? ==>
        && modalVisible && selectedProduct == product
        && isFavorite == (product.value.id in favoritesSet)
        && browser.storage == AfterAdd(old(browser.storage), product.value, now)
    {
      if product.None? {
        return;
      }
      modalVisible := true;
      selectedProduct := product;
      isFavorite := product.value.id in favoritesSet;
      browser.AddToRecentlyViewed(product.value, now);
    }

    /** `handleModalClose()` */
    method HandleModalClose()
      modifies this
      ensures !modalVisible && selectedProduct == None && similarProducts == []
      ensures counts == Counts(Num(0), Num(0)) && !isFavorite
      ensures favorites == old(favorites) && favoritesSet == old(favoritesSet)
    {
      modalVisible := false;
      selectedProduct := None;
      similarProducts := [];
      counts := Counts(Num(0), Num(0));
      isFavorite := false;
    }
  }

  // ------------------------------------------------------------------ properties

  /** Removing an id from a coherent pair keeps it coherent, and no entry with that id is left. */
  lemma RemoveKeepsCoherence(list: seq<Record>, id: Val)
    ensures IdSet(WithoutId(list, id)) == IdSet(list) - {id}
    ensures forall x :: x in WithoutId(list, id) ==> x.id != id
  {
    WithoutIdKeeps(list, id);
    forall v | v in IdSet(list) - {id} ensures v in IdSet(WithoutId(list, id)) {
      var x :| x in list && x.id == v;
      assert x in WithoutId(list, id);
    }
  }

  /** Appending the found-or-stub entry keeps the pair coherent. */
  lemma AppendKeepsCoherence(list: seq<Record>, id: Val)
    ensures IdSet(list + [FindOrStub(list, id)]) == IdSet(list) + {id}
  {
  }

  /** For a coherent pair, the appended entry is always the stub `{ id }`. */
  lemma {:induction false} StubWhenAbsent(list: seq<Record>, id: Val)
    requires id !in IdSet(list)
    ensures FindOrStub(list, id) == Record(id, map[])
  {
    if list != [] {
      assert list[0] in list;
      assert IdSet(list[1..]) <= IdSet(list);
      StubWhenAbsent(list[1..], id);
    }
  }

  /** Two successful toggles of the same id restore membership. */
  lemma DoubleToggleRestoresMembership(list: seq<Record>, id: Val)
    ensures var once := if id in IdSet(list) then WithoutId(list, id) else list + [FindOrStub(list, id)];
      var twice := if id in IdSet(once) then WithoutId(once, id) else once + [FindOrStub(once, id)];
      IdSet(twice) == IdSet(list)
  {
    RemoveKeepsCoherence(list, id);
    AppendKeepsCoherence(list, id);
    var once := if id in IdSet(list) then WithoutId(list, id) else list + [FindOrStub(list, id)];
    RemoveKeepsCoherence(once, id);
    AppendKeepsCoherence(once, id);
  }
}
