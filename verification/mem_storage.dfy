/** The in-memory backend (`MemStorage`): four lists and one id counter
    shared by every entity type. Restaurants are fully supported; creates of
    the other entities append, and every other review, bookmark and menu-item
    operation is a constant stub that ignores the lists. */
module MemStorage {
  import opened Wrappers
  import opened Seqs
  import opened Schema

  datatype Mem = Mem(
    restaurants: seq<Restaurant>,
    reviews: seq<Review>,
    bookmarks: seq<Bookmark>,
    menuItems: seq<MenuItem>,
    nextId: int)

  const EmptyMem := Mem([], [], [], [], 1)

  /** Every id in use, across all four lists, with multiplicity. */
  function IdBag(m: Mem): multiset<int> {
    multiset(Keys(m.restaurants, RestaurantId)) + multiset(Keys(m.reviews, ReviewId))
      + multiset(Keys(m.bookmarks, BookmarkId)) + multiset(Keys(m.menuItems, MenuItemId))
  }

  /** Ids are unique across all four lists and below the counter. */
  predicate Valid(m: Mem) {
    && (forall id | id in IdBag(m) :: IdBag(m)[id] <= 1)
    && (forall id :: id in IdBag(m) ==> id < m.nextId)
  }

  lemma EmptyMemValid()
    ensures Valid(EmptyMem)
  {
  }

  /** Taking the counter for a new record adds exactly that id to the bag;
      it was unused, so ids stay unique. */
  lemma FreshIdKeepsValid(m: Mem, m': Mem)
    requires IdBag(m') == IdBag(m) + multiset{m.nextId}
    requires m'.nextId == m.nextId + 1
    ensures Valid(m) ==> Valid(m')
  {
  }

  lemma AppendKeys<T>(s: seq<T>, x: T, key: T -> int)
    ensures multiset(Keys(s + [x], key)) == multiset(Keys(s, key)) + multiset{key(x)}
  {
    KeysConcat(s, [x], key);
  }

  // ---------------------------------------------------------------------
  // Restaurants

  /** Ignores the filters: every restaurant, in insertion order, with zero
      statistics and `isOpen` forced to true. */
  function GetRestaurants(m: Mem, f: Filters): (rows: seq<RestaurantWithStats>)
    ensures |rows| == |m.restaurants|
    ensures forall i :: 0 <= i < |rows| ==>
              && rows[i].restaurant == m.restaurants[i].(isOpen := Some(true))
              && rows[i].averageRating == Some(0.0)
              && rows[i].reviewCount == 0
  {
    seq(|m.restaurants|, i requires 0 <= i < |m.restaurants| =>
          RestaurantWithStats(m.restaurants[i].(isOpen := Some(true)), Some(0.0), 0, None, None))
  }

  /** The listing does not depend on the filters at all. */
  lemma GetRestaurantsIgnoresFilters(m: Mem, f: Filters, g: Filters)
    ensures GetRestaurants(m, f) == GetRestaurants(m, g)
  {
  }

  /** The first restaurant with that id, with empty reviews and menu items and
      zero statistics, whatever the other lists hold. */
  function GetRestaurant(m: Mem, id: int): (d: Option<RestaurantWithDetails>)
    ensures d.None? <==> forall x :: x in m.restaurants ==> x.id != id
    ensures d.Some? ==> exists x :: x in m.restaurants && x.id == id && d.value.summary.restaurant == x.(isOpen := Some(true))
    ensures d.Some? ==> d.value.reviews == [] && d.value.menuItems == []
    ensures d.Some? ==> d.value.summary.averageRating == Some(0.0) && d.value.summary.reviewCount == 0
  {
    match FindFirst(m.restaurants, (x: Restaurant) => x.id == id)
    case None => None
    case Some(r) =>
      Some(RestaurantWithDetails(RestaurantWithStats(r.(isOpen := Some(true)), Some(0.0), 0, None, None), [], []))
  }

  /** Appends one record with the counter's id; `hours`, `priceRange` and
      `features` are forced empty whatever the input says. */
  function CreateRestaurant(m: Mem, ins: InsertRestaurant, now: Timestamp): (res: (Restaurant, Mem))
    ensures res.0.id == m.nextId && res.0.createdAt == Some(now)
    ensures RestaurantAsInsert(res.0) == ins.(hours := Some(""), priceRange := Some(""), features := Some([]))
    ensures res.1 == m.(restaurants := m.restaurants + [res.0], nextId := m.nextId + 1)
    ensures IdBag(res.1) == IdBag(m) + multiset{m.nextId}
    ensures Valid(m) ==> Valid(res.1)
  {
    var r := Restaurant(m.nextId, ins.name, ins.genre, ins.address, ins.phone, ins.description,
                        ins.imageUrl, ins.latitude, ins.longitude, Some(""), Some(""), Some([]),
                        ins.isOpen, Some(now));
    var m' := m.(restaurants := m.restaurants + [r], nextId := m.nextId + 1);
    AppendKeys(m.restaurants, r, RestaurantId);
    FreshIdKeepsValid(m, m');
    (r, m')
  }

  /** Merges the patch into the first restaurant with that id. */
  function UpdateRestaurant(m: Mem, id: int, patch: RestaurantPatch): (res: (Option<Restaurant>, Mem))
    ensures res.0.None? <==> forall x :: x in m.restaurants ==> x.id != id
    ensures res.0.None? ==> res.1 == m
    ensures res.0.Some? ==>
              exists k :: && 0 <= k < |m.restaurants| && m.restaurants[k].id == id
                          && (forall j :: 0 <= j < k ==> m.restaurants[j].id != id)
                          && res.1.restaurants == m.restaurants[k := res.0.value]
                          && res.0.value == ApplyRestaurantPatch(m.restaurants[k], patch)
    ensures res.0.Some? ==> res.0.value.id == id
    ensures res.1 == m.(restaurants := res.1.restaurants)
    ensures IdBag(res.1) == IdBag(m)
  {
    var k := FindIndex(m.restaurants, (x: Restaurant) => x.id == id);
    if k == -1 then (None, m)
    else
      var r := ApplyRestaurantPatch(m.restaurants[k], patch);
      assert Keys(m.restaurants[k := r], RestaurantId) == Keys(m.restaurants, RestaurantId);
      (Some(r), m.(restaurants := m.restaurants[k := r]))
  }

  /** Splices out the first restaurant with that id; the others keep their
      order. Reviews, bookmarks and menu items are untouched. */
  function DeleteRestaurant(m: Mem, id: int): (res: (bool, Mem))
    ensures res.0 <==> exists x :: x in m.restaurants && x.id == id
    ensures !res.0 ==> res.1 == m
    ensures res.0 ==>
              exists k :: && 0 <= k < |m.restaurants| && m.restaurants[k].id == id
                          && (forall j :: 0 <= j < k ==> m.restaurants[j].id != id)
                          && res.1.restaurants == m.restaurants[..k] + m.restaurants[k + 1..]
    ensures res.1 == m.(restaurants := res.1.restaurants)
    ensures IdBag(res.1) <= IdBag(m)
  {
    var k := FindIndex(m.restaurants, (x: Restaurant) => x.id == id);
    if k == -1 then (false, m)
    else
      var rs := m.restaurants;
      assert rs == rs[..k] + [rs[k]] + rs[k + 1..];
      KeysConcat(rs[..k] + [rs[k]], rs[k + 1..], RestaurantId);
      KeysConcat(rs[..k], [rs[k]], RestaurantId);
      KeysConcat(rs[..k], rs[k + 1..], RestaurantId);
      (true, m.(restaurants := rs[..k] + rs[k + 1..]))
  }

  /** Removing ids never breaks uniqueness. */
  lemma ShrinkingKeepsValid(m: Mem, m': Mem)
    requires IdBag(m') <= IdBag(m) && m'.nextId == m.nextId
    ensures Valid(m) ==> Valid(m')
  {
    if Valid(m) {
      forall id | id in IdBag(m') ensures IdBag(m')[id] <= 1 {
        assert IdBag(m')[id] <= IdBag(m)[id];
      }
    }
  }

  lemma DeleteRestaurantKeepsValid(m: Mem, id: int)
    requires Valid(m)
    ensures Valid(DeleteRestaurant(m, id).1)
  {
    ShrinkingKeepsValid(m, DeleteRestaurant(m, id).1);
  }

  lemma UpdateRestaurantKeepsValid(m: Mem, id: int, patch: RestaurantPatch)
    requires Valid(m)
    ensures Valid(UpdateRestaurant(m, id, patch).1)
  {
  }

  // ---------------------------------------------------------------------
  // Reviews, bookmarks, menu items: appending creates

  function CreateReview(m: Mem, ins: InsertReview, now: Timestamp): (res: (Review, Mem))
    ensures res.0.id == m.nextId && res.0.createdAt == Some(now)
    ensures ReviewAsInsert(res.0) == ins
    ensures res.1 == m.(reviews := m.reviews + [res.0], nextId := m.nextId + 1)
    ensures IdBag(res.1) == IdBag(m) + multiset{m.nextId}
    ensures Valid(m) ==> Valid(res.1)
  {
    var r := Review(m.nextId, ins.restaurantId, ins.userCookie, ins.nickname, ins.rating, ins.comment, Some(now));
    var m' := m.(reviews := m.reviews + [r], nextId := m.nextId + 1);
    AppendKeys(m.reviews, r, ReviewId);
    FreshIdKeepsValid(m, m');
    (r, m')
  }

  /** The stored bookmark gets no `createdAt`. */
  function CreateBookmark(m: Mem, ins: InsertBookmark): (res: (Bookmark, Mem))
    ensures res.0.id == m.nextId && res.0.createdAt.None?
    ensures BookmarkAsInsert(res.0) == ins
    ensures res.1 == m.(bookmarks := m.bookmarks + [res.0], nextId := m.nextId + 1)
    ensures IdBag(res.1) == IdBag(m) + multiset{m.nextId}
    ensures Valid(m) ==> Valid(res.1)
  {
    var b := Bookmark(m.nextId, ins.restaurantId, ins.userCookie, None);
    var m' := m.(bookmarks := m.bookmarks + [b], nextId := m.nextId + 1);
    AppendKeys(m.bookmarks, b, BookmarkId);
    FreshIdKeepsValid(m, m');
    (b, m')
  }

  /** `isPopular` is stored as given: no default is applied. */
  function CreateMenuItem(m: Mem, ins: InsertMenuItem): (res: (MenuItem, Mem))
    ensures res.0.id == m.nextId
    ensures MenuItemAsInsert(res.0) == ins
    ensures res.1 == m.(menuItems := m.menuItems + [res.0], nextId := m.nextId + 1)
    ensures IdBag(res.1) == IdBag(m) + multiset{m.nextId}
    ensures Valid(m) ==> Valid(res.1)
  {
    var x := MenuItem(m.nextId, ins.restaurantId, ins.name, ins.price, ins.description, ins.imageUrl, ins.isPopular);
    var m' := m.(menuItems := m.menuItems + [x], nextId := m.nextId + 1);
    AppendKeys(m.menuItems, x, MenuItemId);
    FreshIdKeepsValid(m, m');
    (x, m')
  }

  /** One counter serves every entity type: consecutive creates of any two
      kinds get strictly increasing ids, and a new id is never in use. */
  lemma SharedCounterIds(m: Mem, r: InsertRestaurant, v: InsertReview, b: InsertBookmark, x: InsertMenuItem, now: Timestamp)
    requires Valid(m)
    ensures var (r1, m1) := CreateRestaurant(m, r, now);
            var (v1, m2) := CreateReview(m1, v, now);
            var (b1, m3) := CreateBookmark(m2, b);
            var (x1, m4) := CreateMenuItem(m3, x);
            && r1.id < v1.id < b1.id < x1.id
            && r1.id !in IdBag(m) && v1.id !in IdBag(m1) && b1.id !in IdBag(m2) && x1.id !in IdBag(m3)
            && Valid(m4)
  {
  }

  // ---------------------------------------------------------------------
  // Constant stubs

  function GetReviewsByRestaurant(m: Mem, restaurantId: int): seq<Review> { [] }
  function GetReviewsByUser(m: Mem, userCookie: string): seq<Review> { [] }
  function UpdateReview(m: Mem, id: int, patch: ReviewPatch, userCookie: string): (Option<Review>, Mem) { (None, m) }
  function DeleteReview(m: Mem, id: int, userCookie: string): (bool, Mem) { (false, m) }
  function GetBookmarksByUser(m: Mem, userCookie: string): seq<RestaurantWithStats> { [] }
  function DeleteBookmark(m: Mem, restaurantId: int, userCookie: string): (bool, Mem) { (false, m) }
  function IsBookmarked(m: Mem, restaurantId: int, userCookie: string): bool { false }
  function GetMenuItemsByRestaurant(m: Mem, restaurantId: int): seq<MenuItem> { [] }
  function GetPopularMenuItems(m: Mem): seq<PopularMenuItem> { [] }
  function UpdateMenuItem(m: Mem, id: int, patch: MenuItemPatch): (Option<MenuItem>, Mem) { (None, m) }
  function DeleteMenuItem(m: Mem, id: int): (bool, Mem) { (false, m) }

  /** A created review is invisible: the restaurant still reads back with no
      reviews and zero statistics, and the owner can neither update nor
      delete it. */
  lemma CreatedReviewIsInvisible(m: Mem, ins: InsertReview, now: Timestamp, patch: ReviewPatch)
    requires GetRestaurant(m, ins.restaurantId).Some?
    ensures var (v, m1) := CreateReview(m, ins, now);
            && GetRestaurant(m1, ins.restaurantId).Some?
            && GetRestaurant(m1, ins.restaurantId).value.reviews == []
            && GetRestaurant(m1, ins.restaurantId).value.summary.reviewCount == 0
            && GetReviewsByRestaurant(m1, ins.restaurantId) == []
            && UpdateReview(m1, v.id, patch, ins.userCookie) == (None, m1)
            && DeleteReview(m1, v.id, ins.userCookie) == (false, m1)
  {
  }

  /** A created bookmark is never reported: the pair reads as not bookmarked,
      the user's list stays empty, and deleting it reports failure and
      leaves it stored. */
  lemma CreatedBookmarkIsInvisible(m: Mem, ins: InsertBookmark)
    ensures var (b, m1) := CreateBookmark(m, ins);
            && b in m1.bookmarks
            && !IsBookmarked(m1, ins.restaurantId, ins.userCookie)
            && GetBookmarksByUser(m1, ins.userCookie) == []
            && DeleteBookmark(m1, ins.restaurantId, ins.userCookie) == (false, m1)
  {
    var (b, m1) := CreateBookmark(m, ins);
    assert m1.bookmarks[|m.bookmarks|] == b;
  }
}
