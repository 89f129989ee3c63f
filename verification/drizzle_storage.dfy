/** The relational backend (`DrizzleStorage`): each query is given its
    set/sequence meaning over an immutable snapshot of the four tables.
    Mutations return the query result together with the next snapshot.

    The snapshot type admits dangling references, and the read queries are
    written to tolerate them; `ReferencesHold` says when there are none. Of
    the three NO ACTION foreign keys, the refusal of a delete is modelled
    here (`DeleteRestaurant`); the refusal of an insert or update naming a
    missing restaurant is modelled where it becomes visible, in the HTTP
    layer's `Api.Execute`. */
module DrizzleStorage {
  import opened Wrappers
  import opened Seqs
  import opened Schema
  import Stats
  import Text

  /** The next value of each table's `serial` id sequence. */
  datatype Serials = Serials(restaurant: int, review: int, bookmark: int, menuItem: int)

  datatype Db = Db(
    restaurants: seq<Restaurant>,
    reviews: seq<Review>,
    bookmarks: seq<Bookmark>,
    menuItems: seq<MenuItem>,
    serials: Serials)

  /** A fresh database: empty tables, every sequence starting at 1. */
  const EmptyDb := Db([], [], [], [], Serials(1, 1, 1, 1))

  /** Primary keys are unique, and each is below its sequence's next value. */
  predicate Table<T>(s: seq<T>, key: T -> int, next: int) {
    KeysDistinct(s, key) && KeysBelow(s, key, next)
  }

  /** Appending a row keeps a table's key invariant exactly when the row's
      key is new and below the sequence. */
  lemma {:induction false} TableAppend<T>(s: seq<T>, x: T, key: T -> int, next: int)
    requires Table(s, key, next)
    ensures Table(s + [x], key, next) <==> (forall y :: y in s ==> key(y) != key(x)) && key(x) < next
  {
    var t := s + [x];
    assert t[|s|] == x;
    if Table(t, key, next) {
      forall y | y in s ensures key(y) != key(x) {
        var i :| 0 <= i < |s| && s[i] == y;
        assert t[i] == y;
      }
    }
    if (forall y :: y in s ==> key(y) != key(x)) && key(x) < next {
      forall i, j | 0 <= i < j < |t| ensures key(t[i]) != key(t[j]) {
        if j == |s| {
          assert t[i] == s[i] && s[i] in s;
        } else {
          assert t[i] == s[i] && t[j] == s[j];
        }
      }
      forall i | 0 <= i < |t| ensures key(t[i]) < next {
        if i < |s| {
          assert t[i] == s[i];
        }
      }
    }
  }

  predicate Valid(db: Db) {
    && Table(db.restaurants, RestaurantId, db.serials.restaurant)
    && Table(db.reviews, ReviewId, db.serials.review)
    && Table(db.bookmarks, BookmarkId, db.serials.bookmark)
    && Table(db.menuItems, MenuItemId, db.serials.menuItem)
  }

  /** Some review, bookmark or menu item refers to restaurant `id`. */
  predicate Referenced(db: Db, id: int) {
    || (exists rv :: rv in db.reviews && rv.restaurantId == id)
    || (exists b :: b in db.bookmarks && b.restaurantId == id)
    || (exists m :: m in db.menuItems && m.restaurantId == id)
  }

  /** The three foreign keys to `restaurants.id` hold: every review, bookmark
      and menu item refers to a stored restaurant. */
  predicate ReferencesHold(db: Db) {
    && (forall rv :: rv in db.reviews ==> HasRestaurant(db, rv.restaurantId))
    && (forall b :: b in db.bookmarks ==> HasRestaurant(db, b.restaurantId))
    && (forall m :: m in db.menuItems ==> HasRestaurant(db, m.restaurantId))
  }

  lemma EmptyDbValid()
    ensures Valid(EmptyDb)
  {
  }

  /** No stored row has primary key `id`, so an insert under it passes the
      primary key's unique index. */
  predicate ReviewKeyFree(db: Db, id: int) {
    forall rv :: rv in db.reviews ==> rv.id != id
  }

  predicate BookmarkKeyFree(db: Db, id: int) {
    forall b :: b in db.bookmarks ==> b.id != id
  }

  predicate MenuItemKeyFree(db: Db, id: int) {
    forall m :: m in db.menuItems ==> m.id != id
  }

  /** In a valid database the value each sequence hands out next is free. */
  lemma {:induction false} ValidSerialsAreFree(db: Db)
    requires Valid(db)
    ensures ReviewKeyFree(db, db.serials.review)
    ensures BookmarkKeyFree(db, db.serials.bookmark)
    ensures MenuItemKeyFree(db, db.serials.menuItem)
  {
    forall rv | rv in db.reviews ensures rv.id != db.serials.review {
      var i :| 0 <= i < |db.reviews| && db.reviews[i] == rv;
      assert ReviewId(db.reviews[i]) < db.serials.review;
    }
    forall b | b in db.bookmarks ensures b.id != db.serials.bookmark {
      var i :| 0 <= i < |db.bookmarks| && db.bookmarks[i] == b;
      assert BookmarkId(db.bookmarks[i]) < db.serials.bookmark;
    }
    forall m | m in db.menuItems ensures m.id != db.serials.menuItem {
      var i :| 0 <= i < |db.menuItems| && db.menuItems[i] == m;
      assert MenuItemId(db.menuItems[i]) < db.serials.menuItem;
    }
  }

  // ---------------------------------------------------------------------
  // Row selections shared by several queries

  function ReviewsFor(reviews: seq<Review>, restaurantId: int): (r: seq<Review>)
    ensures forall rv :: multiset(r)[rv] == if rv.restaurantId == restaurantId then multiset(reviews)[rv] else 0
  {
    Filter(reviews, (rv: Review) => rv.restaurantId == restaurantId)
  }

  function MenuItemsFor(items: seq<MenuItem>, restaurantId: int): (r: seq<MenuItem>)
    ensures forall m :: multiset(r)[m] == if m.restaurantId == restaurantId then multiset(items)[m] else 0
  {
    Filter(items, (m: MenuItem) => m.restaurantId == restaurantId)
  }

  /** `findFirst` on the restaurants table by primary key. */
  function FindRestaurant(restaurants: seq<Restaurant>, id: int): (r: Option<Restaurant>)
    ensures r.None? <==> forall x :: x in restaurants ==> x.id != id
    ensures r.Some? ==> r.value in restaurants && r.value.id == id
  {
    FindFirst(restaurants, (x: Restaurant) => x.id == id)
  }

  /** A row of `restaurants` carries `id`: what each foreign key checks. */
  predicate HasRestaurant(db: Db, id: int) {
    exists x :: x in db.restaurants && x.id == id
  }

  /** With unique ids the lookup returns the one restaurant carrying `id`. */
  lemma FindRestaurantUnique(restaurants: seq<Restaurant>, x: Restaurant)
    requires KeysDistinct(restaurants, RestaurantId)
    requires x in restaurants
    ensures FindRestaurant(restaurants, x.id) == Some(x)
  {
    FindFirstByKeyIsUnique(restaurants, RestaurantId, (y: Restaurant) => y.id == x.id, x);
  }

  function Ratings(reviews: seq<Review>): (r: seq<int>)
    ensures |r| == |reviews|
    ensures forall i :: 0 <= i < |reviews| ==> r[i] == reviews[i].rating
  {
    seq(|reviews|, i requires 0 <= i < |reviews| => reviews[i].rating)
  }

  function RowRestaurants(rows: seq<RestaurantWithStats>): (r: seq<Restaurant>)
    ensures |r| == |rows|
    ensures forall i :: 0 <= i < |rows| ==> r[i] == rows[i].restaurant
  {
    seq(|rows|, i requires 0 <= i < |rows| => rows[i].restaurant)
  }

  // ---------------------------------------------------------------------
  // Aggregation by `LEFT JOIN reviews … GROUP BY restaurant`

  /** The restaurant columns a grouped listing row carries: the SELECT names
      every column except `is_open`, so a listed restaurant has none. */
  function Listed(r: Restaurant): (l: Restaurant)
    ensures l.isOpen.None?
    ensures l.(isOpen := r.isOpen) == r
  {
    r.(isOpen := None)
  }

  function ListedAll(rs: seq<Restaurant>): (l: seq<Restaurant>)
    ensures |l| == |rs|
    ensures forall i :: 0 <= i < |rs| ==> l[i] == Listed(rs[i])
  {
    seq(|rs|, i requires 0 <= i < |rs| => Listed(rs[i]))
  }

  /** `avg(rating)` and `count(reviews.id)` over the restaurant's reviews:
      the average is unrounded and NULL when there are none. */
  function WithSqlStats(db: Db, r: Restaurant): RestaurantWithStats {
    var rs := ReviewsFor(db.reviews, r.id);
    RestaurantWithStats(Listed(r), if |rs| == 0 then None else Some(Stats.Mean(Ratings(rs))), |rs|, None, None)
  }

  /** The statistics a grouped row carries for restaurant `row.restaurant`. */
  predicate HasSqlStats(db: Db, row: RestaurantWithStats) {
    var rs := ReviewsFor(db.reviews, row.restaurant.id);
    && row.restaurant.isOpen.None?
    && row.reviewCount == |rs|
    && (row.averageRating.None? <==> |rs| == 0)
    && (|rs| > 0 ==> row.averageRating == Some(Stats.Mean(Ratings(rs))))
    && row.distance.None?
    && row.isBookmarked.None?
  }

  function WithSqlStatsAll(db: Db, rs: seq<Restaurant>): (rows: seq<RestaurantWithStats>)
    ensures RowRestaurants(rows) == ListedAll(rs)
    ensures forall i :: 0 <= i < |rows| ==> HasSqlStats(db, rows[i])
  {
    var rows := seq(|rs|, i requires 0 <= i < |rs| => WithSqlStats(db, rs[i]));
    assert RowRestaurants(rows) == ListedAll(rs);
    rows
  }

  /** The listing of the restaurants `keep` selects: every row shows a
      selected restaurant, and when `keep` does not look at `is_open` a
      stored restaurant is shown iff it is selected. */
  lemma ListingOfKept(rs: seq<Restaurant>, keep: Restaurant -> bool)
    requires forall x {:trigger Listed(x)} :: keep(Listed(x)) == keep(x)
    ensures forall x :: x in rs ==> (Listed(x) in ListedAll(Filter(rs, keep)) <==> keep(x))
    ensures forall r :: r in ListedAll(Filter(rs, keep)) ==> exists x :: x in rs && keep(x) && r == Listed(x)
  {
    var kept := Filter(rs, keep);
    var shown := ListedAll(kept);
    forall r | r in shown ensures exists x :: x in rs && keep(x) && r == Listed(x) {
      var i :| 0 <= i < |shown| && shown[i] == r;
      assert kept[i] in kept;
    }
    forall x | x in rs ensures Listed(x) in shown <==> keep(x) {
      if keep(x) {
        var i :| 0 <= i < |kept| && kept[i] == x;
        assert shown[i] == Listed(x);
      }
      if Listed(x) in shown {
        var y :| y in rs && keep(y) && Listed(x) == Listed(y);
        assert keep(Listed(y)) == keep(y);
      }
    }
  }

  /** Listing rows keep the restaurants' ids, in order. */
  lemma ListedKeepsKeys(rs: seq<Restaurant>)
    ensures Keys(ListedAll(rs), RestaurantId) == Keys(rs, RestaurantId)
  {
  }

  // ---------------------------------------------------------------------
  // getRestaurants(filters)

  /** JavaScript truthiness of an optional string: present and non-empty. */
  predicate Truthy(s: Option<string>) {
    s.Some? && s.value != ""
  }

  predicate GenreFilterActive(f: Filters) {
    Truthy(f.genre) && f.genre.value != "all"
  }

  /** The genre condition: exact, case-sensitive equality when active. */
  predicate GenreSelects(f: Filters, r: Restaurant) {
    GenreFilterActive(f) ==> r.genre == f.genre.value
  }

  /** The search condition as written: the lower-cased term must occur in the
      lower-cased name AND description AND genre. `lower(NULL) LIKE …` is
      NULL, so a restaurant without a description is excluded. */
  predicate SearchSelects(f: Filters, lower: string -> string, r: Restaurant) {
    Truthy(f.search) ==>
      (var term := lower(f.search.value);
       && Text.Contains(lower(r.name), term)
       && r.description.Some?
       && Text.Contains(lower(r.description.value), term)
       && Text.Contains(lower(r.genre), term))
  }

  predicate Selected(f: Filters, lower: string -> string, r: Restaurant) {
    GenreSelects(f, r) && SearchSelects(f, lower, r)
  }

  /** The search condition as intended: the lower-cased term occurs in the
      name OR the description OR the genre. Under SQL's three-valued OR a
      NULL description counts as no match for that field only. */
  predicate SearchSelectsAny(f: Filters, lower: string -> string, r: Restaurant) {
    Truthy(f.search) ==>
      (var term := lower(f.search.value);
       || Text.Contains(lower(r.name), term)
       || (r.description.Some? && Text.Contains(lower(r.description.value), term))
       || Text.Contains(lower(r.genre), term))
  }

  predicate SelectedAny(f: Filters, lower: string -> string, r: Restaurant) {
    GenreSelects(f, r) && SearchSelectsAny(f, lower, r)
  }

  /** Rows come in table order, one per selected restaurant, each with its
      unrounded SQL statistics and without `is_open`. */
  function GetRestaurants(db: Db, f: Filters, lower: string -> string): (rows: seq<RestaurantWithStats>)
    ensures |rows| <= |db.restaurants|
    ensures forall x :: x in db.restaurants ==> (Listed(x) in RowRestaurants(rows) <==> Selected(f, lower, x))
    ensures forall r :: r in RowRestaurants(rows) ==> exists x :: x in db.restaurants && Selected(f, lower, x) && r == Listed(x)
    ensures forall i :: 0 <= i < |rows| ==> HasSqlStats(db, rows[i])
  {
    var keep := (x: Restaurant) => Selected(f, lower, x);
    ListingOfKept(db.restaurants, keep);
    WithSqlStatsAll(db, Filter(db.restaurants, keep))
  }

  /** The listing with the intended any-field search. */
  function GetRestaurantsAnyField(db: Db, f: Filters, lower: string -> string): (rows: seq<RestaurantWithStats>)
    ensures |rows| <= |db.restaurants|
    ensures forall x :: x in db.restaurants ==> (Listed(x) in RowRestaurants(rows) <==> SelectedAny(f, lower, x))
    ensures forall r :: r in RowRestaurants(rows) ==> exists x :: x in db.restaurants && SelectedAny(f, lower, x) && r == Listed(x)
    ensures forall i :: 0 <= i < |rows| ==> HasSqlStats(db, rows[i])
  {
    var keep := (x: Restaurant) => SelectedAny(f, lower, x);
    ListingOfKept(db.restaurants, keep);
    WithSqlStatsAll(db, Filter(db.restaurants, keep))
  }

  /** An active search keeps a stored restaurant iff the lower-cased term
      occurs in at least one of its name, description and genre. */
  lemma SearchMatchesAnyField(db: Db, term: string, lower: string -> string, x: Restaurant)
    requires term != ""
    ensures x in db.restaurants ==>
              (Listed(x) in RowRestaurants(GetRestaurantsAnyField(db, Filters(None, Some(term)), lower))
               <==> || Text.Contains(lower(x.name), lower(term))
                    || (x.description.Some? && Text.Contains(lower(x.description.value), lower(term)))
                    || Text.Contains(lower(x.genre), lower(term)))
  {
  }

  /** The as-written listing never shows more than the intended one. */
  lemma AllFieldsListingIsNarrower(db: Db, f: Filters, lower: string -> string)
    ensures forall r :: r in RowRestaurants(GetRestaurants(db, f, lower))
                        ==> r in RowRestaurants(GetRestaurantsAnyField(db, f, lower))
  {
    var narrow := RowRestaurants(GetRestaurants(db, f, lower));
    var wide := RowRestaurants(GetRestaurantsAnyField(db, f, lower));
    forall r | r in narrow ensures r in wide {
      var x :| x in db.restaurants && Selected(f, lower, x) && r == Listed(x);
      assert SelectedAny(f, lower, x);
    }
  }

  /** A restaurant named "ramen ya" of genre "ramen" whose description is
      "pork" is missing from the as-written search for "ramen", although the
      intended search lists it. */
  lemma AllFieldsSearchMissesNameMatch()
    ensures var x := Restaurant(1, "ramen ya", "ramen", "1-1 Chuo", None, Some("pork"), None,
                                None, None, None, None, None, Some(true), None);
            var db := EmptyDb.(restaurants := [x]);
            var f := Filters(None, Some("ramen"));
            var id := (s: string) => s;
            && Listed(x) !in RowRestaurants(GetRestaurants(db, f, id))
            && Listed(x) in RowRestaurants(GetRestaurantsAnyField(db, f, id))
  {
    var x := Restaurant(1, "ramen ya", "ramen", "1-1 Chuo", None, Some("pork"), None,
                        None, None, None, None, None, Some(true), None);
    var db := EmptyDb.(restaurants := [x]);
    assert x in db.restaurants;
    Text.TooLongNeverOccurs("pork", "ramen");
    assert Text.StartsWith("ramen ya", "ramen");
    assert Text.StartsWith("ramen", "ramen");
  }

  /** Without a genre (or with genre "all") and without a search term, every
      restaurant is listed, in table order. */
  lemma {:induction false} UnfilteredListsEverything(db: Db, f: Filters, lower: string -> string)
    requires !GenreFilterActive(f) && !Truthy(f.search)
    ensures RowRestaurants(GetRestaurants(db, f, lower)) == ListedAll(db.restaurants)
  {
    FilterAll(db.restaurants, (x: Restaurant) => Selected(f, lower, x));
  }

  /** An active genre filter alone keeps exactly the stored restaurants of
      that genre. */
  lemma GenreFilterIsExact(db: Db, genre: string, lower: string -> string, x: Restaurant)
    requires genre != "" && genre != "all"
    ensures x in db.restaurants ==>
              (Listed(x) in RowRestaurants(GetRestaurants(db, Filters(Some(genre), None), lower))
               <==> x.genre == genre)
  {
  }

  /** An active search keeps a stored restaurant iff the lower-cased term
      occurs in all three of its lower-cased name, description and genre. */
  lemma SearchNeedsAllThreeFields(db: Db, term: string, lower: string -> string, x: Restaurant)
    requires term != ""
    ensures x in db.restaurants ==>
              (Listed(x) in RowRestaurants(GetRestaurants(db, Filters(None, Some(term)), lower))
               <==> && Text.Contains(lower(x.name), lower(term))
                    && x.description.Some?
                    && Text.Contains(lower(x.description.value), lower(term))
                    && Text.Contains(lower(x.genre), lower(term)))
  {
  }

  /** A restaurant whose description is null never matches a non-empty search. */
  lemma NullDescriptionNeverMatches(db: Db, f: Filters, lower: string -> string, x: Restaurant)
    requires Truthy(f.search) && x.description.None?
    ensures Listed(x) !in RowRestaurants(GetRestaurants(db, f, lower))
  {
  }
  // ---------------------------------------------------------------------
  // getRestaurant(id)

  /** The restaurant with its reviews and menu items; `averageRating` is the
      mean rounded to one decimal (0 without reviews). */
  function GetRestaurant(db: Db, id: int): (d: Option<RestaurantWithDetails>)
    ensures d.None? <==> forall x :: x in db.restaurants ==> x.id != id
    ensures d.Some? ==> d.value.summary.restaurant in db.restaurants && d.value.summary.restaurant.id == id
    ensures d.Some? ==> forall rv :: multiset(d.value.reviews)[rv] == if rv.restaurantId == id then multiset(db.reviews)[rv] else 0
    ensures d.Some? ==> forall m :: multiset(d.value.menuItems)[m] == if m.restaurantId == id then multiset(db.menuItems)[m] else 0
    ensures d.Some? ==> d.value.summary.reviewCount == |d.value.reviews|
    ensures d.Some? ==> d.value.summary.averageRating == Some(Stats.AverageRating(Ratings(d.value.reviews)))
  {
    match FindRestaurant(db.restaurants, id)
    case None => None
    case Some(r) =>
      var rs := ReviewsFor(db.reviews, id);
      var stats := RestaurantWithStats(r, Some(Stats.AverageRating(Ratings(rs))), |rs|, None, None);
      Some(RestaurantWithDetails(stats, rs, MenuItemsFor(db.menuItems, id)))
  }

  /** With unique ids the detail read returns the restaurant carrying `id`. */
  lemma GetRestaurantFindsTheRow(db: Db, x: Restaurant)
    requires Valid(db) && x in db.restaurants
    ensures GetRestaurant(db, x.id).Some?
    ensures GetRestaurant(db, x.id).value.summary.restaurant == x
  {
    FindRestaurantUnique(db.restaurants, x);
  }

  /** When every review of the restaurant has a rating in [lo, hi] and there
      is at least one, the rounded average lies in [lo, hi] too. */
  lemma GetRestaurantRatingWithin(db: Db, id: int, lo: int, hi: int)
    requires GetRestaurant(db, id).Some?
    requires forall rv :: rv in db.reviews && rv.restaurantId == id ==> lo <= rv.rating <= hi
    requires GetRestaurant(db, id).value.summary.reviewCount > 0
    ensures lo as real <= GetRestaurant(db, id).value.summary.averageRating.value <= hi as real
  {
    var d := GetRestaurant(db, id).value;
    var xs := Ratings(d.reviews);
    forall i | 0 <= i < |xs| ensures lo <= xs[i] <= hi {
      var rv := d.reviews[i];
      assert multiset(d.reviews)[rv] > 0;
    }
    Stats.AverageRatingWithin(xs, lo, hi);
  }

  /** A restaurant without reviews reads back with average 0 and count 0. */
  lemma NoReviewsReadsAsZero(db: Db, id: int)
    requires GetRestaurant(db, id).Some?
    requires forall rv :: rv in db.reviews ==> rv.restaurantId != id
    ensures GetRestaurant(db, id).value.summary.averageRating == Some(0.0)
    ensures GetRestaurant(db, id).value.summary.reviewCount == 0
  {
  }

  /** Scenario: "MESO" with reviews rated 5 and 4 reads back with average
      4.5 from 2 reviews. */
  lemma MesoScenario(meso: Restaurant, now: Timestamp)
    requires meso.id == 1 && meso.name == "MESO"
    ensures var db := Db([meso],
                         [Review(1, 1, "user1", "a", 5, None, Some(now)),
                          Review(2, 1, "user2", "b", 4, None, Some(now))],
                         [], [], Serials(2, 3, 1, 1));
            && GetRestaurant(db, 1).Some?
            && GetRestaurant(db, 1).value.summary.averageRating == Some(4.5)
            && GetRestaurant(db, 1).value.summary.reviewCount == 2
  {
    var r1 := Review(1, 1, "user1", "a", 5, None, Some(now));
    var r2 := Review(2, 1, "user2", "b", 4, None, Some(now));
    var db := Db([meso], [r1, r2], [], [], Serials(2, 3, 1, 1));
    assert [r1, r2][1..] == [r2];
    assert ReviewsFor(db.reviews, 1) == [r1, r2];
    assert Ratings([r1, r2]) == [5, 4];
    Stats.AverageOfFiveAndFour();
  }

  // ---------------------------------------------------------------------
  // Restaurants: insert, update, delete

  /** `INSERT … RETURNING`: the row takes the next id, `createdAt` = now and
      `isOpen` defaults to true. */
  function CreateRestaurant(db: Db, ins: InsertRestaurant, now: Timestamp): (res: (Restaurant, Db))
    ensures res.0.id == db.serials.restaurant && res.0.createdAt == Some(now)
    ensures RestaurantAsInsert(res.0) == ins.(isOpen := Some(ins.isOpen.GetOr(RestaurantIsOpenDefault)))
    ensures res.1 == db.(restaurants := db.restaurants + [res.0],
                         serials := db.serials.(restaurant := db.serials.restaurant + 1))
    ensures Valid(db) ==> Valid(res.1)
  {
    var r := Restaurant(db.serials.restaurant, ins.name, ins.genre, ins.address, ins.phone,
                        ins.description, ins.imageUrl, ins.latitude, ins.longitude, ins.hours,
                        ins.priceRange, ins.features, Some(ins.isOpen.GetOr(RestaurantIsOpenDefault)),
                        Some(now));
    (r, db.(restaurants := db.restaurants + [r],
            serials := db.serials.(restaurant := db.serials.restaurant + 1)))
  }

  /** `UPDATE … SET patch WHERE id = ? RETURNING`: the first updated row, or
      none when no row has that id. */
  function UpdateRestaurant(db: Db, id: int, patch: RestaurantPatch): (res: (Option<Restaurant>, Db))
    ensures res.0.None? <==> forall x :: x in db.restaurants ==> x.id != id
    ensures res.0.None? ==> res.1 == db
    ensures res.0.Some? ==> res.0.value.id == id && res.0.value in res.1.restaurants
    ensures |res.1.restaurants| == |db.restaurants|
    ensures forall i :: 0 <= i < |db.restaurants| && db.restaurants[i].id != id ==>
              res.1.restaurants[i] == db.restaurants[i]
    ensures forall i :: 0 <= i < |db.restaurants| && db.restaurants[i].id == id ==>
              res.1.restaurants[i] == ApplyRestaurantPatch(db.restaurants[i], patch)
    ensures res.1 == db.(restaurants := res.1.restaurants)
    ensures Valid(db) ==> Valid(res.1)
  {
    var rs := db.restaurants;
    var updated := seq(|rs|, i requires 0 <= i < |rs| =>
                         if rs[i].id == id then ApplyRestaurantPatch(rs[i], patch) else rs[i]);
    var k := FindIndex(rs, (x: Restaurant) => x.id == id);
    if k == -1 then (None, db) else (Some(updated[k]), db.(restaurants := updated))
  }

  /** `DELETE … WHERE id = ?`. The foreign keys to the restaurant take the
      default NO ACTION, so deleting a restaurant that a review, bookmark or
      menu item still refers to fails (`None`) and changes nothing; nothing
      cascades. Otherwise the answer is true iff a row was removed. */
  function DeleteRestaurant(db: Db, id: int): (res: (Option<bool>, Db))
    ensures res.0.None? <==> HasRestaurant(db, id) && Referenced(db, id)
    ensures res.0.None? ==> res.1 == db
    ensures res.0 == Some(true) <==> HasRestaurant(db, id) && !Referenced(db, id)
    ensures res.0.Some? ==> forall x :: x in res.1.restaurants ==> x.id != id
    ensures forall x: Restaurant :: x.id != id ==> multiset(res.1.restaurants)[x] == multiset(db.restaurants)[x]
    ensures res.1 == db.(restaurants := res.1.restaurants)
    ensures Valid(db) ==> Valid(res.1)
    ensures ReferencesHold(db) ==> ReferencesHold(res.1)
  {
    if HasRestaurant(db, id) && Referenced(db, id) then (None, db)
    else if Referenced(db, id) then (Some(false), db)
    else
      var deleted := Filter(db.restaurants, (x: Restaurant) => x.id == id);
      var kept := Filter(db.restaurants, (x: Restaurant) => x.id != id);
      FilterKeepsKeysDistinct(db.restaurants, (x: Restaurant) => x.id != id, RestaurantId);
      FilterKeepsKeysBelow(db.restaurants, (x: Restaurant) => x.id != id, RestaurantId, db.serials.restaurant);
      assert |deleted| > 0 ==> deleted[0] in deleted;
      UnreferencedDeleteKeepsReferences(db, id, kept);
      (Some(|deleted| > 0), db.(restaurants := kept))
  }

  /** Removing only the restaurant `id`, which nothing refers to, leaves
      every reference pointing at a stored restaurant. */
  lemma UnreferencedDeleteKeepsReferences(db: Db, id: int, kept: seq<Restaurant>)
    requires !Referenced(db, id)
    requires forall x :: x in db.restaurants && x.id != id ==> x in kept
    ensures ReferencesHold(db) ==> ReferencesHold(db.(restaurants := kept))
  {
    var db' := db.(restaurants := kept);
    forall rid | HasRestaurant(db, rid) && rid != id ensures HasRestaurant(db', rid) {
      var x :| x in db.restaurants && x.id == rid;
      assert x in kept;
    }
  }

  // ---------------------------------------------------------------------
  // Reviews

  function GetReviewsByRestaurant(db: Db, restaurantId: int): (r: seq<Review>)
    ensures forall rv :: multiset(r)[rv] == if rv.restaurantId == restaurantId then multiset(db.reviews)[rv] else 0
  {
    ReviewsFor(db.reviews, restaurantId)
  }

  function GetReviewsByUser(db: Db, userCookie: string): (r: seq<Review>)
    ensures forall rv :: multiset(r)[rv] == if rv.userCookie == userCookie then multiset(db.reviews)[rv] else 0
  {
    Filter(db.reviews, (rv: Review) => rv.userCookie == userCookie)
  }

  function CreateReview(db: Db, ins: InsertReview, now: Timestamp): (res: (Review, Db))
    ensures res.0.id == db.serials.review && res.0.createdAt == Some(now)
    ensures ReviewAsInsert(res.0) == ins
    ensures res.1 == db.(reviews := db.reviews + [res.0],
                         serials := db.serials.(review := db.serials.review + 1))
    ensures Valid(db) ==> Valid(res.1)
  {
    var r := Review(db.serials.review, ins.restaurantId, ins.userCookie, ins.nickname,
                    ins.rating, ins.comment, Some(now));
    (r, db.(reviews := db.reviews + [r], serials := db.serials.(review := db.serials.review + 1)))
  }

  /** The review is addressed by its id AND its owner's cookie. */
  predicate OwnedBy(rv: Review, id: int, userCookie: string) {
    rv.id == id && rv.userCookie == userCookie
  }

  /** A review after `SET` with every column the body names: the typed
      fields of `patch`, then the primary key when `newId` is present and
      `created_at` when the body sets it to null. */
  function SetReviewColumns(rv: Review, patch: ReviewPatch, newId: Option<int>, clearCreatedAt: bool): (r: Review)
    ensures newId.None? && !clearCreatedAt ==> r == ApplyReviewPatch(rv, patch)
    ensures r.id == newId.GetOr(rv.id)
    ensures r.createdAt == if clearCreatedAt then None else rv.createdAt
    ensures r.(id := rv.id, createdAt := rv.createdAt) == ApplyReviewPatch(rv, patch)
  {
    ApplyReviewPatch(rv, patch).(id := newId.GetOr(rv.id), createdAt := if clearCreatedAt then None else rv.createdAt)
  }

  /** `UPDATE reviews SET … WHERE id = ? AND user_cookie = ?` with whatever
      columns the body names: changes only the reviews with that id owned by
      that cookie; none (and no change) when there is no such review. */
  function UpdateReviewColumns(db: Db, id: int, patch: ReviewPatch, newId: Option<int>, clearCreatedAt: bool,
                               userCookie: string): (res: (Option<Review>, Db))
    ensures res.0.None? <==> forall rv :: rv in db.reviews ==> !OwnedBy(rv, id, userCookie)
    ensures res.0.None? ==> res.1 == db
    ensures res.0.Some? ==> res.0.value.id == newId.GetOr(id) && res.0.value in res.1.reviews
    ensures |res.1.reviews| == |db.reviews|
    ensures forall i :: 0 <= i < |db.reviews| && !OwnedBy(db.reviews[i], id, userCookie) ==>
              res.1.reviews[i] == db.reviews[i]
    ensures forall i :: 0 <= i < |db.reviews| && OwnedBy(db.reviews[i], id, userCookie) ==>
              res.1.reviews[i] == SetReviewColumns(db.reviews[i], patch, newId, clearCreatedAt)
    ensures res.1 == db.(reviews := res.1.reviews)
    ensures Valid(db) && newId.None? ==> Valid(res.1)
  {
    var rs := db.reviews;
    var updated := seq(|rs|, i requires 0 <= i < |rs| =>
                         if OwnedBy(rs[i], id, userCookie) then SetReviewColumns(rs[i], patch, newId, clearCreatedAt) else rs[i]);
    var k := FindIndex(rs, (rv: Review) => OwnedBy(rv, id, userCookie));
    if k == -1 then (None, db) else (Some(updated[k]), db.(reviews := updated))
  }

  /** `updateReview(id, review, userCookie)` with a `Partial<InsertReview>`,
      as its signature promises: changes only the review with that id owned
      by that cookie, never its id or creation time; none (and no change)
      when there is no such review. */
  function UpdateReview(db: Db, id: int, patch: ReviewPatch, userCookie: string): (res: (Option<Review>, Db))
    ensures res.0.None? <==> forall rv :: rv in db.reviews ==> !OwnedBy(rv, id, userCookie)
    ensures res.0.None? ==> res.1 == db
    ensures res.0.Some? ==> res.0.value.id == id && res.0.value in res.1.reviews
    ensures |res.1.reviews| == |db.reviews|
    ensures forall i :: 0 <= i < |db.reviews| && !OwnedBy(db.reviews[i], id, userCookie) ==>
              res.1.reviews[i] == db.reviews[i]
    ensures forall i :: 0 <= i < |db.reviews| && OwnedBy(db.reviews[i], id, userCookie) ==>
              res.1.reviews[i] == ApplyReviewPatch(db.reviews[i], patch)
    ensures res.1 == db.(reviews := res.1.reviews)
    ensures Valid(db) ==> Valid(res.1)
  {
    UpdateReviewColumns(db, id, patch, None, false, userCookie)
  }

  /** A cookie other than the owner's can never update a review. */
  lemma UpdateByAnotherCookieFails(db: Db, rv: Review, patch: ReviewPatch, other: string)
    requires Valid(db) && rv in db.reviews && other != rv.userCookie
    ensures UpdateReview(db, rv.id, patch, other).0.None?
    ensures UpdateReview(db, rv.id, patch, other).1 == db
  {
    forall x | x in db.reviews ensures !OwnedBy(x, rv.id, other) {
      var i :| 0 <= i < |db.reviews| && db.reviews[i] == rv;
      var j :| 0 <= j < |db.reviews| && db.reviews[j] == x;
      if x.id == rv.id {
        assert i == j;
      }
    }
  }

  /** `DELETE FROM reviews WHERE id = ? AND user_cookie = ?`: true iff a review
      was removed; only reviews with that id and owner are removed. */
  function DeleteReview(db: Db, id: int, userCookie: string): (res: (bool, Db))
    ensures res.0 <==> exists rv :: rv in db.reviews && OwnedBy(rv, id, userCookie)
    ensures forall rv :: multiset(res.1.reviews)[rv] == if OwnedBy(rv, id, userCookie) then 0 else multiset(db.reviews)[rv]
    ensures res.1 == db.(reviews := res.1.reviews)
    ensures Valid(db) ==> Valid(res.1)
  {
    var deleted := Filter(db.reviews, (rv: Review) => OwnedBy(rv, id, userCookie));
    var kept := KeptReviews(db.reviews, id, userCookie);
    FilterKeepsKeysDistinct(db.reviews, (rv: Review) => !OwnedBy(rv, id, userCookie), ReviewId);
    FilterKeepsKeysBelow(db.reviews, (rv: Review) => !OwnedBy(rv, id, userCookie), ReviewId, db.serials.review);
    assert |deleted| > 0 ==> deleted[0] in deleted;
    (|deleted| > 0, db.(reviews := kept))
  }

  function KeptReviews(reviews: seq<Review>, id: int, userCookie: string): seq<Review> {
    Filter(reviews, (rv: Review) => !OwnedBy(rv, id, userCookie))
  }

  /** A delete that matches nothing leaves the database exactly as it was. */
  lemma DeleteReviewWithoutMatchChangesNothing(db: Db, id: int, userCookie: string)
    requires !DeleteReview(db, id, userCookie).0
    ensures DeleteReview(db, id, userCookie).1 == db
  {
    forall i | 0 <= i < |db.reviews| ensures !OwnedBy(db.reviews[i], id, userCookie) {
      assert db.reviews[i] in db.reviews;
    }
    FilterAll(db.reviews, (rv: Review) => !OwnedBy(rv, id, userCookie));
    assert KeptReviews(db.reviews, id, userCookie) == db.reviews;
  }

  // ---------------------------------------------------------------------
  // Bookmarks, keyed by the (restaurantId, userCookie) pair

  predicate PairIs(b: Bookmark, restaurantId: int, userCookie: string) {
    b.restaurantId == restaurantId && b.userCookie == userCookie
  }

  function BookmarksWithPair(bookmarks: seq<Bookmark>, restaurantId: int, userCookie: string): (r: seq<Bookmark>)
    ensures forall b :: multiset(r)[b] == if PairIs(b, restaurantId, userCookie) then multiset(bookmarks)[b] else 0
  {
    Filter(bookmarks, (b: Bookmark) => PairIs(b, restaurantId, userCookie))
  }

  /** `findFirst` on the pair: a pure existence check. */
  function IsBookmarked(db: Db, restaurantId: int, userCookie: string): (r: bool)
    ensures r <==> exists b :: b in db.bookmarks && PairIs(b, restaurantId, userCookie)
  {
    FindFirst(db.bookmarks, (b: Bookmark) => PairIs(b, restaurantId, userCookie)).Some?
  }

  /** Always appends: there is no de-duplication of the pair. */
  function CreateBookmark(db: Db, ins: InsertBookmark, now: Timestamp): (res: (Bookmark, Db))
    ensures res.0.id == db.serials.bookmark && res.0.createdAt == Some(now)
    ensures BookmarkAsInsert(res.0) == ins
    ensures res.1 == db.(bookmarks := db.bookmarks + [res.0],
                         serials := db.serials.(bookmark := db.serials.bookmark + 1))
    ensures Valid(db) ==> Valid(res.1)
  {
    var b := Bookmark(db.serials.bookmark, ins.restaurantId, ins.userCookie, Some(now));
    (b, db.(bookmarks := db.bookmarks + [b], serials := db.serials.(bookmark := db.serials.bookmark + 1)))
  }

  /** Removes every bookmark with the pair; true iff at least one was removed. */
  function DeleteBookmark(db: Db, restaurantId: int, userCookie: string): (res: (bool, Db))
    ensures res.0 <==> IsBookmarked(db, restaurantId, userCookie)
    ensures !IsBookmarked(res.1, restaurantId, userCookie)
    ensures forall b :: multiset(res.1.bookmarks)[b] == if PairIs(b, restaurantId, userCookie) then 0 else multiset(db.bookmarks)[b]
    ensures res.1 == db.(bookmarks := res.1.bookmarks)
    ensures Valid(db) ==> Valid(res.1)
  {
    var deleted := BookmarksWithPair(db.bookmarks, restaurantId, userCookie);
    var kept := Filter(db.bookmarks, (b: Bookmark) => !PairIs(b, restaurantId, userCookie));
    FilterKeepsKeysDistinct(db.bookmarks, (b: Bookmark) => !PairIs(b, restaurantId, userCookie), BookmarkId);
    FilterKeepsKeysBelow(db.bookmarks, (b: Bookmark) => !PairIs(b, restaurantId, userCookie), BookmarkId, db.serials.bookmark);
    assert |deleted| > 0 ==> multiset(deleted)[deleted[0]] > 0;
    (|deleted| > 0, db.(bookmarks := kept))
  }

  /** Creating a bookmark makes the pair bookmarked. */
  lemma CreateThenIsBookmarked(db: Db, restaurantId: int, userCookie: string, now: Timestamp)
    ensures IsBookmarked(CreateBookmark(db, InsertBookmark(restaurantId, userCookie), now).1, restaurantId, userCookie)
  {
    var res := CreateBookmark(db, InsertBookmark(restaurantId, userCookie), now);
    assert res.0 in res.1.bookmarks;
  }

  /** Creating the same pair twice stores two bookmarks for it. */
  lemma {:induction false} CreateTwiceStoresTwo(db: Db, restaurantId: int, userCookie: string, now: Timestamp, later: Timestamp)
    ensures var db1 := CreateBookmark(db, InsertBookmark(restaurantId, userCookie), now).1;
            var db2 := CreateBookmark(db1, InsertBookmark(restaurantId, userCookie), later).1;
            |BookmarksWithPair(db2.bookmarks, restaurantId, userCookie)|
              == |BookmarksWithPair(db.bookmarks, restaurantId, userCookie)| + 2
  {
    var (b1, db1) := CreateBookmark(db, InsertBookmark(restaurantId, userCookie), now);
    var (b2, db2) := CreateBookmark(db1, InsertBookmark(restaurantId, userCookie), later);
    var p := (b: Bookmark) => PairIs(b, restaurantId, userCookie);
    FilterAppend(db.bookmarks, [b1], p);
    FilterAppend(db1.bookmarks, [b2], p);
    assert Filter([b1], p) == [b1];
    assert Filter([b2], p) == [b2];
  }

  /** Delete after create: the pair is no longer bookmarked, even when it had
      been created more than once, and the delete reports success. */
  lemma CreateThenDeleteRoundTrip(db: Db, restaurantId: int, userCookie: string, now: Timestamp)
    ensures var db1 := CreateBookmark(db, InsertBookmark(restaurantId, userCookie), now).1;
            && DeleteBookmark(db1, restaurantId, userCookie).0
            && !IsBookmarked(DeleteBookmark(db1, restaurantId, userCookie).1, restaurantId, userCookie)
  {
    CreateThenIsBookmarked(db, restaurantId, userCookie, now);
  }

  // ---------------------------------------------------------------------
  // getBookmarksByUser(cookie)

  function BookmarkRestaurantId(b: Bookmark): int { b.restaurantId }

  /** The restaurant ids bookmarked by `userCookie`, duplicates included. */
  function BookmarkedIds(db: Db, userCookie: string): (ids: seq<int>)
    ensures forall id :: id in ids <==> exists b :: b in db.bookmarks && b.userCookie == userCookie && b.restaurantId == id
  {
    var mine := Filter(db.bookmarks, (b: Bookmark) => b.userCookie == userCookie);
    var ids := Keys(mine, BookmarkRestaurantId);
    assert forall b :: b in mine ==> b.restaurantId in ids by {
      forall b | b in mine ensures b.restaurantId in ids {
        var i :| 0 <= i < |mine| && mine[i] == b;
        assert ids[i] == b.restaurantId;
      }
    }
    assert forall id :: id in ids ==> exists b :: b in mine && b.restaurantId == id by {
      forall id | id in ids ensures exists b :: b in mine && b.restaurantId == id {
        var i :| 0 <= i < |ids| && ids[i] == id;
        assert mine[i] in mine;
      }
    }
    ids
  }

  /** The restaurants `userCookie` bookmarked, each with its SQL statistics
      and without `is_open`; bookmarks whose restaurant no longer exists are
      dropped. */
  function GetBookmarksByUser(db: Db, userCookie: string): (rows: seq<RestaurantWithStats>)
    ensures (forall b :: b in db.bookmarks ==> b.userCookie != userCookie) ==> rows == []
    ensures forall x :: x in db.restaurants ==>
              (Listed(x) in RowRestaurants(rows) <==>
               exists b :: b in db.bookmarks && b.userCookie == userCookie && b.restaurantId == x.id)
    ensures forall r :: r in RowRestaurants(rows) ==>
              exists x :: x in db.restaurants && r == Listed(x) &&
                          exists b :: b in db.bookmarks && b.userCookie == userCookie && b.restaurantId == x.id
    ensures forall i :: 0 <= i < |rows| ==> HasSqlStats(db, rows[i])
  {
    var ids := BookmarkedIds(db, userCookie);
    if |ids| == 0 then []
    else
      var keep := (x: Restaurant) => x.id in ids;
      ListingOfKept(db.restaurants, keep);
      WithSqlStatsAll(db, Filter(db.restaurants, keep))
  }

  /** Each bookmarked restaurant is listed once, however many bookmarks for
      it the user holds. */
  lemma BookmarkListHasNoDuplicates(db: Db, userCookie: string)
    requires Valid(db)
    ensures KeysDistinct(RowRestaurants(GetBookmarksByUser(db, userCookie)), RestaurantId)
  {
    var ids := BookmarkedIds(db, userCookie);
    if |ids| > 0 {
      var kept := Filter(db.restaurants, (x: Restaurant) => x.id in ids);
      FilterKeepsKeysDistinct(db.restaurants, (x: Restaurant) => x.id in ids, RestaurantId);
      ListedKeepsKeys(kept);
    }
  }

  /** A bookmark pointing at a missing restaurant contributes no row. */
  lemma DanglingBookmarkIsDropped(db: Db, b: Bookmark)
    requires b in db.bookmarks
    requires forall x :: x in db.restaurants ==> x.id != b.restaurantId
    ensures forall row :: row in GetBookmarksByUser(db, b.userCookie) ==> row.restaurant.id != b.restaurantId
  {
    var rows := GetBookmarksByUser(db, b.userCookie);
    forall row | row in rows ensures row.restaurant.id != b.restaurantId {
      var i :| 0 <= i < |rows| && rows[i] == row;
      assert RowRestaurants(rows)[i] == row.restaurant;
    }
  }

  // ---------------------------------------------------------------------
  // Writes that keep the foreign keys

  /** A new review for a stored restaurant keeps the foreign keys. */
  lemma CreateReviewKeepsReferences(db: Db, ins: InsertReview, now: Timestamp)
    requires ReferencesHold(db) && HasRestaurant(db, ins.restaurantId)
    ensures ReferencesHold(CreateReview(db, ins, now).1)
  {
    var db' := CreateReview(db, ins, now).1;
    forall rv | rv in db'.reviews ensures HasRestaurant(db', rv.restaurantId) {
      if rv !in db.reviews {
        assert rv.restaurantId == ins.restaurantId;
      }
    }
  }

  /** An update of a review keeps the foreign keys when the restaurant it
      may move the review to is stored. */
  lemma UpdateReviewKeepsReferences(db: Db, id: int, patch: ReviewPatch, newId: Option<int>, clearCreatedAt: bool,
                                    userCookie: string)
    requires ReferencesHold(db)
    requires patch.restaurantId.Some? ==> HasRestaurant(db, patch.restaurantId.value)
    ensures ReferencesHold(UpdateReviewColumns(db, id, patch, newId, clearCreatedAt, userCookie).1)
  {
    var db' := UpdateReviewColumns(db, id, patch, newId, clearCreatedAt, userCookie).1;
    forall rv | rv in db'.reviews ensures HasRestaurant(db', rv.restaurantId) {
      var i :| 0 <= i < |db'.reviews| && db'.reviews[i] == rv;
      assert db.reviews[i] in db.reviews;
    }
  }

  /** Deleting reviews keeps the foreign keys. */
  lemma DeleteReviewKeepsReferences(db: Db, id: int, userCookie: string)
    requires ReferencesHold(db)
    ensures ReferencesHold(DeleteReview(db, id, userCookie).1)
  {
    var db' := DeleteReview(db, id, userCookie).1;
    forall rv | rv in db'.reviews ensures HasRestaurant(db', rv.restaurantId) {
      assert multiset(db.reviews)[rv] > 0;
    }
  }

  /** A new bookmark of a stored restaurant keeps the foreign keys. */
  lemma CreateBookmarkKeepsReferences(db: Db, ins: InsertBookmark, now: Timestamp)
    requires ReferencesHold(db) && HasRestaurant(db, ins.restaurantId)
    ensures ReferencesHold(CreateBookmark(db, ins, now).1)
  {
    var db' := CreateBookmark(db, ins, now).1;
    forall b | b in db'.bookmarks ensures HasRestaurant(db', b.restaurantId) {
      if b !in db.bookmarks {
        assert b.restaurantId == ins.restaurantId;
      }
    }
  }

  /** Deleting bookmarks keeps the foreign keys. */
  lemma DeleteBookmarkKeepsReferences(db: Db, restaurantId: int, userCookie: string)
    requires ReferencesHold(db)
    ensures ReferencesHold(DeleteBookmark(db, restaurantId, userCookie).1)
  {
    var db' := DeleteBookmark(db, restaurantId, userCookie).1;
    forall b | b in db'.bookmarks ensures HasRestaurant(db', b.restaurantId) {
      assert multiset(db.bookmarks)[b] > 0;
    }
  }

  /** A new menu item of a stored restaurant keeps the foreign keys, under
      the sequence's key or one the body names. */
  lemma CreateMenuItemKeepsReferences(db: Db, ins: InsertMenuItem)
    requires ReferencesHold(db) && HasRestaurant(db, ins.restaurantId)
    ensures ReferencesHold(CreateMenuItem(db, ins).1)
    ensures forall id :: ReferencesHold(CreateMenuItemWithId(db, ins, id).1)
  {
    forall id ensures ReferencesHold(CreateMenuItemWithId(db, ins, id).1) {
      var db' := CreateMenuItemWithId(db, ins, id).1;
      forall m | m in db'.menuItems ensures HasRestaurant(db', m.restaurantId) {
        if m !in db.menuItems {
          assert m.restaurantId == ins.restaurantId;
        }
      }
    }
  }

  // ---------------------------------------------------------------------
  // Menu items

  const UnknownRestaurant := "Unknown Restaurant"

  function GetMenuItemsByRestaurant(db: Db, restaurantId: int): (r: seq<MenuItem>)
    ensures forall m :: multiset(r)[m] == if m.restaurantId == restaurantId then multiset(db.menuItems)[m] else 0
  {
    MenuItemsFor(db.menuItems, restaurantId)
  }

  /** `restaurant?.name || "Unknown Restaurant"`. */
  function RestaurantNameFor(db: Db, restaurantId: int): (name: string)
    ensures name == UnknownRestaurant ||
            exists x :: x in db.restaurants && x.id == restaurantId && x.name == name && name != ""
    ensures (forall x :: x in db.restaurants ==> x.id != restaurantId) ==> name == UnknownRestaurant
  {
    match FindRestaurant(db.restaurants, restaurantId)
    case Some(r) => if r.name != "" then r.name else UnknownRestaurant
    case None => UnknownRestaurant
  }

  function PopularMenuItems(items: seq<MenuItem>): (r: seq<MenuItem>)
    ensures forall m :: multiset(r)[m] == if m.isPopular == Some(true) then multiset(items)[m] else 0
  {
    Filter(items, (m: MenuItem) => m.isPopular == Some(true))
  }

  function PopularItemsOf(rows: seq<PopularMenuItem>): (r: seq<MenuItem>)
    ensures |r| == |rows|
    ensures forall i :: 0 <= i < |rows| ==> r[i] == rows[i].item
  {
    seq(|rows|, i requires 0 <= i < |rows| => rows[i].item)
  }

  /** The menu items flagged popular (a NULL flag is not popular), each with
      its restaurant's name or the fallback label. Never fails on a dangling
      restaurant id. */
  function GetPopularMenuItems(db: Db): (rows: seq<PopularMenuItem>)
    ensures forall m :: multiset(PopularItemsOf(rows))[m] == if m.isPopular == Some(true) then multiset(db.menuItems)[m] else 0
    ensures forall i :: 0 <= i < |rows| ==> rows[i].restaurantName == RestaurantNameFor(db, rows[i].item.restaurantId)
  {
    var items := PopularMenuItems(db.menuItems);
    var rows := seq(|items|, i requires 0 <= i < |items| =>
                      PopularMenuItem(items[i], RestaurantNameFor(db, items[i].restaurantId)));
    assert PopularItemsOf(rows) == items;
    rows
  }

  /** With unique restaurant ids, an existing parent with a non-empty name
      supplies exactly that name. */
  lemma PopularItemNamesItsParent(db: Db, x: Restaurant, restaurantId: int)
    requires Valid(db) && x in db.restaurants && x.id == restaurantId && x.name != ""
    ensures RestaurantNameFor(db, restaurantId) == x.name
  {
    FindRestaurantUnique(db.restaurants, x);
  }

  function CreateMenuItem(db: Db, ins: InsertMenuItem): (res: (MenuItem, Db))
    ensures res.0.id == db.serials.menuItem
    ensures MenuItemAsInsert(res.0) == ins.(isPopular := Some(ins.isPopular.GetOr(MenuItemIsPopularDefault)))
    ensures res.1 == db.(menuItems := db.menuItems + [res.0],
                         serials := db.serials.(menuItem := db.serials.menuItem + 1))
    ensures Valid(db) ==> Valid(res.1)
  {
    var m := CreateMenuItemWithId(db, ins, db.serials.menuItem).0;
    (m, db.(menuItems := db.menuItems + [m], serials := db.serials.(menuItem := db.serials.menuItem + 1)))
  }

  /** The insert of an item whose values name the primary key `id`: the row
      is stored under that key and the sequence is not drawn. The database
      stays valid only when the key is free and below the sequence. */
  function CreateMenuItemWithId(db: Db, ins: InsertMenuItem, id: int): (res: (MenuItem, Db))
    ensures res.0.id == id
    ensures MenuItemAsInsert(res.0) == ins.(isPopular := Some(ins.isPopular.GetOr(MenuItemIsPopularDefault)))
    ensures res.1 == db.(menuItems := db.menuItems + [res.0])
    ensures Valid(db) ==> (Valid(res.1) <==> MenuItemKeyFree(db, id) && id < db.serials.menuItem)
  {
    var m := MenuItem(id, ins.restaurantId, ins.name, ins.price, ins.description,
                      ins.imageUrl, Some(ins.isPopular.GetOr(MenuItemIsPopularDefault)));
    assert Valid(db) ==> (Table(db.menuItems + [m], MenuItemId, db.serials.menuItem)
                          <==> MenuItemKeyFree(db, id) && id < db.serials.menuItem) by {
      if Valid(db) {
        TableAppend(db.menuItems, m, MenuItemId, db.serials.menuItem);
      }
    }
    (m, db.(menuItems := db.menuItems + [m]))
  }

  function UpdateMenuItem(db: Db, id: int, patch: MenuItemPatch): (res: (Option<MenuItem>, Db))
    ensures res.0.None? <==> forall m :: m in db.menuItems ==> m.id != id
    ensures res.0.None? ==> res.1 == db
    ensures res.0.Some? ==> res.0.value.id == id && res.0.value in res.1.menuItems
    ensures |res.1.menuItems| == |db.menuItems|
    ensures forall i :: 0 <= i < |db.menuItems| && db.menuItems[i].id != id ==>
              res.1.menuItems[i] == db.menuItems[i]
    ensures forall i :: 0 <= i < |db.menuItems| && db.menuItems[i].id == id ==>
              res.1.menuItems[i] == ApplyMenuItemPatch(db.menuItems[i], patch)
    ensures res.1 == db.(menuItems := res.1.menuItems)
    ensures Valid(db) ==> Valid(res.1)
  {
    var ms := db.menuItems;
    var updated := seq(|ms|, i requires 0 <= i < |ms| =>
                         if ms[i].id == id then ApplyMenuItemPatch(ms[i], patch) else ms[i]);
    var k := FindIndex(ms, (m: MenuItem) => m.id == id);
    if k == -1 then (None, db) else (Some(updated[k]), db.(menuItems := updated))
  }

  function DeleteMenuItem(db: Db, id: int): (res: (bool, Db))
    ensures res.0 <==> exists m :: m in db.menuItems && m.id == id
    ensures forall m :: m in res.1.menuItems ==> m.id != id
    ensures forall m: MenuItem :: m.id != id ==> multiset(res.1.menuItems)[m] == multiset(db.menuItems)[m]
    ensures res.1 == db.(menuItems := res.1.menuItems)
    ensures Valid(db) ==> Valid(res.1)
  {
    var deleted := Filter(db.menuItems, (m: MenuItem) => m.id == id);
    var kept := Filter(db.menuItems, (m: MenuItem) => m.id != id);
    FilterKeepsKeysDistinct(db.menuItems, (m: MenuItem) => m.id != id, MenuItemId);
    FilterKeepsKeysBelow(db.menuItems, (m: MenuItem) => m.id != id, MenuItemId, db.serials.menuItem);
    assert |deleted| > 0 ==> deleted[0] in deleted;
    (|deleted| > 0, db.(menuItems := kept))
  }
}
