/** Record shapes of the four tables (restaurants, reviews, bookmarks,
    menu items), the insert shapes that omit store-assigned columns, the
    partial-update shapes, and the derived read shapes `RestaurantWithStats`
    and `RestaurantWithDetails`.

    Nullable columns are `Option`s. Columns with a database default
    (`is_open` true, `is_popular` false, `created_at` now) are nullable in the
    selected row type, so they are `Option`s as well. */
module Schema {
  import opened Wrappers

  /** A point in time supplied by the caller: the clock is not modelled. */
  type Timestamp = int

  /** The range of Postgres `integer` (and `serial`) columns: a value outside
      it makes the statement that binds it fail. */
  const Int32Min := -0x8000_0000
  const Int32Max := 0x7FFF_FFFF

  predicate IsInt32(n: int) {
    Int32Min <= n <= Int32Max
  }

  const RestaurantIsOpenDefault := true
  const MenuItemIsPopularDefault := false

  datatype Restaurant = Restaurant(
    id: int,
    name: string,
    genre: string,
    address: string,
    phone: Option<string>,
    description: Option<string>,
    imageUrl: Option<string>,
    latitude: Option<real>,
    longitude: Option<real>,
    hours: Option<string>,
    priceRange: Option<string>,
    features: Option<seq<string>>,
    isOpen: Option<bool>,
    createdAt: Option<Timestamp>)

  datatype Review = Review(
    id: int,
    restaurantId: int,
    userCookie: string,
    nickname: string,
    rating: int,
    comment: Option<string>,
    createdAt: Option<Timestamp>)

  /** Nothing in the shape makes (restaurantId, userCookie) unique. */
  datatype Bookmark = Bookmark(
    id: int,
    restaurantId: int,
    userCookie: string,
    createdAt: Option<Timestamp>)

  datatype MenuItem = MenuItem(
    id: int,
    restaurantId: int,
    name: string,
    price: int,
    description: Option<string>,
    imageUrl: Option<string>,
    isPopular: Option<bool>)

  /** Insert shapes: `id` and `createdAt` are assigned by the store.
      An omitted optional field is `None`. */
  datatype InsertRestaurant = InsertRestaurant(
    name: string,
    genre: string,
    address: string,
    phone: Option<string>,
    description: Option<string>,
    imageUrl: Option<string>,
    latitude: Option<real>,
    longitude: Option<real>,
    hours: Option<string>,
    priceRange: Option<string>,
    features: Option<seq<string>>,
    isOpen: Option<bool>)

  datatype InsertReview = InsertReview(
    restaurantId: int,
    userCookie: string,
    nickname: string,
    rating: int,
    comment: Option<string>)

  datatype InsertBookmark = InsertBookmark(restaurantId: int, userCookie: string)

  /** The menu-item insert shape omits only `id` (the table has no `createdAt`). */
  datatype InsertMenuItem = InsertMenuItem(
    restaurantId: int,
    name: string,
    price: int,
    description: Option<string>,
    imageUrl: Option<string>,
    isPopular: Option<bool>)

  /** `Partial<Insert…>`: an outer `None` leaves the column as it is; for a
      nullable column `Some(None)` sets it to null. */
  datatype RestaurantPatch = RestaurantPatch(
    name: Option<string>,
    genre: Option<string>,
    address: Option<string>,
    phone: Option<Option<string>>,
    description: Option<Option<string>>,
    imageUrl: Option<Option<string>>,
    latitude: Option<Option<real>>,
    longitude: Option<Option<real>>,
    hours: Option<Option<string>>,
    priceRange: Option<Option<string>>,
    features: Option<Option<seq<string>>>,
    isOpen: Option<Option<bool>>)

  datatype ReviewPatch = ReviewPatch(
    restaurantId: Option<int>,
    userCookie: Option<string>,
    nickname: Option<string>,
    rating: Option<int>,
    comment: Option<Option<string>>)

  datatype MenuItemPatch = MenuItemPatch(
    restaurantId: Option<int>,
    name: Option<string>,
    price: Option<int>,
    description: Option<Option<string>>,
    imageUrl: Option<Option<string>>,
    isPopular: Option<Option<bool>>)

  /** A restaurant with its review statistics. `averageRating` is `None`
      where SQL `avg` over no rows yields NULL. */
  datatype RestaurantWithStats = RestaurantWithStats(
    restaurant: Restaurant,
    averageRating: Option<real>,
    reviewCount: nat,
    distance: Option<real>,
    isBookmarked: Option<bool>)

  datatype RestaurantWithDetails = RestaurantWithDetails(
    summary: RestaurantWithStats,
    reviews: seq<Review>,
    menuItems: seq<MenuItem>)

  /** The optional list filters of `getRestaurants`. */
  datatype Filters = Filters(genre: Option<string>, search: Option<string>)

  /** A popular menu item together with its restaurant's display name. */
  datatype PopularMenuItem = PopularMenuItem(item: MenuItem, restaurantName: string)

  const EmptyRestaurantPatch := RestaurantPatch(None, None, None, None, None, None, None, None, None, None, None, None)
  const EmptyReviewPatch := ReviewPatch(None, None, None, None, None)
  const EmptyMenuItemPatch := MenuItemPatch(None, None, None, None, None, None)

  // ---------------------------------------------------------------------
  // Projections back to the insert shapes

  function RestaurantAsInsert(r: Restaurant): InsertRestaurant {
    InsertRestaurant(r.name, r.genre, r.address, r.phone, r.description, r.imageUrl,
                     r.latitude, r.longitude, r.hours, r.priceRange, r.features, r.isOpen)
  }

  function ReviewAsInsert(r: Review): InsertReview {
    InsertReview(r.restaurantId, r.userCookie, r.nickname, r.rating, r.comment)
  }

  function BookmarkAsInsert(b: Bookmark): InsertBookmark {
    InsertBookmark(b.restaurantId, b.userCookie)
  }

  function MenuItemAsInsert(m: MenuItem): InsertMenuItem {
    InsertMenuItem(m.restaurantId, m.name, m.price, m.description, m.imageUrl, m.isPopular)
  }

  // ---------------------------------------------------------------------
  // Merging a partial update into a stored record (object spread / SQL SET)

  function ApplyRestaurantPatch(r: Restaurant, p: RestaurantPatch): Restaurant {
    r.(name := p.name.GetOr(r.name),
       genre := p.genre.GetOr(r.genre),
       address := p.address.GetOr(r.address),
       phone := p.phone.GetOr(r.phone),
       description := p.description.GetOr(r.description),
       imageUrl := p.imageUrl.GetOr(r.imageUrl),
       latitude := p.latitude.GetOr(r.latitude),
       longitude := p.longitude.GetOr(r.longitude),
       hours := p.hours.GetOr(r.hours),
       priceRange := p.priceRange.GetOr(r.priceRange),
       features := p.features.GetOr(r.features),
       isOpen := p.isOpen.GetOr(r.isOpen))
  }

  function ApplyReviewPatch(r: Review, p: ReviewPatch): Review {
    r.(restaurantId := p.restaurantId.GetOr(r.restaurantId),
       userCookie := p.userCookie.GetOr(r.userCookie),
       nickname := p.nickname.GetOr(r.nickname),
       rating := p.rating.GetOr(r.rating),
       comment := p.comment.GetOr(r.comment))
  }

  function ApplyMenuItemPatch(m: MenuItem, p: MenuItemPatch): MenuItem {
    m.(restaurantId := p.restaurantId.GetOr(m.restaurantId),
       name := p.name.GetOr(m.name),
       price := p.price.GetOr(m.price),
       description := p.description.GetOr(m.description),
       imageUrl := p.imageUrl.GetOr(m.imageUrl),
       isPopular := p.isPopular.GetOr(m.isPopular))
  }

  /** A patch never touches the store-assigned columns; the empty patch is
      the identity, and applying the same patch twice is applying it once. */
  lemma RestaurantPatchLaws(r: Restaurant, p: RestaurantPatch)
    ensures ApplyRestaurantPatch(r, p).id == r.id
    ensures ApplyRestaurantPatch(r, p).createdAt == r.createdAt
    ensures ApplyRestaurantPatch(r, EmptyRestaurantPatch) == r
    ensures ApplyRestaurantPatch(ApplyRestaurantPatch(r, p), p) == ApplyRestaurantPatch(r, p)
  {
  }

  lemma ReviewPatchLaws(r: Review, p: ReviewPatch)
    ensures ApplyReviewPatch(r, p).id == r.id
    ensures ApplyReviewPatch(r, p).createdAt == r.createdAt
    ensures ApplyReviewPatch(r, EmptyReviewPatch) == r
    ensures ApplyReviewPatch(ApplyReviewPatch(r, p), p) == ApplyReviewPatch(r, p)
  {
  }

  lemma MenuItemPatchLaws(m: MenuItem, p: MenuItemPatch)
    ensures ApplyMenuItemPatch(m, p).id == m.id
    ensures ApplyMenuItemPatch(m, EmptyMenuItemPatch) == m
    ensures ApplyMenuItemPatch(ApplyMenuItemPatch(m, p), p) == ApplyMenuItemPatch(m, p)
  {
  }

  // Key projections, passed to the generic sequence helpers.
  function RestaurantId(r: Restaurant): int { r.id }
  function ReviewId(r: Review): int { r.id }
  function BookmarkId(b: Bookmark): int { b.id }
  function MenuItemId(m: MenuItem): int { m.id }
}
