/** The HTTP handlers, split into two pure decisions: `Route` decides from
    the request alone whether to answer at once (missing token, invalid body)
    or which storage call to make, with which arguments; `Finish` maps that
    call's result, or its exception, to a status and body. `Serve` runs the
    two around the relational backend. */
module Api {
  import opened Wrappers
  import opened Schema
  import Db = DrizzleStorage

  /** The `x-user-cookie` header, kept only when it passes `if (!userCookie)`. */
  function UserCookie(header: Option<string>): (c: Option<string>)
    ensures c.Some? <==> header.Some? && header.value != ""
    ensures c.Some? ==> c == header
  {
    if header.Some? && header.value != "" then header else None
  }

  /** The request bodies the insert schemas parse: a field is `None` when it
      is missing (or is not of the type the schema expects). */
  datatype ReviewBody = ReviewBody(
    restaurantId: Option<int>, userCookie: Option<string>, nickname: Option<string>,
    rating: Option<int>, comment: Option<string>)

  /** The PUT /api/reviews/:id body, handed to `updateReview` unvalidated:
      Drizzle's `.set()` writes every column key it carries, so besides the
      insert fields it may name the primary key `id` and `createdAt` (`null`
      clears it; any JSON string makes the timestamp encoder throw). */
  datatype ReviewPutBody = ReviewPutBody(fields: ReviewPatch, id: Option<int>, createdAt: Option<Option<string>>)

  datatype BookmarkBody = BookmarkBody(restaurantId: Option<int>, userCookie: Option<string>)

  /** A column of an unvalidated body as the insert binds it: absent (the
      column takes its default, drawing the sequence for a `serial` key),
      `null`, a value Postgres reads as the column's type (a JSON number, or
      a numeric string such as "100", for an integer column), or a value it
      cannot read, which fails the statement when it is bound. */
  datatype Column<T> = Absent | Null | Given(value: T) | Unreadable

  /** The POST /api/restaurants/:id/menu-items body, handed to
      `createMenuItem` unvalidated: `insert().values()` writes every column
      key it carries, the primary key `id` included. `name` is `None` when it
      is absent or `null`. */
  datatype MenuItemBody = MenuItemBody(
    id: Column<int>, restaurantId: Option<int>, name: Option<string>, price: Column<int>,
    description: Option<string>, imageUrl: Option<string>, isPopular: Option<bool>)

  /** One constructor per route; `cookie` is the raw header, `id` the parsed path id. */
  datatype Request =
    | ListRestaurants(filters: Filters)
    | ShowRestaurant(id: int)
    | PostReview(cookie: Option<string>, review: ReviewBody)
    | ListUserReviews(cookie: Option<string>)
    | PutReview(cookie: Option<string>, id: int, body: ReviewPutBody)
    | DeleteReview(cookie: Option<string>, id: int)
    | ListBookmarks(cookie: Option<string>)
    | PostBookmark(cookie: Option<string>, bookmark: BookmarkBody)
    | DeleteBookmark(cookie: Option<string>, id: int)
    | CheckBookmark(cookie: Option<string>, id: int)
    | PopularMenuItems
    | ListMenuItems(id: int)
    | PostMenuItem(cookie: Option<string>, id: int, menuItem: MenuItemBody)
    | PostRestaurant(cookie: Option<string>)

  /** A call into the storage interface, with the arguments the handler passes. */
  datatype Call =
    | GetRestaurantsCall(filters: Filters)
    | GetRestaurantCall(id: int)
    | CreateReviewCall(review: InsertReview)
    | GetReviewsByUserCall(userCookie: string)
    | UpdateReviewCall(id: int, body: ReviewPutBody, userCookie: string)
    | DeleteReviewCall(id: int, userCookie: string)
    | GetBookmarksByUserCall(userCookie: string)
    | CreateBookmarkCall(bookmark: InsertBookmark)
    | DeleteBookmarkCall(restaurantId: int, userCookie: string)
    | IsBookmarkedCall(restaurantId: int, userCookie: string)
    | GetPopularMenuItemsCall
    | GetMenuItemsByRestaurantCall(restaurantId: int)
    | CreateMenuItemCall(menuItem: MenuItemBody)

  /** What a storage call returned, or that it threw. */
  datatype Outcome =
    | RestaurantRows(rows: seq<RestaurantWithStats>)
    | Details(details: Option<RestaurantWithDetails>)
    | ReviewRow(review: Review)
    | ReviewRows(reviews: seq<Review>)
    | MaybeReview(maybe: Option<Review>)
    | Flag(flag: bool)
    | BookmarkRow(bookmark: Bookmark)
    | PopularRows(popular: seq<PopularMenuItem>)
    | MenuItemRows(items: seq<MenuItem>)
    | MenuItemRow(item: MenuItem)
    | Threw

  datatype Body =
    | ErrorBody(message: string)
    | SuccessBody(success: bool)
    | CheckBody(isBookmarked: bool)
    | Payload(outcome: Outcome)

  datatype Response = Response(status: int, body: Body)

  datatype Plan = Respond(response: Response) | Invoke(call: Call)

  const CookieRequired := Response(400, ErrorBody("User cookie required"))
  const Unauthorized := Response(401, ErrorBody("Unauthorized"))
  const InvalidReview := Response(400, ErrorBody("Invalid review data"))
  const InvalidBookmark := Response(400, ErrorBody("Invalid bookmark data"))
  const InvalidRestaurant := Response(400, ErrorBody("Invalid restaurant data"))

  /** The review and bookmark routes, which answer 400 without a token. */
  predicate CookieGated(req: Request) {
    req.PostReview? || req.ListUserReviews? || req.PutReview? || req.DeleteReview?
    || req.ListBookmarks? || req.PostBookmark? || req.DeleteBookmark? || req.CheckBookmark?
  }

  /** The listing routes, which answer 401 without a token. */
  predicate TokenGated(req: Request) {
    req.PostMenuItem? || req.PostRestaurant?
  }

  /** `insertReviewSchema.parse({...body, userCookie})`. */
  function ParseReview(body: ReviewBody, userCookie: string): Option<InsertReview> {
    if body.restaurantId.Some? && body.nickname.Some? && body.rating.Some? then
      Some(InsertReview(body.restaurantId.value, userCookie, body.nickname.value, body.rating.value, body.comment))
    else None
  }

  /** `insertBookmarkSchema.parse({...body, userCookie})`. */
  function ParseBookmark(body: BookmarkBody, userCookie: string): Option<InsertBookmark> {
    if body.restaurantId.Some? then Some(InsertBookmark(body.restaurantId.value, userCookie)) else None
  }

  /** The handler up to its storage call. POST /api/restaurants calls
      `createRestaurantWithMenus`, which no storage class defines; the call
      throws and the handler answers 400. */
  function Route(req: Request): (plan: Plan)
    ensures CookieGated(req) && UserCookie(req.cookie).None? ==> plan == Respond(CookieRequired)
    ensures TokenGated(req) && UserCookie(req.cookie).None? ==> plan == Respond(Unauthorized)
    ensures plan.Invoke? && (CookieGated(req) || TokenGated(req)) ==> UserCookie(req.cookie).Some?
    ensures plan.Invoke? && plan.call.CreateReviewCall? ==>
              req.PostReview? && plan.call.review.userCookie == req.cookie.value
    ensures plan.Invoke? && plan.call.CreateBookmarkCall? ==>
              req.PostBookmark? && plan.call.bookmark.userCookie == req.cookie.value
    ensures plan.Invoke? && plan.call.CreateMenuItemCall? ==>
              req.PostMenuItem? && plan.call.menuItem.restaurantId == Some(req.id)
    ensures req.PostRestaurant? ==> plan.Respond? && plan.response.status != 201
  {
    match req
    case ListRestaurants(f) => Invoke(GetRestaurantsCall(f))
    case ShowRestaurant(id) => Invoke(GetRestaurantCall(id))
    case PopularMenuItems => Invoke(GetPopularMenuItemsCall)
    case ListMenuItems(id) => Invoke(GetMenuItemsByRestaurantCall(id))
    case PostMenuItem(cookie, id, body) =>
      if UserCookie(cookie).None? then Respond(Unauthorized)
      else Invoke(CreateMenuItemCall(body.(restaurantId := Some(id))))
    case PostRestaurant(cookie) =>
      if UserCookie(cookie).None? then Respond(Unauthorized) else Respond(InvalidRestaurant)
    case _ =>
      match UserCookie(req.cookie)
      case None => Respond(CookieRequired)
      case Some(c) =>
        match req
        case PostReview(_, body) =>
          (match ParseReview(body, c)
           case None => Respond(InvalidReview)
           case Some(ins) => Invoke(CreateReviewCall(ins)))
        case ListUserReviews(_) => Invoke(GetReviewsByUserCall(c))
        case PutReview(_, id, body) => Invoke(UpdateReviewCall(id, body, c))
        case DeleteReview(_, id) => Invoke(DeleteReviewCall(id, c))
        case ListBookmarks(_) => Invoke(GetBookmarksByUserCall(c))
        case PostBookmark(_, body) =>
          (match ParseBookmark(body, c)
           case None => Respond(InvalidBookmark)
           case Some(ins) => Invoke(CreateBookmarkCall(ins)))
        case DeleteBookmark(_, rid) => Invoke(DeleteBookmarkCall(rid, c))
        case CheckBookmark(_, rid) => Invoke(IsBookmarkedCall(rid, c))
  }

  /** The `catch` branch of each handler. */
  function CatchResponse(req: Request): Response {
    match req
    case ListRestaurants(_) => Response(500, ErrorBody("Failed to fetch restaurants"))
    case ShowRestaurant(_) => Response(500, ErrorBody("Failed to fetch restaurant"))
    case PostReview(_, _) => InvalidReview
    case ListUserReviews(_) => Response(500, ErrorBody("Failed to fetch user reviews"))
    case PutReview(_, _, _) => Response(400, ErrorBody("Failed to update review"))
    case DeleteReview(_, _) => Response(500, ErrorBody("Failed to delete review"))
    case ListBookmarks(_) => Response(500, ErrorBody("Failed to fetch bookmarks"))
    case PostBookmark(_, _) => InvalidBookmark
    case DeleteBookmark(_, _) => Response(500, ErrorBody("Failed to delete bookmark"))
    case CheckBookmark(_, _) => Response(500, ErrorBody("Failed to check bookmark status"))
    case PopularMenuItems => Response(500, ErrorBody("Failed to fetch popular menu items"))
    case ListMenuItems(_) => Response(500, ErrorBody("Failed to fetch menu items"))
    case PostMenuItem(_, _, _) => Response(400, ErrorBody("Invalid menu item data"))
    case PostRestaurant(_) => InvalidRestaurant
  }

  /** The handler after its storage call returned `o`. */
  function Finish(req: Request, o: Outcome): (resp: Response)
    ensures o.Threw? ==> resp.status == 400 || resp.status == 500
    ensures req.ShowRestaurant? && o == Details(None) ==> resp.status == 404
    ensures req.ShowRestaurant? && o.Details? && o.details.Some? ==> resp == Response(200, Payload(o))
    ensures req.PutReview? && o == MaybeReview(None) ==> resp.status == 404
    ensures req.PutReview? && o.MaybeReview? && o.maybe.Some? ==> resp == Response(200, Payload(o))
    ensures req.DeleteReview? && o == Flag(false) ==> resp.status == 404
    ensures req.DeleteReview? && o == Flag(true) ==> resp == Response(200, SuccessBody(true))
    ensures req.DeleteBookmark? && o.Flag? ==> resp == Response(200, SuccessBody(o.flag))
    ensures req.CheckBookmark? && o.Flag? ==> resp == Response(200, CheckBody(o.flag))
    ensures req.PostMenuItem? && o.MenuItemRow? ==> resp.status == 201
  {
    if o.Threw? then CatchResponse(req)
    else
      match req
      case ShowRestaurant(_) =>
        if o.Details? && o.details.None? then Response(404, ErrorBody("Restaurant not found"))
        else Response(200, Payload(o))
      case PutReview(_, _, _) =>
        if o.MaybeReview? && o.maybe.None? then Response(404, ErrorBody("Review not found or unauthorized"))
        else Response(200, Payload(o))
      case DeleteReview(_, _) =>
        if o.Flag? && !o.flag then Response(404, ErrorBody("Review not found or unauthorized"))
        else Response(200, SuccessBody(true))
      case DeleteBookmark(_, _) =>
        Response(200, SuccessBody(o.Flag? && o.flag))
      case CheckBookmark(_, _) =>
        Response(200, CheckBody(o.Flag? && o.flag))
      case PostMenuItem(_, _, _) => Response(201, Payload(o))
      case _ => Response(200, Payload(o))
  }

  // ---------------------------------------------------------------------
  // Running a call against the relational backend

  /** An integer column of an unvalidated body that binds: it is readable
      and, when given, in 32-bit range. */
  predicate Binds(c: Column<int>) {
    !c.Unreadable? && (c.Given? ==> IsInt32(c.value))
  }

  /** Every value the call binds is one its 32-bit column or parameter can
      read; Postgres rejects the statement at bind time otherwise, before
      any default is evaluated. */
  predicate ArgumentsFit(call: Call) {
    match call
    case GetRestaurantCall(id) => IsInt32(id)
    case CreateReviewCall(ins) => IsInt32(ins.restaurantId) && IsInt32(ins.rating)
    case UpdateReviewCall(id, body, _) =>
      && IsInt32(id)
      && (body.fields.restaurantId.Some? ==> IsInt32(body.fields.restaurantId.value))
      && (body.fields.rating.Some? ==> IsInt32(body.fields.rating.value))
      && (body.id.Some? ==> IsInt32(body.id.value))
    case DeleteReviewCall(id, _) => IsInt32(id)
    case CreateBookmarkCall(ins) => IsInt32(ins.restaurantId)
    case DeleteBookmarkCall(rid, _) => IsInt32(rid)
    case IsBookmarkedCall(rid, _) => IsInt32(rid)
    case GetMenuItemsByRestaurantCall(rid) => IsInt32(rid)
    case CreateMenuItemCall(body) =>
      && (body.restaurantId.Some? ==> IsInt32(body.restaurantId.value))
      && Binds(body.price) && Binds(body.id)
    case _ => true
  }

  /** The `restaurant_id` a written row would carry names a stored
      restaurant. The foreign keys are checked on the rows actually written,
      so an update that matches no row passes. */
  predicate ReferencesExist(db: Db.Db, call: Call) {
    match call
    case CreateReviewCall(ins) => Db.HasRestaurant(db, ins.restaurantId)
    case UpdateReviewCall(id, body, c) =>
      MatchesReview(db, id, c) && body.fields.restaurantId.Some?
      ==> Db.HasRestaurant(db, body.fields.restaurantId.value)
    case CreateBookmarkCall(ins) => Db.HasRestaurant(db, ins.restaurantId)
    case CreateMenuItemCall(body) => body.restaurantId.Some? ==> Db.HasRestaurant(db, body.restaurantId.value)
    case _ => true
  }

  /** Some review has id `id` and belongs to `c`: the PUT's `WHERE` matches. */
  predicate MatchesReview(db: Db.Db, id: int, c: string) {
    exists rv :: rv in db.reviews && Db.OwnedBy(rv, id, c)
  }

  /** The body's `createdAt` is a string, which the timestamp column's
      encoder cannot take. */
  predicate CreatedAtIsString(body: ReviewPutBody) {
    body.createdAt.Some? && body.createdAt.value.Some?
  }

  /** The body re-keys the matched review to an id another review holds,
      which the primary key refuses. */
  predicate KeyClash(db: Db.Db, id: int, body: ReviewPutBody, c: string) {
    && body.id.Some?
    && MatchesReview(db, id, c)
    && exists rv :: rv in db.reviews && rv.id == body.id.value && !Db.OwnedBy(rv, id, c)
  }

  /** The key an insert writes is already stored: the body's `id` when it
      names one, otherwise the value the table's sequence hands out. */
  predicate InsertKeyTaken(db: Db.Db, call: Call) {
    match call
    case CreateReviewCall(_) => !Db.ReviewKeyFree(db, db.serials.review)
    case CreateBookmarkCall(_) => !Db.BookmarkKeyFree(db, db.serials.bookmark)
    case CreateMenuItemCall(body) =>
      !Db.MenuItemKeyFree(db, if body.id.Given? then body.id.value else db.serials.menuItem)
    case _ => false
  }

  /** The call's statement fails: a value that does not bind, a foreign key
      naming no restaurant, a primary key already taken, a PUT body that the
      timestamp encoder refuses, or a menu item whose `restaurantId`,
      `name`, `price` or `id` is null. */
  predicate Refused(db: Db.Db, call: Call) {
    || !ArgumentsFit(call)
    || !ReferencesExist(db, call)
    || InsertKeyTaken(db, call)
    || (match call
        case UpdateReviewCall(id, body, c) => CreatedAtIsString(body) || KeyClash(db, id, body, c)
        case CreateMenuItemCall(body) =>
          body.restaurantId.None? || body.name.None? || !body.price.Given? || body.id.Null?
        case _ => false)
  }

  /** The insert takes its key from the table's sequence. */
  predicate DrawsSerial(call: Call) {
    || call.CreateReviewCall?
    || call.CreateBookmarkCall?
    || (call.CreateMenuItemCall? && call.menuItem.id.Absent?)
  }

  /** The sequences once the call's statement has bound: `nextval` is
      evaluated for an insert's defaulted key before any constraint is
      checked, and a failed statement does not give the value back. */
  function Drawn(s: Db.Serials, call: Call): Db.Serials {
    if !DrawsSerial(call) then s
    else
      match call
      case CreateReviewCall(_) => s.(review := s.review + 1)
      case CreateBookmarkCall(_) => s.(bookmark := s.bookmark + 1)
      case _ => s.(menuItem := s.menuItem + 1)
  }

  /** The storage call against the relational backend. A refused statement
      throws and writes no row; the sequences have advanced by the inserts
      that drew from them whenever the statement got past binding, whether
      it then succeeded or failed. */
  function Execute(db: Db.Db, call: Call, now: Timestamp, lower: string -> string): (r: (Outcome, Db.Db))
    ensures r.0.Threw? <==> Refused(db, call)
    ensures r.0.Threw? ==> r.1 == db.(serials := r.1.serials)
    ensures r.1.serials == if ArgumentsFit(call) then Drawn(db.serials, call) else db.serials
  {
    if !ArgumentsFit(call) then (Threw, db)
    else if Refused(db, call) then (Threw, db.(serials := Drawn(db.serials, call)))
    else
      match call
      case GetRestaurantsCall(f) => (RestaurantRows(Db.GetRestaurants(db, f, lower)), db)
      case GetRestaurantCall(id) => (Details(Db.GetRestaurant(db, id)), db)
      case CreateReviewCall(ins) => var (r, db') := Db.CreateReview(db, ins, now); (ReviewRow(r), db')
      case GetReviewsByUserCall(c) => (ReviewRows(Db.GetReviewsByUser(db, c)), db)
      case UpdateReviewCall(id, body, c) =>
        var (r, db') := Db.UpdateReviewColumns(db, id, body.fields, body.id, body.createdAt == Some(None), c);
        (MaybeReview(r), db')
      case DeleteReviewCall(id, c) => var (ok, db') := Db.DeleteReview(db, id, c); (Flag(ok), db')
      case GetBookmarksByUserCall(c) => (RestaurantRows(Db.GetBookmarksByUser(db, c)), db)
      case CreateBookmarkCall(ins) => var (b, db') := Db.CreateBookmark(db, ins, now); (BookmarkRow(b), db')
      case DeleteBookmarkCall(rid, c) => var (ok, db') := Db.DeleteBookmark(db, rid, c); (Flag(ok), db')
      case IsBookmarkedCall(rid, c) => (Flag(Db.IsBookmarked(db, rid, c)), db)
      case GetPopularMenuItemsCall => (PopularRows(Db.GetPopularMenuItems(db)), db)
      case GetMenuItemsByRestaurantCall(rid) => (MenuItemRows(Db.GetMenuItemsByRestaurant(db, rid)), db)
      case CreateMenuItemCall(body) =>
        var ins := InsertMenuItem(body.restaurantId.value, body.name.value, body.price.value,
                                  body.description, body.imageUrl, body.isPopular);
        var (m, db') := if body.id.Given? then Db.CreateMenuItemWithId(db, ins, body.id.value)
                        else Db.CreateMenuItem(db, ins);
        (MenuItemRow(m), db')
  }

  /** One request against the relational backend: the response and the
      database afterwards. */
  function Serve(req: Request, db: Db.Db, now: Timestamp, lower: string -> string): (Response, Db.Db) {
    match Route(req)
    case Respond(resp) => (resp, db)
    case Invoke(call) =>
      var (o, db') := Execute(db, call, now, lower);
      (Finish(req, o), db')
  }

  /** A storage call that Postgres accepts never leaves a review, bookmark
      or menu item pointing at a missing restaurant. */
  lemma ExecuteKeepsReferences(db: Db.Db, call: Call, now: Timestamp, lower: string -> string)
    requires Db.ReferencesHold(db)
    ensures Db.ReferencesHold(Execute(db, call, now, lower).1)
  {
    if !Refused(db, call) {
      match call
      case CreateReviewCall(ins) => Db.CreateReviewKeepsReferences(db, ins, now);
      case UpdateReviewCall(id, body, c) =>
        if MatchesReview(db, id, c) {
          Db.UpdateReviewKeepsReferences(db, id, body.fields, body.id, body.createdAt == Some(None), c);
        }
      case DeleteReviewCall(id, c) => Db.DeleteReviewKeepsReferences(db, id, c);
      case CreateBookmarkCall(ins) => Db.CreateBookmarkKeepsReferences(db, ins, now);
      case DeleteBookmarkCall(rid, c) => Db.DeleteBookmarkKeepsReferences(db, rid, c);
      case CreateMenuItemCall(body) =>
        var ins := InsertMenuItem(body.restaurantId.value, body.name.value, body.price.value,
                                  body.description, body.imageUrl, body.isPopular);
        Db.CreateMenuItemKeepsReferences(db, ins);
      case _ =>
    }
  }

  /** No request leaves a dangling reference behind: the foreign keys hold
      after every request when they held before it. */
  lemma ServeKeepsReferences(req: Request, db: Db.Db, now: Timestamp, lower: string -> string)
    requires Db.ReferencesHold(db)
    ensures Db.ReferencesHold(Serve(req, db, now, lower).1)
  {
    match Route(req)
    case Respond(_) =>
    case Invoke(call) => ExecuteKeepsReferences(db, call, now, lower);
  }

  /** Without a token a gated route answers before touching storage. */
  lemma MissingTokenLeavesStoreAlone(req: Request, db: Db.Db, now: Timestamp, lower: string -> string)
    requires CookieGated(req) || TokenGated(req)
    requires UserCookie(req.cookie).None?
    ensures Serve(req, db, now, lower).1 == db
    ensures Serve(req, db, now, lower).0.status == (if CookieGated(req) then 400 else 401)
  {
  }

  /** PUT /api/reviews/:id with someone else's token changes nothing: a 404
      unless the statement is refused for its values (then a 400). */
  lemma ForeignTokenCannotUpdateReview(db: Db.Db, rv: Review, body: ReviewPutBody, token: string, now: Timestamp, lower: string -> string)
    requires Db.Valid(db) && rv in db.reviews
    requires token != "" && token != rv.userCookie
    ensures Serve(PutReview(Some(token), rv.id, body), db, now, lower).0.status
            == if ArgumentsFit(UpdateReviewCall(rv.id, body, token)) && !CreatedAtIsString(body) then 404 else 400
    ensures Serve(PutReview(Some(token), rv.id, body), db, now, lower).1 == db
  {
    Db.UpdateByAnotherCookieFails(db, rv, body.fields, token);
    assert !MatchesReview(db, rv.id, token);
  }

  /** The owner's PUT whose body carries only insert fields updates the
      review exactly as the typed `updateReview` does, and answers 200. */
  lemma OwnerPutAppliesPatch(db: Db.Db, rv: Review, patch: ReviewPatch, now: Timestamp, lower: string -> string)
    requires rv in db.reviews && rv.userCookie != ""
    requires ArgumentsFit(UpdateReviewCall(rv.id, ReviewPutBody(patch, None, None), rv.userCookie))
    requires patch.restaurantId.Some? ==> Db.HasRestaurant(db, patch.restaurantId.value)
    ensures var (resp, db') := Serve(PutReview(Some(rv.userCookie), rv.id, ReviewPutBody(patch, None, None)), db, now, lower);
            && resp.status == 200
            && db' == Db.UpdateReview(db, rv.id, patch, rv.userCookie).1
  {
    assert MatchesReview(db, rv.id, rv.userCookie);
  }

  /** As written, a PUT body naming `id` re-keys the review: review 1 of a
      database whose review sequence stands at 2 becomes review 2, the id the
      sequence hands out next, so the key invariant breaks and the review no
      longer answers at /api/reviews/1. */
  lemma PutWithBodyIdRekeysReview()
    ensures var x := Restaurant(1, "ramen ya", "ramen", "1-1 Chuo", None, None, None,
                                None, None, None, None, None, Some(true), None);
            var rv := Review(1, 1, "cookie", "nick", 4, None, Some(0));
            var db := Db.Db([x], [rv], [], [], Db.Serials(2, 2, 1, 1));
            var put := PutReview(Some("cookie"), 1, ReviewPutBody(EmptyReviewPatch, Some(2), None));
            var (resp, db') := Serve(put, db, 0, (s: string) => s);
            && Db.Valid(db)
            && resp.status == 200
            && db'.reviews == [rv.(id := 2)]
            && !Db.Valid(db')
            && Serve(put, db', 0, (s: string) => s).0.status == 404
  {
    var x := Restaurant(1, "ramen ya", "ramen", "1-1 Chuo", None, None, None,
                        None, None, None, None, None, Some(true), None);
    var rv := Review(1, 1, "cookie", "nick", 4, None, Some(0));
    var db := Db.Db([x], [rv], [], [], Db.Serials(2, 2, 1, 1));
    var body := ReviewPutBody(EmptyReviewPatch, Some(2), None);
    assert db.reviews[0] == rv && Db.OwnedBy(rv, 1, "cookie");
    assert !KeyClash(db, 1, body, "cookie");
    var db' := Db.UpdateReviewColumns(db, 1, EmptyReviewPatch, Some(2), false, "cookie").1;
    assert db'.reviews[0] == rv.(id := 2);
    assert !MatchesReview(db', 1, "cookie");
  }

  /** After that re-key the review sequence still stands at 2, so the next
      POST /api/reviews draws 2, collides with the re-keyed review and is
      answered 400; the value stays drawn, and the POST after it is stored
      as review 3. */
  lemma RekeyedIdCollidesWithNextPost()
    ensures var x := Restaurant(1, "ramen ya", "ramen", "1-1 Chuo", None, None, None,
                                None, None, None, None, None, Some(true), None);
            var db := Db.Db([x], [Review(2, 1, "cookie", "nick", 4, None, Some(0))], [], [], Db.Serials(2, 2, 1, 1));
            var post := PostReview(Some("x"), ReviewBody(Some(1), None, Some("n"), Some(5), None));
            var (resp, db') := Serve(post, db, 0, (s: string) => s);
            var (resp2, db'') := Serve(post, db', 0, (s: string) => s);
            && resp == InvalidReview
            && db' == db.(serials := Db.Serials(2, 3, 1, 1))
            && resp2.status == 200
            && db''.reviews == db.reviews + [Review(3, 1, "x", "n", 5, None, Some(0))]
  {
    var x := Restaurant(1, "ramen ya", "ramen", "1-1 Chuo", None, None, None,
                        None, None, None, None, None, Some(true), None);
    var rv := Review(2, 1, "cookie", "nick", 4, None, Some(0));
    var db := Db.Db([x], [rv], [], [], Db.Serials(2, 2, 1, 1));
    assert db.reviews[0] == rv && db.restaurants[0] == x;
    assert !Db.ReviewKeyFree(db, 2);
    var db' := db.(serials := Db.Serials(2, 3, 1, 1));
    assert Db.ReviewKeyFree(db', 3);
  }

  /** As written, a menu-item body naming `id` is stored under that key
      without drawing the sequence: with the sequence at 1, a body with `id`
      1 is stored as item 1 and the key invariant breaks; the next POST
      without `id` draws 1, collides and is answered 400, and only the one
      after it is stored, as item 2. */
  lemma MenuItemBodyIdTakesTheNextKey()
    ensures var x := Restaurant(1, "ramen ya", "ramen", "1-1 Chuo", None, None, None,
                                None, None, None, None, None, Some(true), None);
            var db := Db.Db([x], [], [], [], Db.Serials(2, 1, 1, 1));
            var withId := PostMenuItem(Some("x"), 1, MenuItemBody(Given(1), None, Some("gyoza"), Given(500), None, None, None));
            var plain := PostMenuItem(Some("x"), 1, MenuItemBody(Absent, None, Some("gyoza"), Given(500), None, None, None));
            var (r1, db1) := Serve(withId, db, 0, (s: string) => s);
            var (r2, db2) := Serve(plain, db1, 0, (s: string) => s);
            var (r3, db3) := Serve(plain, db2, 0, (s: string) => s);
            && Db.Valid(db)
            && r1.status == 201
            && db1.menuItems == [MenuItem(1, 1, "gyoza", 500, None, None, Some(false))]
            && db1.serials == db.serials
            && !Db.Valid(db1)
            && r2 == Response(400, ErrorBody("Invalid menu item data"))
            && db2 == db1.(serials := Db.Serials(2, 1, 1, 2))
            && r3.status == 201
            && db3.menuItems == db1.menuItems + [MenuItem(2, 1, "gyoza", 500, None, None, Some(false))]
  {
    var x := Restaurant(1, "ramen ya", "ramen", "1-1 Chuo", None, None, None,
                        None, None, None, None, None, Some(true), None);
    var db := Db.Db([x], [], [], [], Db.Serials(2, 1, 1, 1));
    var lower := (s: string) => s;
    var withIdBody := MenuItemBody(Given(1), Some(1), Some("gyoza"), Given(500), None, None, None);
    var plainBody := MenuItemBody(Absent, Some(1), Some("gyoza"), Given(500), None, None, None);
    var ins := InsertMenuItem(1, "gyoza", 500, None, None, None);
    assert db.restaurants[0] == x;
    // The first POST stores item 1 under the body's key.
    assert Route(PostMenuItem(Some("x"), 1, withIdBody.(restaurantId := None))) == Invoke(CreateMenuItemCall(withIdBody));
    var item := MenuItem(1, 1, "gyoza", 500, None, None, Some(false));
    var db1 := db.(menuItems := [item]);
    assert !Refused(db, CreateMenuItemCall(withIdBody));
    assert db.menuItems + [item] == [item];
    assert Db.CreateMenuItemWithId(db, ins, 1) == (item, db1);
    assert Execute(db, CreateMenuItemCall(withIdBody), 0, lower) == (MenuItemRow(item), db1);
    // The second draws 1 and meets item 1.
    assert Route(PostMenuItem(Some("x"), 1, plainBody.(restaurantId := None))) == Invoke(CreateMenuItemCall(plainBody));
    assert db1.menuItems[0] == item;
    assert InsertKeyTaken(db1, CreateMenuItemCall(plainBody));
    var db2 := db1.(serials := Db.Serials(2, 1, 1, 2));
    assert Execute(db1, CreateMenuItemCall(plainBody), 0, lower) == (Threw, db2);
    // The third draws 2, which is free.
    assert Db.MenuItemKeyFree(db2, 2);
    assert !Refused(db2, CreateMenuItemCall(plainBody));
    assert Execute(db2, CreateMenuItemCall(plainBody), 0, lower).1 == Db.CreateMenuItem(db2, ins).1;
  }

  /** The review stored by POST /api/reviews in a valid database belongs to
      the header's token, whatever `userCookie` the body claims. */
  lemma PostedReviewBelongsToHeaderToken(db: Db.Db, token: string, body: ReviewBody, now: Timestamp, lower: string -> string)
    requires Db.Valid(db)
    requires token != "" && ParseReview(body, token).Some?
    requires IsInt32(body.restaurantId.value) && IsInt32(body.rating.value)
    requires Db.HasRestaurant(db, body.restaurantId.value)
    ensures var (resp, db') := Serve(PostReview(Some(token), body), db, now, lower);
            && resp.status == 200
            && |db'.reviews| == |db.reviews| + 1
            && db'.reviews[|db.reviews|].userCookie == token
  {
    Db.ValidSerialsAreFree(db);
  }

  /** A well-formed POST /api/reviews is stored iff its integers fit 32
      bits, its restaurant exists and the id the sequence hands out is free;
      otherwise the insert fails, the answer is 400 and no review is stored,
      though once the values have bound the sequence has moved on. */
  lemma PostedReviewNeedsItsRestaurant(db: Db.Db, token: string, body: ReviewBody, now: Timestamp, lower: string -> string)
    requires token != "" && ParseReview(body, token).Some?
    ensures var (resp, db') := Serve(PostReview(Some(token), body), db, now, lower);
            var fits := IsInt32(body.restaurantId.value) && IsInt32(body.rating.value);
            && (resp.status == 200 <==>
                fits && Db.HasRestaurant(db, body.restaurantId.value) && Db.ReviewKeyFree(db, db.serials.review))
            && (resp.status != 200 ==>
                && resp == InvalidReview
                && db' == if fits then db.(serials := db.serials.(review := db.serials.review + 1)) else db)
  {
  }

  /** GET /api/bookmarks/:restaurantId/check reports the stored pair; an id
      out of 32-bit range is a 500. */
  lemma ServeCheckBookmark(db: Db.Db, token: string, restaurantId: int, now: Timestamp, lower: string -> string)
    requires token != ""
    ensures Serve(CheckBookmark(Some(token), restaurantId), db, now, lower)
            == (if IsInt32(restaurantId) then Response(200, CheckBody(Db.IsBookmarked(db, restaurantId, token)))
                else Response(500, ErrorBody("Failed to check bookmark status")), db)
  {
  }

  /** DELETE /api/bookmarks/:restaurantId removes the pair and reports whether
      it was there; an id out of 32-bit range is a 500 and removes nothing. */
  lemma ServeDeleteBookmark(db: Db.Db, token: string, restaurantId: int, now: Timestamp, lower: string -> string)
    requires token != ""
    ensures Serve(DeleteBookmark(Some(token), restaurantId), db, now, lower)
            == if IsInt32(restaurantId) then
                 (Response(200, SuccessBody(Db.IsBookmarked(db, restaurantId, token))),
                  Db.DeleteBookmark(db, restaurantId, token).1)
               else (Response(500, ErrorBody("Failed to delete bookmark")), db)
  {
    var req := DeleteBookmark(Some(token), restaurantId);
    var call := DeleteBookmarkCall(restaurantId, token);
    assert Route(req) == Invoke(call);
    if IsInt32(restaurantId) {
      var (ok, db') := Db.DeleteBookmark(db, restaurantId, token);
      assert Execute(db, call, now, lower) == (Flag(ok), db');
      assert Finish(req, Flag(ok)) == Response(200, SuccessBody(ok));
    } else {
      assert Execute(db, call, now, lower) == (Threw, db);
    }
  }

  /** POST /api/bookmarks stores the pair for the header's token when the
      restaurant exists and the id the sequence hands out is free; otherwise
      it answers 400 and stores nothing, though an in-range id has drawn
      the sequence. */
  lemma ServePostBookmark(db: Db.Db, token: string, restaurantId: int, claimed: Option<string>, now: Timestamp, lower: string -> string)
    requires token != ""
    ensures Serve(PostBookmark(Some(token), BookmarkBody(Some(restaurantId), claimed)), db, now, lower)
            == if IsInt32(restaurantId) && Db.HasRestaurant(db, restaurantId) && Db.BookmarkKeyFree(db, db.serials.bookmark) then
                 (Response(200, Payload(BookmarkRow(Db.CreateBookmark(db, InsertBookmark(restaurantId, token), now).0))),
                  Db.CreateBookmark(db, InsertBookmark(restaurantId, token), now).1)
               else if IsInt32(restaurantId) then
                 (InvalidBookmark, db.(serials := db.serials.(bookmark := db.serials.bookmark + 1)))
               else (InvalidBookmark, db)
  {
    var req := PostBookmark(Some(token), BookmarkBody(Some(restaurantId), claimed));
    var call := CreateBookmarkCall(InsertBookmark(restaurantId, token));
    assert Route(req) == Invoke(call);
    if !Refused(db, call) {
      var (b, db') := Db.CreateBookmark(db, InsertBookmark(restaurantId, token), now);
      assert Execute(db, call, now, lower) == (BookmarkRow(b), db');
    } else {
      assert Execute(db, call, now, lower).0 == Threw;
    }
  }

  /** In a valid database, for an existing restaurant: POST /api/bookmarks, then the check route
      reports true; DELETE reports success, then the check route reports false. */
  lemma BookmarkRoundTripOverHttp(db: Db.Db, token: string, restaurantId: int, now: Timestamp, lower: string -> string)
    requires Db.Valid(db)
    requires token != ""
    requires IsInt32(restaurantId) && Db.HasRestaurant(db, restaurantId)
    ensures var db1 := Serve(PostBookmark(Some(token), BookmarkBody(Some(restaurantId), None)), db, now, lower).1;
            var (r2, db2) := Serve(CheckBookmark(Some(token), restaurantId), db1, now, lower);
            var (r3, db3) := Serve(DeleteBookmark(Some(token), restaurantId), db2, now, lower);
            var r4 := Serve(CheckBookmark(Some(token), restaurantId), db3, now, lower).0;
            && r2 == Response(200, CheckBody(true))
            && r3 == Response(200, SuccessBody(true))
            && r4 == Response(200, CheckBody(false))
  {
    Db.ValidSerialsAreFree(db);
    ServePostBookmark(db, token, restaurantId, None, now, lower);
    var db1 := Db.CreateBookmark(db, InsertBookmark(restaurantId, token), now).1;
    Db.CreateThenDeleteRoundTrip(db, restaurantId, token, now);
    ServeCheckBookmark(db1, token, restaurantId, now, lower);
    ServeDeleteBookmark(db1, token, restaurantId, now, lower);
    var db3 := Db.DeleteBookmark(db1, restaurantId, token).1;
    ServeCheckBookmark(db3, token, restaurantId, now, lower);
  }

  /** DELETE /api/bookmarks/:id answers 200 even when nothing was deleted
      (500 only for an id out of 32-bit range). */
  lemma DeletingAbsentBookmarkIsStill200(db: Db.Db, token: string, restaurantId: int, now: Timestamp, lower: string -> string)
    requires token != "" && !Db.IsBookmarked(db, restaurantId, token)
    ensures Serve(DeleteBookmark(Some(token), restaurantId), db, now, lower).0
            == if IsInt32(restaurantId) then Response(200, SuccessBody(false))
               else Response(500, ErrorBody("Failed to delete bookmark"))
  {
    ServeDeleteBookmark(db, token, restaurantId, now, lower);
  }

  /** POST /api/restaurants never creates anything: 401 without a token,
      400 with one, and the database is unchanged either way. */
  lemma PostRestaurantNeverCreates(db: Db.Db, cookie: Option<string>, now: Timestamp, lower: string -> string)
    ensures Serve(PostRestaurant(cookie), db, now, lower).0.status in {400, 401}
    ensures Serve(PostRestaurant(cookie), db, now, lower).1 == db
  {
  }

  /** GET /api/restaurants/:id answers 404 exactly when the id fits 32 bits
      and no restaurant has it. */
  lemma ShowRestaurant404IffAbsent(db: Db.Db, id: int, now: Timestamp, lower: string -> string)
    ensures Serve(ShowRestaurant(id), db, now, lower).0.status == 404
            <==> IsInt32(id) && forall x :: x in db.restaurants ==> x.id != id
  {
  }
}
