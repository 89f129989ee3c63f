/** The restaurant card: its hour-of-day status badge and the bookmark
    heart toggle. */
module RestaurantCard {
  import opened Wrappers
  import opened Schema
  import Api
  import Db = DrizzleStorage

  datatype Status = Closed | OpenNow | OpensAtFive

  /** The badge text of each status. */
  function Label(s: Status): string {
    match s
    case Closed => "閉店"
    case OpenNow => "営業中"
    case OpensAtFive => "17:00開店"
  }

  /** The badge for the local clock hour; the restaurant's own hours play no part. */
  function StatusAt(hour: int): (s: Status)
    ensures s.Closed? <==> hour >= 22 || hour < 8
    ensures s.OpenNow? <==> 17 <= hour < 22
    ensures s.OpensAtFive? <==> 8 <= hour < 17
  {
    if hour >= 22 || hour < 8 then Closed
    else if hour >= 17 then OpenNow
    else OpensAtFive
  }

  /** How many of the hours 0 .. n-1 show badge `s`. */
  function HoursShowing(s: Status, n: nat): nat {
    if n == 0 then 0 else HoursShowing(s, n - 1) + (if StatusAt(n - 1) == s then 1 else 0)
  }

  /** How many of the hours 0 .. n-1 lie in the band [lo, hi). */
  function InBand(n: nat, lo: nat, hi: nat): nat {
    if n <= lo then 0 else if n <= hi then n - lo else if hi <= lo then 0 else hi - lo
  }

  /** Counted hour by hour, the badges follow the three clock bands exactly:
      "17:00開店" on [8, 17), "営業中" on [17, 22) and "閉店" on [0, 8) and
      [22, 24). */
  lemma {:induction false} HoursShowingFollowsBands(n: nat)
    requires n <= 24
    ensures HoursShowing(OpensAtFive, n) == InBand(n, 8, 17)
    ensures HoursShowing(OpenNow, n) == InBand(n, 17, 22)
    ensures HoursShowing(Closed, n) == InBand(n, 0, 8) + InBand(n, 22, 24)
  {
    if n > 0 {
      HoursShowingFollowsBands(n - 1);
    }
  }

  /** Over a whole day, whatever the restaurant's hours: ten hours closed,
      five open, nine "opens at 17:00", under three distinct labels. */
  lemma DayShowsTenNineFive()
    ensures HoursShowing(Closed, 24) == 10
    ensures HoursShowing(OpenNow, 24) == 5
    ensures HoursShowing(OpensAtFive, 24) == 9
    ensures Label(Closed) != Label(OpenNow) && Label(OpenNow) != Label(OpensAtFive) && Label(Closed) != Label(OpensAtFive)
  {
    HoursShowingFollowsBands(24);
  }

  /** The card's bookmark state. */
  datatype Card = Card(restaurantId: int, isBookmarked: bool)

  /** `useState(restaurant.isBookmarked || false)`. */
  function Mount(row: RestaurantWithStats): (c: Card)
    ensures c.restaurantId == row.restaurant.id
    ensures c.isBookmarked <==> row.isBookmarked == Some(true)
  {
    Card(row.restaurant.id, row.isBookmarked == Some(true))
  }

  datatype BookmarkRequest =
    | AddBookmark(restaurantId: int, cookie: string)
    | RemoveBookmark(restaurantId: int, cookie: string)

  /** A toggle: with no cookie nothing happens; otherwise the mutation asks
      for the negation of the current state, POST to add and DELETE to remove. */
  function Toggle(card: Card, cookie: Option<string>): (sent: Option<(bool, BookmarkRequest)>)
    ensures sent.None? <==> cookie.None? || cookie.value == ""
    ensures sent.Some? ==> sent.value.0 == !card.isBookmarked
    ensures sent.Some? ==> (sent.value.1.AddBookmark? <==> sent.value.0)
    ensures sent.Some? ==> sent.value.1.restaurantId == card.restaurantId && sent.value.1.cookie == cookie.value
  {
    if cookie.None? || cookie.value == "" then None
    else if card.isBookmarked then Some((false, RemoveBookmark(card.restaurantId, cookie.value)))
    else Some((true, AddBookmark(card.restaurantId, cookie.value)))
  }

  /** `onSuccess`: the state becomes the requested value. */
  function Succeeded(card: Card, shouldBookmark: bool): (c: Card)
    ensures c.isBookmarked == shouldBookmark && c.restaurantId == card.restaurantId
  {
    card.(isBookmarked := shouldBookmark)
  }

  /** The HTTP request the mutation sends, the cookie going in the
      `x-user-cookie` header. */
  function AsHttp(r: BookmarkRequest): Api.Request {
    match r
    case AddBookmark(rid, c) => Api.PostBookmark(Some(c), Api.BookmarkBody(Some(rid), None))
    case RemoveBookmark(rid, c) => Api.DeleteBookmark(Some(c), rid)
  }

  /** The card after the mutation settles: `onSuccess` on a 2xx answer,
      otherwise `onError`, which only shows a toast. */
  function Settle(card: Card, shouldBookmark: bool, resp: Api.Response): (c: Card)
    ensures 200 <= resp.status < 300 ==> c == Succeeded(card, shouldBookmark)
    ensures !(200 <= resp.status < 300) ==> c == card
  {
    if 200 <= resp.status < 300 then Succeeded(card, shouldBookmark) else card
  }

  /** When the card starts in step with the database, a toggle served by the
      relational backend leaves the card in step again, whether the request
      succeeds or fails; it fails only for an add of a restaurant that is
      missing or whose id does not fit 32 bits, or that meets a bookmark id
      already taken, or a remove of an id that does not fit 32 bits. */
  lemma ToggleKeepsCardInStep(card: Card, token: string, db: Db.Db, now: Timestamp, lower: string -> string)
    requires token != ""
    requires card.isBookmarked == Db.IsBookmarked(db, card.restaurantId, token)
    ensures var (should, req) := Toggle(card, Some(token)).value;
            var (resp, db') := Api.Serve(AsHttp(req), db, now, lower);
            && Settle(card, should, resp).isBookmarked == Db.IsBookmarked(db', card.restaurantId, token)
            && (resp.status == 200 <==>
                && IsInt32(card.restaurantId)
                && (should ==> Db.HasRestaurant(db, card.restaurantId) && Db.BookmarkKeyFree(db, db.serials.bookmark)))
  {
    var (should, req) := Toggle(card, Some(token)).value;
    if should {
      Api.ServePostBookmark(db, token, card.restaurantId, None, now, lower);
      if IsInt32(card.restaurantId) && Db.HasRestaurant(db, card.restaurantId) && Db.BookmarkKeyFree(db, db.serials.bookmark) {
        Db.CreateThenIsBookmarked(db, card.restaurantId, token, now);
      }
    } else {
      Api.ServeDeleteBookmark(db, token, card.restaurantId, now, lower);
    }
  }
}
