/** The review dialog: its form validation, the star rating it keeps beside
    the form, and the request a submit sends. */
module ReviewModal {
  import opened Wrappers
  import RatingStars
  import Schema
  import Api

  /** The `existingReview` prop. */
  datatype ExistingReview = ExistingReview(id: int, nickname: string, rating: int, comment: string)

  /** The form fields of `reviewSchema`. */
  datatype FormData = FormData(restaurantId: int, nickname: string, rating: real, comment: string)

  /** The dialog: the `rating` state beside the form's own field values. */
  datatype Modal = Modal(restaurantId: int, existing: Option<ExistingReview>, rating: real, form: FormData)

  /** `reviewSchema`: a nickname and a comment of at least one character and
      a rating in [1, 5], not necessarily whole. */
  predicate FormValid(d: FormData) {
    |d.nickname| >= 1 && |d.comment| >= 1 && 1.0 <= d.rating <= 5.0
  }

  /** `existingReview?.rating || 0`. */
  function InitialRating(existing: Option<ExistingReview>): (r: real)
    ensures existing.None? ==> r == 0.0
    ensures existing.Some? ==> r == existing.value.rating as real
  {
    if existing.Some? then existing.value.rating as real else 0.0
  }

  /** The form's default values. */
  function DefaultForm(restaurantId: int, existing: Option<ExistingReview>): FormData {
    match existing
    case None => FormData(restaurantId, "", 0.0, "")
    case Some(e) => FormData(restaurantId, e.nickname, e.rating as real, e.comment)
  }

  /** The freshly mounted dialog. */
  function Open(restaurantId: int, existing: Option<ExistingReview>): (m: Modal)
    ensures Consistent(m)
    ensures m.rating == InitialRating(existing)
    ensures existing.None? ==> m.form.rating == 0.0 && !FormValid(m.form)
    ensures existing.Some? ==> m.form.nickname == existing.value.nickname && m.form.comment == existing.value.comment
  {
    Modal(restaurantId, existing, InitialRating(existing), DefaultForm(restaurantId, existing))
  }

  /** The rating state and the form's rating field agree. */
  predicate Consistent(m: Modal) {
    m.rating == m.form.rating
  }

  /** `handleRatingChange`: both the state and the form field take the new rating. */
  function RatingChanged(m: Modal, newRating: real): (m': Modal)
    ensures Consistent(m') && m'.rating == newRating
    ensures m'.form.nickname == m.form.nickname && m'.form.comment == m.form.comment
    ensures m'.existing == m.existing && m'.restaurantId == m.restaurantId
  {
    m.(rating := newRating, form := m.form.(rating := newRating))
  }

  /** Typing into the nickname and comment inputs. */
  function Typed(m: Modal, nickname: string, comment: string): (m': Modal)
    ensures Consistent(m) ==> Consistent(m')
    ensures m'.rating == m.rating && m'.existing == m.existing
    ensures m'.form.nickname == nickname && m'.form.comment == comment
  {
    m.(form := m.form.(nickname := nickname, comment := comment))
  }

  /** `handleClose`: the form is reset and the rating goes back to its initial value. */
  function Close(m: Modal): (m': Modal)
    ensures m' == Open(m.restaurantId, m.existing)
  {
    Modal(m.restaurantId, m.existing, InitialRating(m.existing), DefaultForm(m.restaurantId, m.existing))
  }

  datatype Verb = Post | Put
  /** `/api/reviews` or `/api/reviews/<id>`. */
  datatype Target = Reviews | ReviewById(id: int)
  datatype Outgoing = Outgoing(verb: Verb, target: Target, body: FormData, cookie: string)

  /** A submit: the form is validated first, then `onSubmit` returns without
      a cookie, and otherwise the body's rating is replaced by the rating
      state; `mutationFn` chooses PUT for an existing review and POST otherwise. */
  function Submit(m: Modal, cookie: Option<string>): (out: Option<Outgoing>)
    ensures out.Some? <==> FormValid(m.form) && cookie.Some? && cookie.value != ""
    ensures out.Some? ==> out.value.cookie == cookie.value
    ensures out.Some? ==> out.value.body == m.form.(rating := m.rating)
    ensures out.Some? ==> (out.value.verb == Put <==> m.existing.Some?)
    ensures out.Some? && m.existing.Some? ==> out.value.target == ReviewById(m.existing.value.id)
    ensures out.Some? && m.existing.None? ==> out.value.target == Reviews
  {
    if !FormValid(m.form) then None
    else if cookie.None? || cookie.value == "" then None
    else
      var data := m.form.(rating := m.rating);
      match m.existing
      case Some(e) => Some(Outgoing(Put, ReviewById(e.id), data, cookie.value))
      case None => Some(Outgoing(Post, Reviews, data, cookie.value))
  }

  /** A new review cannot be submitted before a star is picked, whatever
      has been typed into the nickname and comment fields; picking a star
      and filling both fields is what lets it through. */
  lemma NewReviewNeedsAStar(restaurantId: int, nickname: string, comment: string, stars: real, cookie: Option<string>)
    ensures Submit(Typed(Open(restaurantId, None), nickname, comment), cookie).None?
    ensures 1.0 <= stars <= 5.0 && nickname != "" && comment != "" && cookie.Some? && cookie.value != "" ==>
              Submit(Typed(RatingChanged(Open(restaurantId, None), stars), nickname, comment), cookie).Some?
  {
  }

  /** While the state and the form agree, the rating sent is one the form
      validated. */
  lemma SentRatingWasValidated(m: Modal, cookie: Option<string>)
    requires Consistent(m)
    requires Submit(m, cookie).Some?
    ensures 1.0 <= Submit(m, cookie).value.body.rating <= 5.0
  {
  }

  /** Picking star `index` of the five and filling both text fields makes the
      dialog submit that star's rating, which the server's review schema accepts
      under the header's token. */
  lemma ClickedStarSubmits(m: Modal, index: nat, nickname: string, comment: string, token: string)
    requires index < RatingStars.DefaultMaxRating
    requires nickname != "" && comment != "" && token != ""
    ensures var m' := Typed(RatingChanged(m, RatingStars.Click(true, index).value as real), nickname, comment);
            var out := Submit(m', Some(token));
            && out.Some?
            && out.value.body.rating == (index + 1) as real
            && Api.ParseReview(AsRequestBody(out.value.body, index + 1), token).Some?
  {
  }

  /** The JSON the dialog sends, `{...data, rating}` without a `userCookie`
      field, as the server reads it when the rating is the whole number
      `stars`: under any header token the server's review schema turns it
      into exactly the review the dialog shows. */
  function AsRequestBody(d: FormData, stars: int): (b: Api.ReviewBody)
    requires d.rating == stars as real
    ensures b.userCookie.None?
    ensures forall token :: Api.ParseReview(b, token)
                            == Some(Schema.InsertReview(d.restaurantId, token, d.nickname, stars, Some(d.comment)))
  {
    Api.ReviewBody(Some(d.restaurantId), None, Some(d.nickname), Some(stars), Some(d.comment))
  }
}
