/** The star row of the rating widget: which of full, half or empty each
    star shows for a fractional rating, and what a click reports. */
module RatingStars {
  import opened Wrappers

  datatype Star = Full | Half | Empty

  /** `maxRating` when the prop is omitted. */
  const DefaultMaxRating: int := 5

  /** Star `index` (0-based) against `rating`. */
  function Classify(rating: real, index: nat): (s: Star)
    ensures s.Full? <==> rating >= (index + 1) as real
    ensures s.Half? <==> (index as real) + 0.5 <= rating < (index + 1) as real
  {
    var starRating := (index + 1) as real;
    if rating >= starRating then Full
    else if rating >= starRating - 0.5 then Half
    else Empty
  }

  /** The length `Array.from` gives for `maxRating`: the default when the prop
      is omitted, and no stars for a negative value. */
  function StarCount(maxRating: Option<int>): (n: nat)
    ensures maxRating.None? ==> n == 5
    ensures maxRating.Some? ==> n == if maxRating.value < 0 then 0 else maxRating.value
  {
    var m := maxRating.GetOr(DefaultMaxRating);
    if m < 0 then 0 else m
  }

  /** The first `n` stars, left to right. */
  function Stars(rating: real, n: nat): (stars: seq<Star>)
    ensures |stars| == n
    ensures forall i :: 0 <= i < n ==> stars[i] == Classify(rating, i)
  {
    if n == 0 then [] else Stars(rating, n - 1) + [Classify(rating, n - 1)]
  }

  /** The rendered row. */
  function Render(rating: real, maxRating: Option<int>): (stars: seq<Star>)
    ensures |stars| == StarCount(maxRating)
    ensures forall i :: 0 <= i < |stars| ==> stars[i] == Classify(rating, i)
  {
    Stars(rating, StarCount(maxRating))
  }

  /** The full stars come first, a half star (at most one) sits directly
      after them, and every star after a non-full one is empty. */
  lemma RowShape(rating: real, maxRating: Option<int>)
    ensures var stars := Render(rating, maxRating);
            && (forall i, j :: 0 <= i < j < |stars| && stars[j].Full? ==> stars[i].Full?)
            && (forall i, j :: 0 <= i < j < |stars| && stars[i].Half? ==> stars[j].Empty?)
            && (forall i, j :: 0 <= i < j < |stars| && stars[i].Empty? ==> stars[j].Empty?)
  {
  }

  /** Number of full stars in a row. */
  function CountFull(stars: seq<Star>): (n: nat)
    ensures n <= |stars|
  {
    if stars == [] then 0
    else CountFull(stars[..|stars| - 1]) + (if stars[|stars| - 1].Full? then 1 else 0)
  }

  function Clamp(x: int, lo: int, hi: int): int
  {
    if x < lo then lo else if x > hi then hi else x
  }

  lemma {:induction false} CountFullOfStars(rating: real, n: nat)
    ensures CountFull(Stars(rating, n)) == Clamp(rating.Floor, 0, n)
  {
    if n > 0 {
      var stars := Stars(rating, n);
      assert stars[..n - 1] == Stars(rating, n - 1);
      CountFullOfStars(rating, n - 1);
      assert stars[n - 1].Full? <==> rating.Floor >= n;
    }
  }

  /** The number of full stars is the rating's floor, capped by the row length
      (and zero for a negative rating). */
  lemma FullCountIsFloor(rating: real, maxRating: Option<int>)
    ensures CountFull(Render(rating, maxRating)) == Clamp(rating.Floor, 0, StarCount(maxRating))
  {
    CountFullOfStars(rating, StarCount(maxRating));
  }

  /** What clicking star `index` reports to `onRatingChange`. */
  function Click(interactive: bool, index: nat): (reported: Option<int>)
    ensures reported.Some? <==> interactive
    ensures reported.Some? ==> reported.value == index + 1
  {
    if interactive then Some(index + 1) else None
  }

  /** After a click on star `index`, the row shows exactly the stars up to
      and including that one as full, and no half star. */
  lemma ClickedRatingFillsUpToStar(index: nat, maxRating: Option<int>)
    ensures var stars := Render(Click(true, index).value as real, maxRating);
            forall k :: 0 <= k < |stars| ==> (stars[k].Full? <==> k <= index) && !stars[k].Half?
  {
  }
}
