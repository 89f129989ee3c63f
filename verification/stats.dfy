/** Review statistics: the sum and mean of integer ratings, and the
    one-decimal rounding that `Number(x.toFixed(1))` applies. Arithmetic is
    exact (rationals), not IEEE-754. */
module Stats {

  /** Sum of the ratings, accumulated left to right as `reduce` does. */
  function Sum(xs: seq<int>): int
    decreases |xs|
  {
    if |xs| == 0 then 0 else Sum(xs[..|xs| - 1]) + xs[|xs| - 1]
  }

  /** The arithmetic mean (exact). */
  function Mean(xs: seq<int>): real
    requires |xs| > 0
  {
    Sum(xs) as real / |xs| as real
  }

  /** `x` has at most one decimal digit. */
  predicate IsTenth(x: real) {
    (x * 10.0).Floor as real == x * 10.0
  }

  /** Round a non-negative value to tenths, ties upward. */
  function HalfUpTenths(x: real): (r: real)
    ensures IsTenth(r)
    ensures x - 0.05 < r <= x + 0.05
  {
    var n := (x * 10.0 + 0.5).Floor;
    assert (n as real * 10.0 / 10.0) == n as real;
    n as real / 10.0
  }

  /** `toFixed(1)`: round the magnitude to tenths with ties away from zero,
      then restore the sign. */
  function ToFixed1(x: real): (r: real)
    ensures IsTenth(r)
    ensures x - 0.05 <= r <= x + 0.05
    ensures x >= 0.0 ==> x - 0.05 < r
    ensures x < 0.0 ==> r < x + 0.05
  {
    if x >= 0.0 then HalfUpTenths(x)
    else
      var h := HalfUpTenths(-x);
      NegatedTenth(h);
      -h
  }

  lemma NegatedTenth(x: real)
    requires IsTenth(x)
    ensures IsTenth(-x)
  {
    var n := (x * 10.0).Floor;
    assert (-x) * 10.0 == (-n) as real;
  }

  /** The `averageRating` of a single-restaurant read: the mean rounded to
      one decimal, or 0 when there are no ratings. */
  function AverageRating(xs: seq<int>): (r: real)
    ensures |xs| == 0 ==> r == 0.0
    ensures |xs| > 0 ==> IsTenth(r) && Mean(xs) - 0.05 <= r <= Mean(xs) + 0.05
    ensures |xs| > 0 && Mean(xs) >= 0.0 ==> Mean(xs) - 0.05 < r
    ensures |xs| > 0 && Mean(xs) < 0.0 ==> r < Mean(xs) + 0.05
  {
    if |xs| > 0 then ToFixed1(Mean(xs)) else 0.0
  }

  /** All ratings lie in the integer range [lo, hi]. */
  predicate AllWithin(xs: seq<int>, lo: int, hi: int) {
    forall i :: 0 <= i < |xs| ==> lo <= xs[i] <= hi
  }

  lemma {:induction false} SumWithin(xs: seq<int>, lo: int, hi: int)
    requires AllWithin(xs, lo, hi)
    ensures |xs| * lo <= Sum(xs) <= |xs| * hi
    decreases |xs|
  {
    if |xs| > 0 {
      var init := xs[..|xs| - 1];
      assert AllWithin(init, lo, hi) by {
        forall i | 0 <= i < |init| ensures lo <= init[i] <= hi {
          assert init[i] == xs[i];
        }
      }
      SumWithin(init, lo, hi);
      assert lo <= xs[|xs| - 1] <= hi;
      assert |xs| * lo == |init| * lo + lo;
      assert |xs| * hi == |init| * hi + hi;
    }
  }

  lemma MeanWithin(xs: seq<int>, lo: int, hi: int)
    requires |xs| > 0 && AllWithin(xs, lo, hi)
    ensures lo as real <= Mean(xs) <= hi as real
  {
    SumWithin(xs, lo, hi);
    var n := |xs|;
    assert (n * lo) as real == n as real * lo as real;
    assert (n * hi) as real == n as real * hi as real;
    QuotientWithin(Sum(xs) as real, n as real, lo as real, hi as real);
  }

  lemma QuotientWithin(s: real, n: real, a: real, b: real)
    requires n > 0.0 && n * a <= s <= n * b
    ensures a <= s / n <= b
  {
    var q := s / n;
    assert q * n == s;
    if q < a {
      ScaleStrict(q, a, n);
    }
    if b < q {
      ScaleStrict(b, q, n);
    }
  }

  lemma ScaleStrict(a: real, b: real, n: real)
    requires a < b && n > 0.0
    ensures a * n < b * n
  {
  }

  /** Rounding to tenths cannot leave an integer range. */
  lemma HalfUpTenthsWithin(x: real, lo: int, hi: int)
    requires lo as real <= x <= hi as real
    ensures lo as real <= HalfUpTenths(x) <= hi as real
  {
    var n := (x * 10.0 + 0.5).Floor;
    assert ((10 * lo) as real + 0.5).Floor == 10 * lo;
    assert ((10 * hi) as real + 0.5).Floor == 10 * hi;
    assert (10 * lo) as real + 0.5 <= x * 10.0 + 0.5 <= (10 * hi) as real + 0.5;
    assert 10 * lo <= n <= 10 * hi;
  }

  lemma ToFixed1Within(x: real, lo: int, hi: int)
    requires lo as real <= x <= hi as real
    ensures lo as real <= ToFixed1(x) <= hi as real
  {
    if x >= 0.0 {
      HalfUpTenthsWithin(x, lo, hi);
    } else {
      HalfUpTenthsWithin(-x, -hi, -lo);
    }
  }

  /** If every rating lies in [lo, hi], so does the rounded average. */
  lemma AverageRatingWithin(xs: seq<int>, lo: int, hi: int)
    requires |xs| > 0 && AllWithin(xs, lo, hi)
    ensures lo as real <= AverageRating(xs) <= hi as real
  {
    MeanWithin(xs, lo, hi);
    ToFixed1Within(Mean(xs), lo, hi);
  }

  /** Ratings 5 and 4 average to exactly 4.5. */
  lemma AverageOfFiveAndFour()
    ensures AverageRating([5, 4]) == 4.5
  {
    assert [5, 4][..1] == [5];
    assert Sum([5, 4]) == 9;
    assert Mean([5, 4]) == 4.5;
    assert (4.5 * 10.0 + 0.5).Floor == 45;
  }
}
