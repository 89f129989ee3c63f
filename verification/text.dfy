/** Substring matching: the meaning of an SQL `LIKE '%term%'` pattern whose
    term holds no wildcard characters. */
module Text {

  /** `p` is a prefix of `s`. */
  predicate StartsWith(s: string, p: string) {
    |p| <= |s| && s[..|p|] == p
  }

  /** `needle` occurs somewhere in `hay`. */
  predicate Contains(hay: string, needle: string)
    decreases |hay|
  {
    StartsWith(hay, needle) || (|hay| > 0 && Contains(hay[1..], needle))
  }

  /** `Contains` agrees with the positional definition of a substring:
      some offset `k` of `hay` starts with `needle`. */
  lemma {:induction false} ContainsAtOffset(hay: string, needle: string)
    ensures Contains(hay, needle) <==> exists k :: 0 <= k <= |hay| && StartsWith(hay[k..], needle)
    decreases |hay|
  {
    assert hay[0..] == hay;
    if Contains(hay, needle) {
      if StartsWith(hay, needle) {
        assert StartsWith(hay[0..], needle);
      } else {
        ContainsAtOffset(hay[1..], needle);
        var k :| 0 <= k <= |hay[1..]| && StartsWith(hay[1..][k..], needle);
        assert hay[1..][k..] == hay[k + 1..];
      }
    }
    if exists k :: 0 <= k <= |hay| && StartsWith(hay[k..], needle) {
      var k :| 0 <= k <= |hay| && StartsWith(hay[k..], needle);
      if k > 0 {
        assert hay[1..][k - 1..] == hay[k..];
        ContainsAtOffset(hay[1..], needle);
      }
    }
  }

  /** The empty term occurs in every string, so `LIKE '%%'` matches any non-null value. */
  lemma EmptyIsEverywhere(hay: string)
    ensures Contains(hay, "")
  {
  }

  /** A term longer than the text never occurs in it. */
  lemma {:induction false} TooLongNeverOccurs(hay: string, needle: string)
    requires |needle| > |hay|
    ensures !Contains(hay, needle)
    decreases |hay|
  {
    if |hay| > 0 {
      TooLongNeverOccurs(hay[1..], needle);
    }
  }
}
