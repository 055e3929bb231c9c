/** Substring search on text, in the sense of Rust's `str::contains` with a string needle. */
module Text {

  /** `prefix` is an initial segment of `s`. */
  predicate IsPrefix(prefix: string, s: string)
  {
    |prefix| <= |s| && s[..|prefix|] == prefix
  }

  /** `needle` occurs somewhere in `haystack`, case-sensitively; the empty needle occurs in every text. */
  predicate Contains(haystack: string, needle: string)
    decreases |haystack|
  {
    IsPrefix(needle, haystack) || (|haystack| > 0 && Contains(haystack[1..], needle))
  }

  /** Reference definition: `needle` is the slice of `haystack` starting at `i`. */
  ghost predicate OccursAt(haystack: string, needle: string, i: int)
  {
    0 <= i && i + |needle| <= |haystack| && haystack[i..i + |needle|] == needle
  }

  /** `Contains` finds an occurrence exactly when there is one. */
  lemma {:induction false} ContainsIffOccurs(haystack: string, needle: string)
    ensures Contains(haystack, needle) <==> exists i :: OccursAt(haystack, needle, i)
    decreases |haystack|
  {
    if IsPrefix(needle, haystack) {
      assert OccursAt(haystack, needle, 0);
    } else if |haystack| == 0 {
      assert |needle| > 0;
    } else {
      var tail := haystack[1..];
      ContainsIffOccurs(tail, needle);
      if Contains(tail, needle) {
        var i :| OccursAt(tail, needle, i);
        assert haystack[i + 1..i + 1 + |needle|] == tail[i..i + |needle|];
        assert OccursAt(haystack, needle, i + 1);
      }
      if exists i :: OccursAt(haystack, needle, i) {
        var i :| OccursAt(haystack, needle, i);
        assert i != 0;
        assert haystack[i..i + |needle|] == tail[i - 1..i - 1 + |needle|];
        assert OccursAt(tail, needle, i - 1);
      }
    }
  }

  /** Every text contains itself and the empty text. */
  lemma ContainsSelfAndEmpty(s: string)
    ensures Contains(s, s)
    ensures Contains(s, "")
  {
    assert s[..|s|] == s;
    assert s[..0] == "";
  }

  /** A text never contains a needle longer than itself. */
  lemma {:induction false} ContainsNoLongerThan(haystack: string, needle: string)
    requires Contains(haystack, needle)
    ensures |needle| <= |haystack|
    decreases |haystack|
  {
    if !IsPrefix(needle, haystack) {
      ContainsNoLongerThan(haystack[1..], needle);
    }
  }
}
