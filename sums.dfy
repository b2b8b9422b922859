/** Sums of integer sequences over an index range, the only arithmetic the engines
    need besides + and -. */
module Sums {

  /** The sum of the entries s[lo], ..., s[hi-1], peeled from the back. */
  function Sum(s: seq<int>, lo: int, hi: int): int
    requires 0 <= lo && hi <= |s|
    decreases hi - lo
  {
    if hi <= lo then 0 else Sum(s, lo, hi - 1) + s[hi - 1]
  }

  /** Summing can equally peel the first entry. */
  lemma {:induction false} SumFront(s: seq<int>, lo: int, hi: int)
    requires 0 <= lo < hi <= |s|
    ensures Sum(s, lo, hi) == s[lo] + Sum(s, lo + 1, hi)
    decreases hi - lo
  {
    if lo + 1 < hi {
      SumFront(s, lo, hi - 1);
    }
  }

  /** Moving the range [a, b) one place to the right adds s[b] and drops s[a]. */
  lemma SumSlide(s: seq<int>, a: int, b: int)
    requires 0 <= a < b < |s|
    ensures Sum(s, a + 1, b + 1) == Sum(s, a, b) + s[b] - s[a]
  {
    SumFront(s, a, b + 1);
  }

  /** A sum only depends on the entries in its range. */
  lemma {:induction false} SumAgree(s: seq<int>, t: seq<int>, lo: int, hi: int)
    requires 0 <= lo && hi <= |s| && hi <= |t|
    requires forall i :: lo <= i < hi ==> s[i] == t[i]
    ensures Sum(s, lo, hi) == Sum(t, lo, hi)
    decreases hi - lo
  {
    if lo < hi {
      SumAgree(s, t, lo, hi - 1);
    }
  }
}
