/** dice.py's streaming engine: `convolve_deque` turns the first half of the
    distribution for k dice into the first half for k+1 dice with a deque of at most
    `n` entries and a running sum, and `dice_deque_generator` chains num-2 such stages
    onto the ramp 1..faces.  Each stage is modelled eagerly, from a finite sequence to
    a sequence. */
module DequeStream {
  import opened Sums
  import opened DiceDistribution

  /** The sum of the at most n entries of e ending at index p. */
  function WindowSum(e: seq<int>, p: nat, n: nat): int
    requires p < |e|
  {
    Sum(e, if p + 1 >= n then p + 1 - n else 0, p + 1)
  }

  /** The convolution of e with n ones, truncated to the length of e. */
  function Slide(e: seq<int>, n: nat): seq<int>
  {
    seq(|e|, p requires 0 <= p < |e| => WindowSum(e, p, n))
  }

  /** 1 when `convolve_deque` pops the back of its deque before draining, that is when
      (n % 2) + k is non-zero. */
  function DrainDrop(n: nat, k: int): nat
  {
    if n % 2 + k != 0 then 1 else 0
  }

  /** The upstream sequence s continued by the mirror image the drain phase reads. */
  function Extended(s: seq<int>, n: nat, k: int): seq<int>
    requires 1 <= n <= |s|
  {
    s + MirrorTail(s, DrainDrop(n, k), (n - DrainDrop(n, k)) / 2)
  }

  /** What the drain phase relies on: Extended(s, n, k) starts with s and continues
      with s read backwards, skipping DrainDrop(n, k) entries at its end. */
  lemma ExtendedFacts(s: seq<int>, n: nat, k: int)
    requires 1 <= n <= |s|
    ensures var e, d := Extended(s, n, k), DrainDrop(n, k);
      |e| == |s| + (n - d) / 2 && e[..|s|] == s &&
      forall x :: |s| <= x < |e| ==> e[x] == s[2 * |s| - 1 - d - x]
  {
  }

  /** Window sums ending inside a prefix only see that prefix. */
  lemma PrefixWindows(s: seq<int>, e: seq<int>, n: nat)
    requires |s| <= |e| && e[..|s|] == s
    ensures forall p :: 0 <= p < |s| ==> WindowSum(e, p, n) == WindowSum(s, p, n)
    ensures forall lo, hi :: 0 <= lo <= hi <= |s| ==> Sum(e, lo, hi) == Sum(s, lo, hi)
  {
    forall lo, hi | 0 <= lo <= hi <= |s|
      ensures Sum(e, lo, hi) == Sum(s, lo, hi)
    {
      SumAgree(e, s, lo, hi);
    }
  }

  /** Appending the window sum ending at c extends an output that holds the window
      sums ending before c. */
  lemma AppendWindow(s: seq<int>, n: nat, out: seq<int>, c: nat, r: int)
    requires c < |s| && |out| == c && r == WindowSum(s, c, n)
    requires forall p :: 0 <= p < c ==> out[p] == WindowSum(s, p, n)
    ensures forall p :: 0 <= p < c + 1 ==> (out + [r])[p] == WindowSum(s, p, n)
  {
  }

  /** One stage: the window sums of the upstream sequence continued by its mirror
      image, for |s| + floor((n - drop)/2) positions. */
  method ConvolveDeque(s: seq<int>, n: nat, k: int) returns (out: seq<int>)
    requires 1 <= n <= |s|
    ensures |out| == |s| + (n - DrainDrop(n, k)) / 2
    ensures out == Slide(Extended(s, n, k), n)
  {
    var q, r;
    q, r, out := Fill(s, n);
    q, r, out := SlideOn(s, n, q, r, out);
    out := Drain(s, n, k, q, r, out);
  }

  /** The first loop of a stage: the first n upstream entries fill the window, and each
      yields the running sum so far. */
  method Fill(s: seq<int>, n: nat) returns (q: seq<int>, r: int, out: seq<int>)
    requires 1 <= n <= |s|
    ensures q == s[..n] && r == Sum(s, 0, n)
    ensures |out| == n && forall p :: 0 <= p < n ==> out[p] == WindowSum(s, p, n)
  {
    q, r, out := [], 0, [];
    var c := 0;
    while c < n
      invariant 0 <= c <= n
      invariant q == s[..c]
      invariant r == Sum(s, 0, c)
      invariant |out| == c
      invariant forall p :: 0 <= p < c ==> out[p] == WindowSum(s, p, n)
    {
      var x := s[c];
      assert s[..c + 1] == q + [x];
      q := q + [x];
      r := r + x;
      AppendWindow(s, n, out, c, r);
      out := out + [r];
      c := c + 1;
    }
  }

  /** The second loop of a stage: each further upstream entry enters the window and the
      oldest one leaves it from the front of the deque. */
  method SlideOn(s: seq<int>, n: nat, q: seq<int>, r: int, out: seq<int>)
    returns (q': seq<int>, r': int, out': seq<int>)
    requires 1 <= n <= |s|
    requires q == s[..n] && r == Sum(s, 0, n)
    requires |out| == n && forall p :: 0 <= p < n ==> out[p] == WindowSum(s, p, n)
    ensures q' == s[|s| - n..] && r' == Sum(s, |s| - n, |s|)
    ensures |out'| == |s| && forall p :: 0 <= p < |s| ==> out'[p] == WindowSum(s, p, n)
  {
    q', r', out' := q, r, out;
    var c := n;
    while c < |s|
      invariant n <= c <= |s|
      invariant q' == s[c - n..c]
      invariant r' == Sum(s, c - n, c)
      invariant |out'| == c
      invariant forall p :: 0 <= p < c ==> out'[p] == WindowSum(s, p, n)
    {
      var x := s[c];
      SumSlide(s, c - n, c);
      DequeShift(s, c - n, c, q');
      r' := r' + x;
      r' := r' - q'[0];    // popleft
      q' := q'[1..];
      q' := q' + [x];
      AppendWindow(s, n, out', c, r');
      out' := out' + [r'];
      c := c + 1;
    }
  }

  /** The drain phase of a stage: once upstream is exhausted, the back of the deque
      (after one pop when (n % 2) + k is non-zero) supplies the mirrored continuation
      and the front supplies the entries leaving the window, until at most one entry
      is left. */
  method Drain(ghost s: seq<int>, n: nat, k: int, q: seq<int>, r: int, out: seq<int>)
    returns (out': seq<int>)
    requires 1 <= n <= |s|
    requires q == s[|s| - n..] && r == Sum(s, |s| - n, |s|)
    requires |out| == |s| && forall p :: 0 <= p < |out| ==> out[p] == WindowSum(s, p, n)
    ensures out' == Slide(Extended(s, n, k), n)
  {
    ghost var e, d := Extended(s, n, k), DrainDrop(n, k);
    ghost var m := (n - d) / 2;
    assert |e| == |s| + m && 0 <= n - d - 2 * m <= 1 && e[..|s|] == s &&
      forall x :: |s| <= x < |e| ==> e[x] == s[2 * |s| - 1 - d - x] by {
      ExtendedFacts(s, n, k);
    }
    assert r == Sum(e, |s| - n, |s|) &&
      forall p :: 0 <= p < |s| ==> out[p] == WindowSum(e, p, n) by {
      PrefixWindows(s, e, n);
    }
    var q := q;
    if n % 2 + k != 0 {
      q := q[..|q| - 1];   // pop
    }
    out' := DrainLoop(s, e, n, d, m, q, r, out);
  }

  /** The loop of the drain phase, over the continuation e of s: each step pops the
      back of the deque into the window and pops the front out of it. */
  method DrainLoop(ghost s: seq<int>, ghost e: seq<int>, n: nat, ghost d: nat, ghost m: nat, q: seq<int>, r: int, out: seq<int>)
    returns (out': seq<int>)
    requires d <= 1 && 1 <= n <= |s|
    requires |e| == |s| + m && 0 <= n - d - 2 * m <= 1 && e[..|s|] == s
    requires forall x :: |s| <= x < |e| ==> e[x] == s[2 * |s| - 1 - d - x]
    requires q == s[|s| - n..|s| - d] && r == Sum(e, |s| - n, |s|)
    requires |out| == |s| && forall p :: 0 <= p < |out| ==> out[p] == WindowSum(e, p, n)
    ensures out' == Slide(e, n)
  {
    var q, r := q, r;
    out' := out;
    ghost var lo, hi := |s| - n, |s| - d;
    while |q| > 1
      invariant |s| - n <= lo <= hi <= |s| - d
      invariant q == s[lo..hi]
      invariant |out'| == lo + n <= |e|
      invariant hi == |s| - d - (lo - (|s| - n))
      invariant r == Sum(e, lo, lo + n)
      invariant forall p :: 0 <= p < |out'| ==> out'[p] == WindowSum(e, p, n)
      decreases |q|
    {
      DrainStep(s, e, n, d, m, lo, hi, r);
      DequeEnds(s, lo, hi, q);
      r := r + q[|q| - 1];   // pop
      q := q[..|q| - 1];
      r := r - q[0];         // popleft
      q := q[1..];
      out' := out' + [r];
      lo, hi := lo + 1, hi - 1;
    }
  }

  /** A deque holding s[lo..hi] that pops its front and appends s[hi] holds
      s[lo+1..hi+1]. */
  lemma DequeShift(s: seq<int>, lo: int, hi: int, q: seq<int>)
    requires 0 <= lo < hi < |s| && q == s[lo..hi]
    ensures q[0] == s[lo] && q[1..] + [s[hi]] == s[lo + 1..hi + 1]
  {
  }

  /** The two ends of a deque holding s[lo..hi], and what is left between them. */
  lemma DequeEnds(s: seq<int>, lo: int, hi: int, q: seq<int>)
    requires 0 <= lo && lo + 1 < hi <= |s| && q == s[lo..hi]
    ensures q[|q| - 1] == s[hi - 1] && q[0] == s[lo]
    ensures q[..|q| - 1][1..] == s[lo + 1..hi - 1]
  {
    assert q[..|q| - 1] == s[lo..hi - 1];
  }

  /** One drain step: the entry taken from the back of the deque is the next entry of
      the mirrored continuation, and the window sum moves one place. */
  lemma DrainStep(s: seq<int>, e: seq<int>, n: nat, d: nat, m: nat, lo: nat, hi: nat, r: int)
    requires d <= 1 && 1 <= n <= |s|
    requires |e| == |s| + m && 0 <= n - d - 2 * m <= 1 && e[..|s|] == s
    requires forall x :: |s| <= x < |e| ==> e[x] == s[2 * |s| - 1 - d - x]
    requires |s| - n <= lo && lo + 1 < hi <= |s| - d
    requires hi == |s| - d - (lo - (|s| - n))
    requires r == Sum(e, lo, lo + n)
    ensures lo + n < |e|
    ensures e[lo + n] == s[hi - 1] && e[lo] == s[lo]
    ensures r + s[hi - 1] - s[lo] == WindowSum(e, lo + n, n)
  {
    SumSlide(e, lo, lo + n);
    assert e[lo] == e[..|s|][lo];
  }

  // ---------------------------------------------------------------------------
  // What one stage does to a half of the distribution

  /** Window sums over the distribution for k dice are the distribution for k+1 dice. */
  lemma {:induction false} WindowIsSliceSum(faces: nat, k: nat, e: seq<int>, p: int, c: nat)
    requires faces >= 1 && -1 <= p < |e|
    requires forall x :: 0 <= x < |e| ==> e[x] == Ways(faces, k, x)
    ensures Window(faces, k, p, c) == Sum(e, if p + 1 >= c then p + 1 - c else 0, p + 1)
  {
    if p == -1 {
      WindowVanishes(faces, k, p, c);
    } else if c > 0 {
      WindowIsSliceSum(faces, k, e, p - 1, c - 1);
    }
  }

  lemma SlideOfWays(faces: nat, k: nat, e: seq<int>)
    requires faces >= 1
    requires forall x :: 0 <= x < |e| ==> e[x] == Ways(faces, k, x)
    ensures forall p :: 0 <= p < |e| ==> Slide(e, faces)[p] == Ways(faces, k + 1, p)
  {
    forall p | 0 <= p < |e|
      ensures Slide(e, faces)[p] == Ways(faces, k + 1, p)
    {
      WindowIsSliceSum(faces, k, e, p, faces);
    }
  }

  /** The back of the deque is popped exactly when L_k = k*(faces-1)+1, the length of
      the distribution whose half is upstream, is odd, and the drain then yields exactly
      the growth of the half. */
  lemma DrainMatchesParity(faces: nat, k: nat)
    requires faces >= 1
    ensures DrainDrop(faces, (k + 1) % 2) == 1 - EvenFlag(faces, k)
    ensures DrainDrop(faces, (k + 1) % 2) == 1 <==> (k * (faces - 1) + 1) % 2 == 1
    ensures HalfLen(faces, k) + (faces - DrainDrop(faces, (k + 1) % 2)) / 2 == HalfLen(faces, k + 1)
  {
    var d, e := DrainDrop(faces, (k + 1) % 2), EvenFlag(faces, k);
    assert d == 1 - e by {
      if faces % 2 == 0 && k % 2 == 1 {
        assert (k + 1) % 2 == 0 && d == 0;
        assert (faces + 1) % 2 == 1 && e == 1;
      } else if faces % 2 == 0 {
        assert (k + 1) % 2 == 1 && d == 1;
        assert k % 2 == 0 && e == 0;
      } else {
        assert d == 1;
        assert (faces + 1) % 2 == 0 && e == 0;
      }
    }
    SpanOddness(faces, k);
    assert HalfLen(faces, k) + (faces - d) / 2 == HalfLen(faces, k + 1) by {
      HalfGrowth(faces, k);
    }
  }

  /** The half for k dice, continued as the drain phase of stage k+1 reads it, is the
      first HalfLen(faces, k+1) entries of the same distribution. */
  lemma ExtendedHalf(faces: nat, k: nat, h: seq<int>)
    requires faces >= 1 && k >= 2 && |h| == HalfLen(faces, k)
    requires forall x :: 0 <= x < |h| ==> h[x] == Ways(faces, k, x)
    ensures faces <= |h|
    ensures var e := Extended(h, faces, (k + 1) % 2);
      |e| == HalfLen(faces, k + 1) && forall x :: 0 <= x < |e| ==> e[x] == Ways(faces, k, x)
  {
    assert faces <= |h| by {
      HalfMonotone(faces, 2, k);
      assert HalfLen(faces, 2) == faces;
    }
    var d := DrainDrop(faces, (k + 1) % 2);
    var c := (faces - d) / 2;
    assert d == 1 - EvenFlag(faces, k) && |h| + c == HalfLen(faces, k + 1) by {
      DrainMatchesParity(faces, k);
    }
    var t := MirrorTail(h, d, c);
    assert forall j :: 0 <= j < c ==> t[j] == Ways(faces, k, |h| + j) by {
      MirrorTailOfHalf(faces, k, h, d, c);
    }
    var e := Extended(h, faces, (k + 1) % 2);
    assert e == h + t;
    forall x | 0 <= x < |e|
      ensures e[x] == Ways(faces, k, x)
    {
      if x >= |h| {
        assert e[x] == t[x - |h|];
      }
    }
  }

  /** Stage i of the chain (k = i - 1 dice upstream, called with k = i % 2) turns the
      half for k dice into the half for k+1 dice. */
  lemma StageCorrect(faces: nat, k: nat)
    requires faces >= 1 && k >= 2
    ensures faces <= |Half(faces, k)|
    ensures Slide(Extended(Half(faces, k), faces, (k + 1) % 2), faces) == Half(faces, k + 1)
  {
    ExtendedHalf(faces, k, Half(faces, k));
    SlideOfWays(faces, k, Extended(Half(faces, k), faces, (k + 1) % 2));
  }

  /** `dice_deque_generator(faces, num)`, exhausted as `dice_gen` does: exactly the
      first ceil(L/2) counts of the sum of num dice. */
  method DiceDequeGenerator(faces: int, num: int) returns (out: seq<int>)
    requires faces >= 1 && num >= 2
    ensures out == Half(faces, num)
  {
    var gen := seq(faces, x requires 0 <= x < faces => x + 1);   // xrange(1, faces + 1)
    HalfOfTwoDice(faces);
    var i := 3;
    while i < num + 1
      invariant 3 <= i <= num + 1
      invariant gen == Half(faces, i - 1)
    {
      StageCorrect(faces, i - 1);
      gen := ConvolveDeque(gen, faces, i % 2);
      i := i + 1;
    }
    out := gen;
  }
}
