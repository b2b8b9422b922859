/** The reference distribution of the sum of k dice with `faces` sides, and the facts
    about it that both engines rely on: its support, its symmetry, the difference rule
    of one more fold, and the length of its first half. */
module DiceDistribution {
  import opened Sums

  /** Ways(faces, k, s): the number of ways k dice with sides 1..faces show the total
      s + k, i.e. the coefficient of x^s in (1 + x + ... + x^(faces-1))^k.  It is
      defined for every integer s and is zero outside [0, k*(faces-1)]. */
  function Ways(faces: nat, k: nat, s: int): nat
    decreases k, 0
  {
    if k == 0 then (if s == 0 then 1 else 0)
    else Window(faces, k - 1, s, faces)
  }

  /** The sum of Ways(faces, k, t) over the n indices t = s, s-1, ..., s-n+1.
      One more die with `faces` sides turns Ways(faces, k, _) into Window(faces, k, _, faces). */
  function Window(faces: nat, k: nat, s: int, n: nat): nat
    decreases k, 1, n
  {
    if n == 0 then 0 else Ways(faces, k, s) + Window(faces, k, s - 1, n - 1)
  }

  /** Half length ceil(L/2) of the distribution of k dice, where L = k*(faces-1)+1. */
  function HalfLen(faces: nat, k: nat): nat
    requires faces >= 1
  {
    (k * (faces - 1) + 2) / 2
  }

  /** 1 exactly when L = k*(faces-1)+1 is even, that is when the half ends with the
      first of two equal middle entries; the engines compute it as ((faces+1) & 1) & k. */
  function EvenFlag(faces: nat, k: nat): nat
  {
    ((faces + 1) % 2) * (k % 2)
  }

  /** The whole distribution: entry j counts the ways to roll j + k. */
  function Dist(faces: nat, k: nat): seq<int>
    requires faces >= 1
  {
    seq(k * (faces - 1) + 1, s requires 0 <= s => Ways(faces, k, s))
  }

  /** The first ceil(L/2) entries of Dist(faces, k): what both engines produce. */
  function Half(faces: nat, k: nat): seq<int>
    requires faces >= 1
  {
    seq(HalfLen(faces, k), s requires 0 <= s => Ways(faces, k, s))
  }

  /** The c entries that continue a half h by reading it backwards: the first copy
      skips d entries at the end of h (d == 1 when the middle entry is not doubled). */
  function MirrorTail(h: seq<int>, d: nat, c: nat): seq<int>
    requires c + d <= |h|
  {
    seq(c, j requires 0 <= j < c => h[|h| - 1 - d - j])
  }

  /** Rebuilds a sequence of length len from its first half, as a final mirroring
      step would. */
  function Unfold(h: seq<int>, len: nat): seq<int>
    requires len <= 2 * |h|
  {
    seq(len, x requires 0 <= x < len => if x < |h| then h[x] else h[len - 1 - x])
  }

  // ---------------------------------------------------------------------------
  // Support

  /** The distribution of k dice vanishes below 0 and above k*(faces-1). */
  lemma {:induction false} Support(faces: nat, k: nat, s: int)
    requires faces >= 1
    ensures s < 0 || s > k * (faces - 1) ==> Ways(faces, k, s) == 0
    decreases k, 0
  {
    if k > 0 && (s < 0 || s > k * (faces - 1)) {
      assert k * (faces - 1) == (k - 1) * (faces - 1) + (faces - 1);
      WindowVanishes(faces, k - 1, s, faces);
    }
  }

  /** A window lying entirely outside the support sums to zero. */
  lemma {:induction false} WindowVanishes(faces: nat, k: nat, s: int, n: nat)
    requires faces >= 1
    requires s < 0 || s - n + 1 > k * (faces - 1)
    ensures Window(faces, k, s, n) == 0
    decreases k, 1, n
  {
    if n > 0 {
      Support(faces, k, s);
      WindowVanishes(faces, k, s - 1, n - 1);
    }
  }

  // ---------------------------------------------------------------------------
  // Windows

  /** A window can equally be extended at its low end. */
  lemma {:induction false} PeelLow(faces: nat, k: nat, s: int, n: nat)
    ensures Window(faces, k, s, n + 1) == Window(faces, k, s, n) + Ways(faces, k, s - n)
    decreases n
  {
    if n > 0 {
      PeelLow(faces, k, s - 1, n - 1);
    }
  }

  /** The finite-difference rule behind both engines: folding in one more die changes
      consecutive entries by the entry entering the window minus the one leaving it,
      Ways(k+1, s) - Ways(k+1, s-1) == Ways(k, s) - Ways(k, s-faces). */
  lemma FoldDifference(faces: nat, k: nat, s: int)
    ensures Ways(faces, k + 1, s) - Ways(faces, k + 1, s - 1)
         == Ways(faces, k, s) - Ways(faces, k, s - faces)
  {
    PeelLow(faces, k, s, faces);
  }

  // ---------------------------------------------------------------------------
  // Symmetry

  /** The distribution of k dice is a palindrome about k*(faces-1)/2. */
  lemma {:induction false} Symmetry(faces: nat, k: nat, s: int)
    ensures Ways(faces, k, s) == Ways(faces, k, k * (faces - 1) - s)
    decreases k, 0
  {
    if k > 0 {
      assert k * (faces - 1) == (k - 1) * (faces - 1) + (faces - 1);
      WindowReflect(faces, k - 1, k * (faces - 1) - s, faces);
    }
  }

  /** Reflecting the window [s-n+1, s] about the centre of the support keeps its sum. */
  lemma {:induction false} WindowReflect(faces: nat, k: nat, s: int, n: nat)
    ensures Window(faces, k, s, n) == Window(faces, k, k * (faces - 1) - s + n - 1, n)
    decreases k, 1, n
  {
    if n > 0 {
      WindowReflect(faces, k, s - 1, n - 1);
      PeelLow(faces, k, k * (faces - 1) - s + n - 1, n - 1);
      Symmetry(faces, k, s);
    }
  }

  /** With symmetry, the first half determines the whole distribution. */
  lemma HalfDeterminesDist(faces: nat, k: nat)
    requires faces >= 1
    ensures k * (faces - 1) + 1 <= 2 * |Half(faces, k)|
    ensures Unfold(Half(faces, k), k * (faces - 1) + 1) == Dist(faces, k)
  {
    SpanParity(faces, k);
    var h, len := Half(faces, k), k * (faces - 1) + 1;
    forall x | 0 <= x < len
      ensures Unfold(h, len)[x] == Dist(faces, k)[x]
    {
      if x >= |h| {
        Symmetry(faces, k, x);
      }
    }
  }

  // ---------------------------------------------------------------------------
  // Small numbers of dice

  lemma {:induction false} WindowOverNoDice(faces: nat, s: int, n: nat)
    ensures Window(faces, 0, s, n) == if 0 <= s < n then 1 else 0
    decreases n
  {
    if n > 0 {
      WindowOverNoDice(faces, s - 1, n - 1);
    }
  }

  /** One die: every total 1..faces in exactly one way. */
  lemma OneDie(faces: nat, s: int)
    ensures Ways(faces, 1, s) == if 0 <= s < faces then 1 else 0
  {
    WindowOverNoDice(faces, s, faces);
  }

  lemma {:induction false} WindowOverOneDie(faces: nat, s: int, c: nat)
    requires faces >= 1 && -1 <= s < faces
    ensures Window(faces, 1, s, c) == if c <= s + 1 then c else s + 1
  {
    if s == -1 {
      WindowVanishes(faces, 1, s, c);
    } else if c > 0 {
      OneDie(faces, s);
      WindowOverOneDie(faces, s - 1, c - 1);
    }
  }

  /** Two dice: the first half of the distribution is the ramp 1, 2, ..., faces. */
  lemma HalfOfTwoDice(faces: nat)
    requires faces >= 1
    ensures HalfLen(faces, 2) == faces
    ensures forall s :: 0 <= s < faces ==> Ways(faces, 2, s) == s + 1
    ensures Half(faces, 2) == seq(faces, j => j + 1)
  {
    forall s | 0 <= s < faces
      ensures Ways(faces, 2, s) == s + 1
    {
      WindowOverOneDie(faces, s, faces);
    }
  }

  /** One-sided dice: whatever the number of dice, a single outcome. */
  lemma {:induction false} OneFace(k: nat, s: int)
    ensures Ways(1, k, s) == if s == 0 then 1 else 0
  {
    if k > 0 {
      OneFace(k - 1, s);
      assert Ways(1, k, s) == Window(1, k - 1, s, 1) == Ways(1, k - 1, s);
    }
  }

  lemma HalfOfOneFace(k: nat)
    ensures Half(1, k) == [1] && Dist(1, k) == [1]
  {
    OneFace(k, 0);
  }

  // ---------------------------------------------------------------------------
  // Half lengths

  /** k*(faces-1) is 2*HalfLen - 2 when L is odd and 2*HalfLen - 1 when L is even. */
  lemma SpanParity(faces: nat, k: nat)
    requires faces >= 1
    ensures k * (faces - 1) == 2 * HalfLen(faces, k) - 2 + EvenFlag(faces, k)
  {
    var m := k * (faces - 1);
    ProductParity(k, faces - 1);
    assert (faces - 1) % 2 == (faces + 1) % 2;
    if m % 2 == 1 {
      assert EvenFlag(faces, k) == 1;
    } else {
      assert EvenFlag(faces, k) == 0;
    }
  }

  /** A product is odd exactly when both factors are. */
  lemma ProductParity(a: nat, b: nat)
    ensures (a * b) % 2 == 1 <==> a % 2 == 1 && b % 2 == 1
  {
    var x, y := a / 2, a * b;
    if a % 2 == 0 {
      assert y == 2 * (x * b) by {
        MulDouble(x, b, 0);
      }
    } else {
      assert y == 2 * (x * b) + b by {
        MulDouble(x, b, 1);
      }
    }
  }

  lemma MulDouble(x: int, b: int, p: int)
    ensures (2 * x + p) * b == 2 * (x * b) + p * b
  {
  }

  /** The length k*(faces-1)+1 of the distribution is odd exactly when the flag is 0. */
  lemma SpanOddness(faces: nat, k: nat)
    requires faces >= 1
    ensures (k * (faces - 1) + 1) % 2 == 1 - EvenFlag(faces, k)
  {
    var m := k * (faces - 1);
    assert m % 2 == EvenFlag(faces, k) by {
      ProductParity(k, faces - 1);
      assert (faces - 1) % 2 == (faces + 1) % 2;
      if m % 2 == 1 {
        assert EvenFlag(faces, k) == 1;
      } else {
        assert EvenFlag(faces, k) == 0;
      }
    }
    SuccessorParity(m);
  }

  lemma SuccessorParity(m: int)
    ensures (m + 1) % 2 == 1 - m % 2
  {
  }

  /** One more die grows the half by (faces-1)/2 entries, plus one when the old
      length k*(faces-1)+1 is even. */
  lemma HalfGrowth(faces: nat, k: nat)
    requires faces >= 1
    ensures HalfLen(faces, k + 1) == HalfLen(faces, k) + (faces - 1) / 2 + EvenFlag(faces, k)
  {
    HalfLenNext(faces, k);
    FlagIsSpanParity(faces, k);
    ProductParity(k, faces - 1);
    HalfArith(k * (faces - 1), faces - 1);
  }

  lemma HalfLenNext(faces: nat, k: nat)
    requires faces >= 1
    ensures HalfLen(faces, k + 1) == (k * (faces - 1) + (faces - 1) + 2) / 2
  {
    MulStep(k + 1, faces - 1);
  }

  lemma FlagIsSpanParity(faces: nat, k: nat)
    requires faces >= 1
    ensures EvenFlag(faces, k) == (k * (faces - 1)) % 2
  {
    SpanOddness(faces, k);
    SuccessorParity(k * (faces - 1));
  }

  /** Growing an even span by f keeps the half growing by f/2; growing an odd one (which
      needs f odd) by f gains one more entry. */
  lemma HalfArith(m: int, f: int)
    requires m >= 0 && f >= 0 && (m % 2 == 1 ==> f % 2 == 1)
    ensures (m + f + 2) / 2 == (m + 2) / 2 + f / 2 + m % 2
  {
  }

  lemma {:induction false} HalfMonotone(faces: nat, a: nat, b: nat)
    requires faces >= 1 && a <= b
    ensures HalfLen(faces, a) <= HalfLen(faces, b)
  {
    if a < b {
      HalfMonotone(faces, a, b - 1);
      HalfGrowth(faces, b - 1);
    }
  }

  /** Reading a half backwards continues it: with d = 1 - EvenFlag, the mirrored
      entries are the next entries of the distribution. */
  lemma MirrorTailOfHalf(faces: nat, k: nat, h: seq<int>, d: nat, c: nat)
    requires faces >= 1 && |h| == HalfLen(faces, k)
    requires forall x :: 0 <= x < |h| ==> h[x] == Ways(faces, k, x)
    requires d == 1 - EvenFlag(faces, k) && c + d <= |h|
    ensures forall j :: 0 <= j < c ==> MirrorTail(h, d, c)[j] == Ways(faces, k, |h| + j)
  {
    SpanParity(faces, k);
    forall j | 0 <= j < c
      ensures MirrorTail(h, d, c)[j] == Ways(faces, k, |h| + j)
    {
      Symmetry(faces, k, |h| + j);
    }
  }

  // ---------------------------------------------------------------------------
  // Growth towards the centre

  /** Up to the middle of the support, the counts do not decrease: one more die adds the
      entry entering the window and removes one lying further from the centre. */
  lemma {:induction false} MonoStep(faces: nat, k: nat, s: int)
    requires faces >= 1 && 2 * (s + 1) <= k * (faces - 1)
    ensures Ways(faces, k, s) <= Ways(faces, k, s + 1)
    decreases k, 0
  {
    if k > 0 {
      var m := (k - 1) * (faces - 1);
      assert k * (faces - 1) == m + faces - 1;
      FoldDifference(faces, k - 1, s + 1);
      if 2 * (s + 1) <= m {
        Mono(faces, k - 1, s + 1 - faces, s + 1);
      } else {
        Symmetry(faces, k - 1, s + 1);
        Mono(faces, k - 1, s + 1 - faces, m - s - 1);
      }
    }
  }

  /** The counts do not decrease from any index a to any index b up to the middle. */
  lemma {:induction false} Mono(faces: nat, k: nat, a: int, b: int)
    requires faces >= 1 && a <= b && 2 * b <= k * (faces - 1)
    ensures Ways(faces, k, a) <= Ways(faces, k, b)
    decreases k, 1, b - a
  {
    if a < b {
      Mono(faces, k, a, b - 1);
      MonoStep(faces, k, b - 1);
    }
  }

  /** The last entry of the half is the largest count of the whole distribution. */
  lemma CentreIsMax(faces: nat, k: nat, s: int)
    requires faces >= 1
    ensures Ways(faces, k, s) <= Ways(faces, k, HalfLen(faces, k) - 1)
  {
    var c, m := HalfLen(faces, k) - 1, k * (faces - 1);
    assert m == 2 * c + EvenFlag(faces, k) && EvenFlag(faces, k) <= 1 by {
      SpanParity(faces, k);
    }
    if 2 * s <= m {
      Mono(faces, k, s, c);
    } else {
      Symmetry(faces, k, s);
      Mono(faces, k, m - s, c);
    }
  }

  // ---------------------------------------------------------------------------
  // Total count

  /** b raised to the power e. */
  function Pow(b: nat, e: nat): nat
  {
    if e == 0 then 1 else b * Pow(b, e - 1)
  }

  /** The sum of Ways(faces, k, s) over lo <= s < hi. */
  function WaysTotal(faces: nat, k: nat, lo: int, hi: int): nat
    decreases hi - lo
  {
    if hi <= lo then 0 else WaysTotal(faces, k, lo, hi - 1) + Ways(faces, k, hi - 1)
  }

  /** The sum of Window(faces, k, s, n) over lo <= s < hi. */
  function WindowTotal(faces: nat, k: nat, lo: int, hi: int, n: nat): nat
    decreases hi - lo
  {
    if hi <= lo then 0 else WindowTotal(faces, k, lo, hi - 1, n) + Window(faces, k, hi - 1, n)
  }

  lemma {:induction false} WaysTotalFront(faces: nat, k: nat, lo: int, hi: int)
    requires lo < hi
    ensures WaysTotal(faces, k, lo, hi) == Ways(faces, k, lo) + WaysTotal(faces, k, lo + 1, hi)
    decreases hi - lo
  {
    if lo + 1 < hi {
      WaysTotalFront(faces, k, lo, hi - 1);
    }
  }

  /** Any range covering the support [0, k*(faces-1)] sums to the same total. */
  lemma {:induction false} WaysTotalCovers(faces: nat, k: nat, lo: int, hi: int)
    requires faces >= 1 && lo <= 0 && k * (faces - 1) + 1 <= hi
    ensures WaysTotal(faces, k, lo, hi) == WaysTotal(faces, k, 0, k * (faces - 1) + 1)
    decreases hi - lo
  {
    if hi > k * (faces - 1) + 1 {
      Support(faces, k, hi - 1);
      WaysTotalCovers(faces, k, lo, hi - 1);
    } else if lo < 0 {
      WaysTotalFront(faces, k, lo, hi);
      Support(faces, k, lo);
      WaysTotalCovers(faces, k, lo + 1, hi);
    }
  }

  /** Widening every window by one adds the total of a shifted range. */
  lemma {:induction false} WindowTotalPeel(faces: nat, k: nat, lo: int, hi: int, n: nat)
    ensures WindowTotal(faces, k, lo, hi, n + 1) == WindowTotal(faces, k, lo, hi, n) + WaysTotal(faces, k, lo - n, hi - n)
    decreases hi - lo
  {
    if lo < hi {
      WindowTotalPeel(faces, k, lo, hi - 1, n);
      PeelLow(faces, k, hi - 1, n);
    }
  }

  lemma {:induction false} WindowTotalEmpty(faces: nat, k: nat, lo: int, hi: int)
    ensures WindowTotal(faces, k, lo, hi, 0) == 0
    decreases hi - lo
  {
    if lo < hi {
      WindowTotalEmpty(faces, k, lo, hi - 1);
    }
  }

  lemma MulStep(n: int, t: int)
    ensures (n - 1) * t + t == n * t
  {
  }

  /** Over the support of k+1 dice, windows of width n <= faces sum to n times the
      total for k dice. */
  lemma {:induction false} WindowTotalCount(faces: nat, k: nat, n: nat)
    requires faces >= 1 && n <= faces
    ensures WindowTotal(faces, k, 0, k * (faces - 1) + faces, n) == n * WaysTotal(faces, k, 0, k * (faces - 1) + 1)
  {
    var hi := k * (faces - 1) + faces;
    var total := WaysTotal(faces, k, 0, k * (faces - 1) + 1);
    if n == 0 {
      WindowTotalEmpty(faces, k, 0, hi);
    } else {
      var w := WindowTotal(faces, k, 0, hi, n - 1);
      assert w == (n - 1) * total by {
        WindowTotalCount(faces, k, n - 1);
      }
      assert WindowTotal(faces, k, 0, hi, n) == w + WaysTotal(faces, k, 1 - n, hi + 1 - n) by {
        WindowTotalPeel(faces, k, 0, hi, n - 1);
      }
      assert WaysTotal(faces, k, 1 - n, hi + 1 - n) == total by {
        WaysTotalCovers(faces, k, 1 - n, hi + 1 - n);
      }
      MulStep(n, total);
    }
  }

  /** The total for k+1 dice is the total of the windows over k dice. */
  lemma {:induction false} WaysTotalOfNextDie(faces: nat, k: nat, lo: int, hi: int)
    ensures WaysTotal(faces, k + 1, lo, hi) == WindowTotal(faces, k, lo, hi, faces)
    decreases hi - lo
  {
    if lo < hi {
      WaysTotalOfNextDie(faces, k, lo, hi - 1);
    }
  }

  /** There are faces^k outcomes of k dice with `faces` sides. */
  lemma {:induction false} WaysTotalPow(faces: nat, k: nat)
    requires faces >= 1
    ensures WaysTotal(faces, k, 0, k * (faces - 1) + 1) == Pow(faces, k)
  {
    if k > 0 {
      WaysTotalPow(faces, k - 1);
      assert k * (faces - 1) + 1 == (k - 1) * (faces - 1) + faces;
      WaysTotalOfNextDie(faces, k - 1, 0, k * (faces - 1) + 1);
      WindowTotalCount(faces, k - 1, faces);
    }
  }

  lemma {:induction false} SumOfDist(faces: nat, k: nat, hi: nat)
    requires faces >= 1 && hi <= k * (faces - 1) + 1
    ensures Sum(Dist(faces, k), 0, hi) == WaysTotal(faces, k, 0, hi)
  {
    if hi > 0 {
      SumOfDist(faces, k, hi - 1);
    }
  }

  /** The counts of the distribution add up to faces^k, the number of outcomes. */
  lemma TotalCount(faces: nat, k: nat)
    requires faces >= 1
    ensures Sum(Dist(faces, k), 0, k * (faces - 1) + 1) == Pow(faces, k)
  {
    SumOfDist(faces, k, k * (faces - 1) + 1);
    WaysTotalPow(faces, k);
  }
}
