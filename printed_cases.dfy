/** The two cases the script prints for every implementation, (6, 4) and (7, 5),
    derived from the ramp of two dice by the streaming stage.  Each stage is checked on
    concrete values by recursive tests that halve their index range, which Dafny
    evaluates on literals; the soundness lemmas of the tests turn the check into a
    statement about Slide and Extended. */
module PrintedCases {
  import opened Sums
  import opened DiceDistribution
  import opened DequeStream

  /** t[p..q] reads s backwards, skipping d entries at its end; checked by halving the
      range. */
  function MirrorFrom(s: seq<int>, d: nat, t: seq<int>, p: nat, q: nat): bool
    requires q <= |t| && |t| + d <= |s|
    decreases q - p
  {
    if q <= p then true
    else if q == p + 1 then t[p] == s[|s| - 1 - d - p]
    else MirrorFrom(s, d, t, p, (p + q) / 2) && MirrorFrom(s, d, t, (p + q) / 2, q)
  }

  lemma {:induction false} MirrorFromSound(s: seq<int>, d: nat, t: seq<int>, p: nat, q: nat)
    requires q <= |t| && |t| + d <= |s| && MirrorFrom(s, d, t, p, q)
    ensures forall i :: p <= i < q ==> t[i] == s[|s| - 1 - d - i]
    decreases q - p
  {
    if q > p + 1 {
      MirrorFromSound(s, d, t, p, (p + q) / 2);
      MirrorFromSound(s, d, t, (p + q) / 2, q);
    }
  }

  /** The running-sum step of a stage at index p: the sum grows by the entry entering
      the window and shrinks by the one leaving it, as `r += e; r -= q.popleft()`. */
  predicate RunningStep(e: seq<int>, n: nat, o: seq<int>, p: nat)
    requires p < |e| && |o| == |e|
  {
    o[p] == (if p == 0 then 0 else o[p - 1]) + e[p] - (if p >= n then e[p - n] else 0)
  }

  /** Every index in [p, q) takes a running-sum step; checked by halving the range. */
  function RunningFrom(e: seq<int>, n: nat, o: seq<int>, p: nat, q: nat): bool
    requires q <= |e| && |o| == |e|
    decreases q - p
  {
    if q <= p then true
    else if q == p + 1 then RunningStep(e, n, o, p)
    else RunningFrom(e, n, o, p, (p + q) / 2) && RunningFrom(e, n, o, (p + q) / 2, q)
  }

  lemma {:induction false} RunningFromSound(e: seq<int>, n: nat, o: seq<int>, p: nat, q: nat)
    requires q <= |e| && |o| == |e| && RunningFrom(e, n, o, p, q)
    ensures forall i :: p <= i < q ==> RunningStep(e, n, o, i)
    decreases q - p
  {
    if q > p + 1 {
      RunningFromSound(e, n, o, p, (p + q) / 2);
      RunningFromSound(e, n, o, (p + q) / 2, q);
    }
  }

  /** A sequence built by running-sum steps holds the window sums. */
  lemma {:induction false} RunningIsSlide(e: seq<int>, n: nat, o: seq<int>, q: nat)
    requires n >= 1 && q <= |e| && |o| == |e|
    requires forall i :: 0 <= i < q ==> RunningStep(e, n, o, i)
    ensures forall i :: 0 <= i < q ==> Slide(e, n)[i] == o[i]
  {
    if q > 0 {
      RunningIsSlide(e, n, o, q - 1);
      var p := q - 1;
      assert RunningStep(e, n, o, p);
      if p > 0 && p >= n {
        SumSlide(e, p - n, p);
      }
    }
  }

  /** A stage checked on values: when t reads s backwards as the drain does, and o is
      built from s + t by running-sum steps, the stage maps s to o. */
  lemma StageByCheck(s: seq<int>, n: nat, k: int, d: nat, len: nat, t: seq<int>, o: seq<int>)
    requires 1 <= n <= |s| && d == DrainDrop(n, k)
    requires |t| == (n - d) / 2 && len == |s| + |t| && |o| == len
    requires MirrorFrom(s, d, t, 0, |t|) && RunningFrom(s + t, n, o, 0, len)
    ensures Slide(Extended(s, n, k), n) == o
  {
    MirrorFromSound(s, d, t, 0, |t|);
    assert t == MirrorTail(s, d, |t|);
    RunningFromSound(s + t, n, o, 0, len);
    RunningIsSlide(s + t, n, o, len);
    assert Slide(s + t, n) == o;
  }

  /** Stage 3 with 6 faces (k = 1): one pop, the middle entry is not repeated. */
  lemma StageSixThree()
    ensures Slide(Extended([1, 2, 3, 4, 5, 6], 6, 1), 6) ==
      [1, 3, 6, 10, 15, 21, 25, 27]
  {
    StageByCheck([1, 2, 3, 4, 5, 6], 6, 1, 1, 8,
      [5, 4],
      [1, 3, 6, 10, 15, 21, 25, 27]);
  }

  /** Stage 4 with 6 faces (k = 0): no pop, the middle entry is repeated. */
  lemma StageSixFour()
    ensures Slide(Extended([1, 3, 6, 10, 15, 21, 25, 27], 6, 0), 6) ==
      [1, 4, 10, 20, 35, 56, 80, 104, 125, 140, 146]
  {
    StageByCheck([1, 3, 6, 10, 15, 21, 25, 27], 6, 0, 0, 11,
      [27, 25, 21],
      [1, 4, 10, 20, 35, 56, 80, 104, 125, 140, 146]);
  }

  /** The seed for 6 faces; stated apart so that the case lemma does not evaluate the
      comprehension beside Half. */
  lemma RampSix()
    ensures seq(6, j => j + 1) == [1, 2, 3, 4, 5, 6]
  {
  }

  /** `dice(6, 4)`, `dice_gen(6, 4)` and `distribution(6, 4)` all begin with these counts. */
  lemma SixFacesFourDice()
    ensures Half(6, 4) == [1, 4, 10, 20, 35, 56, 80, 104, 125, 140, 146]
  {
    HalfOfTwoDice(6);
    RampSix();
    StageSixThree();
    StageCorrect(6, 2);
    StageSixFour();
    StageCorrect(6, 3);
  }

  /** Stage 3 with 7 faces (k = 1): one pop, the middle entry is not repeated. */
  lemma StageSevenThree()
    ensures Slide(Extended([1, 2, 3, 4, 5, 6, 7], 7, 1), 7) ==
      [1, 3, 6, 10, 15, 21, 28, 33, 36, 37]
  {
    StageByCheck([1, 2, 3, 4, 5, 6, 7], 7, 1, 1, 10,
      [6, 5, 4],
      [1, 3, 6, 10, 15, 21, 28, 33, 36, 37]);
  }

  /** Stage 4 with 7 faces (k = 0): one pop, the middle entry is not repeated. */
  lemma StageSevenFour()
    ensures Slide(Extended([1, 3, 6, 10, 15, 21, 28, 33, 36, 37], 7, 0), 7) ==
      [1, 4, 10, 20, 35, 56, 84, 116, 149, 180, 206, 224, 231]
  {
    StageByCheck([1, 3, 6, 10, 15, 21, 28, 33, 36, 37], 7, 0, 1, 13,
      [36, 33, 28],
      [1, 4, 10, 20, 35, 56, 84, 116, 149, 180, 206, 224, 231]);
  }

  /** Stage 5 with 7 faces (k = 1): one pop, the middle entry is not repeated. */
  lemma StageSevenFive()
    ensures Slide(Extended([1, 4, 10, 20, 35, 56, 84, 116, 149, 180, 206, 224, 231], 7, 1), 7) ==
      [1, 5, 15, 35, 70, 126, 210, 325, 470, 640, 826, 1015, 1190, 1330, 1420, 1451]
  {
    StageByCheck([1, 4, 10, 20, 35, 56, 84, 116, 149, 180, 206, 224, 231], 7, 1, 1, 16,
      [224, 206, 180],
      [1, 5, 15, 35, 70, 126, 210, 325, 470, 640, 826, 1015, 1190, 1330, 1420, 1451]);
  }

  /** The seed for 7 faces; stated apart so that the case lemma does not evaluate the
      comprehension beside Half. */
  lemma RampSeven()
    ensures seq(7, j => j + 1) == [1, 2, 3, 4, 5, 6, 7]
  {
  }

  /** `dice(7, 5)`, `dice_gen(7, 5)` and `distribution(7, 5)` all begin with these counts. */
  lemma SevenFacesFiveDice()
    ensures Half(7, 5) == [1, 5, 15, 35, 70, 126, 210, 325, 470, 640, 826, 1015, 1190, 1330, 1420, 1451]
  {
    HalfOfTwoDice(7);
    RampSeven();
    StageSevenThree();
    StageCorrect(7, 2);
    StageSevenFour();
    StageCorrect(7, 3);
    StageSevenFive();
    StageCorrect(7, 4);
  }
}
