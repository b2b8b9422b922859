/** dice.py's `dice` (and `dice_gmpy2`, the same code with gmpy2 seeds): the
    half-buffer engine on a list seeded with ones. */
module DicePy {
  import opened DiceDistribution
  import opened HalfBuffer

  /** The list `dice(faces, num)` returns: the first ceil(L/2) counts of the sum of
      num dice, followed by the one spare slot the allocation has when L is even,
      which keeps the 1 it was created with.  Two dice give the ramp 1..faces and
      one-sided dice give [1]. */
  method Dice(faces: int, num: int) returns (r: seq<int>)
    requires faces >= 1 && num >= 2
    ensures |r| == HalfLen(faces, num) + (if (num * (faces - 1) + 1) % 2 == 0 then 1 else 0)
    ensures r[..HalfLen(faces, num)] == Half(faces, num)
    ensures forall x :: HalfLen(faces, num) <= x < |r| ==> r[x] == 1
    ensures num == 2 ==> r == seq(faces, j => j + 1)
    ensures faces == 1 ==> r == [1]
  {
    var length := (faces + (num - 1) * (faces - 1)) / 2 + 1;
    assert length == Alloc(faces, num) ==
      HalfLen(faces, num) + (if (num * (faces - 1) + 1) % 2 == 0 then 1 else 0) by {
      AllocCoversHalf(faces, num);
    }
    assert faces <= HalfLen(faces, num) by {
      HalfMonotone(faces, 2, num);
      assert HalfLen(faces, 2) == faces;
    }
    var vec := new int[length](_ => 1);
    // vec[:faces] = range(1, faces + 1)
    forall x | 0 <= x < faces {
      vec[x] := x + 1;
    }
    FoldDice(vec, faces, num);
    r := vec[..];
    assert forall x :: HalfLen(faces, num) <= x < |r| ==> r[x] == r[HalfLen(faces, num)..][x - HalfLen(faces, num)];
    if num == 2 {
      HalfOfTwoDice(faces);
      assert r == r[..HalfLen(faces, num)];
    }
    if faces == 1 {
      HalfOfOneFace(num);
      assert r == r[..HalfLen(faces, num)];
    }
  }
}
