/** dice.cpp's `distribution`: the same engine on a heap array of mpz_class, whose
    default value is 0; the allocation size is computed in a C++ int. */
module DiceCpp {
  import opened DiceDistribution
  import opened HalfBuffer

  const INT_MAX: int := 0x7fff_ffff

  /** The array `distribution(faces, num)` returns: the first ceil(L/2) counts of the
      sum of num dice, and a spare slot still holding 0 when L is even. */
  method Distribution(faces: int, num: int) returns (vec: array<int>)
    requires faces >= 1 && num >= 2
    requires faces + (num - 1) * (faces - 1) <= INT_MAX
    ensures fresh(vec)
    ensures vec.Length == Alloc(faces, num) && HalfLen(faces, num) <= vec.Length
    ensures vec[..HalfLen(faces, num)] == Half(faces, num)
    ensures forall x :: HalfLen(faces, num) <= x < vec.Length ==> vec[x] == 0
  {
    AllocCoversHalf(faces, num);
    HalfMonotone(faces, 2, num);
    var length := (faces + (num - 1) * (faces - 1)) / 2 + 1;
    vec := new int[length](_ => 0);
    var i := 0;
    while i < faces
      invariant 0 <= i <= faces
      invariant forall x :: 0 <= x < i ==> vec[x] == x + 1
      invariant forall x :: i <= x < vec.Length ==> vec[x] == 0
    {
      vec[i] := i + 1;
      i := i + 1;
    }
    FoldDice(vec, faces, num);
    assert forall x :: HalfLen(faces, num) <= x < vec.Length ==> vec[x] == vec[HalfLen(faces, num)..][x - HalfLen(faces, num)];
  }
}
