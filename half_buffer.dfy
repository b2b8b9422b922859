/** The half-buffer engine shared by dice.py's `dice` and its line-for-line C++ port
    `distribution`: one buffer holding the first half of the distribution, grown in
    place by one mirror pass, one downward differencing pass and one prefix-sum pass
    per further die. */
module HalfBuffer {
  import opened Sums
  import opened DiceDistribution

  /** The buffer size both sources allocate, (faces + (num-1)*(faces-1))/2 + 1. */
  function Alloc(faces: nat, num: nat): int
  {
    (faces + (num - 1) * (faces - 1)) / 2 + 1
  }

  /** The allocation holds the final half, plus exactly one slot more when the final
      length L = num*(faces-1)+1 is even. */
  lemma AllocCoversHalf(faces: nat, num: nat)
    requires faces >= 1 && num >= 1
    ensures Alloc(faces, num) == HalfLen(faces, num) + (if (num * (faces - 1) + 1) % 2 == 0 then 1 else 0)
  {
    SpanParity(faces, num);
    assert faces + (num - 1) * (faces - 1) == num * (faces - 1) + 1;
  }

  /** With a single die the allocation is shorter than the seed 1..faces exactly when
      faces >= 3, which is why one die is outside the engines' domain. */
  lemma OneDieAllocation(faces: nat)
    requires faces >= 1
    ensures Alloc(faces, 1) < faces <==> faces >= 3
  {
  }

  // ---------------------------------------------------------------------------
  // The three passes, as functions of the buffer before the pass

  /** The buffer after the mirror pass: `added` slots from `length` on receive the
      entries vec[length + correction - j], the rest is unchanged. */
  function Mirrored(s: seq<int>, length: nat, added: nat, correction: int): seq<int>
    requires length + added <= |s|
    requires correction < 0 && added + (-1 - correction) <= length
  {
    s[..length] + MirrorTail(s[..length], -1 - correction, added) + s[length + added..]
  }

  /** The buffer after the differencing pass: each entry at or above `faces` and below
      `length` has lost the entry `faces` places earlier, as it was before the pass. */
  function Differenced(s: seq<int>, faces: nat, length: nat): seq<int>
    requires length <= |s|
  {
    seq(|s|, x requires 0 <= x < |s| => if faces <= x < length then s[x] - s[x - faces] else s[x])
  }

  /** The buffer after the prefix-sum pass: an inclusive prefix sum below `length`. */
  function PrefixSummed(s: seq<int>, length: nat): seq<int>
    requires length <= |s|
  {
    seq(|s|, x requires 0 <= x < |s| => if x < length then Sum(s, 0, x + 1) else s[x])
  }

  method MirrorStep(vec: array<int>, length: nat, added: nat, correction: int)
    requires length + added <= vec.Length
    requires correction < 0 && added + (-1 - correction) <= length
    modifies vec
    ensures vec[..] == Mirrored(old(vec[..]), length, added, correction)
  {
    var j := 0;
    while j < added
      invariant 0 <= j <= added
      invariant forall x :: 0 <= x < vec.Length ==>
        vec[x] == if length <= x < length + j then old(vec[length + correction - (x - length)]) else old(vec[x])
    {
      vec[j + length] := vec[length + correction - j];
      j := j + 1;
    }
    assert vec[..] == Mirrored(old(vec[..]), length, added, correction);
  }

  method DifferenceStep(vec: array<int>, faces: nat, length: nat)
    requires length <= vec.Length
    modifies vec
    ensures vec[..] == Differenced(old(vec[..]), faces, length)
  {
    ghost var t := Differenced(vec[..], faces, length);
    var j: int := length - 1;
    while j >= faces
      invariant faces - 1 <= j < length || j == length - 1 < faces
      invariant forall x :: 0 <= x < vec.Length ==> vec[x] == if j < x then t[x] else old(vec[x])
    {
      vec[j] := vec[j] - vec[j - faces];
      j := j - 1;
    }
    assert vec[..] == t;
  }

  method PrefixSumStep(vec: array<int>, length: nat)
    requires length <= vec.Length
    modifies vec
    ensures vec[..] == PrefixSummed(old(vec[..]), length)
  {
    ghost var s := vec[..];
    var j := 1;
    while j < length
      invariant 1 <= j && (j <= length || length == 0)
      invariant forall x :: 0 <= x < vec.Length ==>
        vec[x] == if x < j && x < length then Sum(s, 0, x + 1) else s[x]
    {
      vec[j] := vec[j] + vec[j - 1];
      j := j + 1;
    }
    assert vec[..] == PrefixSummed(s, length);
  }

  // ---------------------------------------------------------------------------
  // What each pass does to a half of the distribution

  /** The mirror pass turns the half for i dice into the first HalfLen(i+1) entries of
      the same distribution, using its symmetry. */
  lemma MirrorExtendsHalf(faces: nat, i: nat, s: seq<int>, length: nat, added: nat, correction: int)
    requires faces >= 1 && i >= 2
    requires length == HalfLen(faces, i) && length + added <= |s|
    requires added == (faces - 1) / 2 + EvenFlag(faces, i) && correction == EvenFlag(faces, i) - 2
    requires forall x :: 0 <= x < length ==> s[x] == Ways(faces, i, x)
    ensures added + (-1 - correction) <= length
    ensures forall x :: 0 <= x < length + added ==>
      Mirrored(s, length, added, correction)[x] == Ways(faces, i, x)
  {
    assert faces <= length by {
      HalfMonotone(faces, 2, i);
      assert HalfLen(faces, 2) == faces;
    }
    var h := s[..length];
    var t := MirrorTail(h, -1 - correction, added);
    assert forall j :: 0 <= j < added ==> t[j] == Ways(faces, i, length + j) by {
      MirrorTailOfHalf(faces, i, h, -1 - correction, added);
    }
    var m := Mirrored(s, length, added, correction);
    assert m == h + t + s[length + added..];
    forall x | 0 <= x < length + added
      ensures m[x] == Ways(faces, i, x)
    {
      if x >= length {
        assert m[x] == t[x - length];
      }
    }
  }

  /** On the first `length` entries of the distribution for k dice, the differencing
      pass yields the consecutive differences of the distribution for k+1 dice. */
  lemma DifferencedIsFoldDelta(faces: nat, k: nat, s: seq<int>, length: nat)
    requires faces >= 1 && length <= |s|
    requires forall x :: 0 <= x < length ==> s[x] == Ways(faces, k, x)
    ensures forall x :: 0 <= x < length ==>
      Differenced(s, faces, length)[x] == Ways(faces, k + 1, x) - Ways(faces, k + 1, x - 1)
  {
    forall x | 0 <= x < length
      ensures Differenced(s, faces, length)[x] == Ways(faces, k + 1, x) - Ways(faces, k + 1, x - 1)
    {
      FoldDifference(faces, k, x);
      Support(faces, k, x - faces);
    }
  }

  /** The prefix sums of consecutive differences give back the distribution. */
  lemma {:induction false} Telescope(faces: nat, k: nat, d: seq<int>, x: nat)
    requires faces >= 1 && x < |d|
    requires forall t :: 0 <= t <= x ==> d[t] == Ways(faces, k, t) - Ways(faces, k, t - 1)
    ensures Sum(d, 0, x + 1) == Ways(faces, k, x)
  {
    if x == 0 {
      Support(faces, k, -1);
    } else {
      Telescope(faces, k, d, x - 1);
    }
  }

  lemma PrefixSumOfFoldDelta(faces: nat, k: nat, d: seq<int>, length: nat)
    requires faces >= 1 && length <= |d|
    requires forall x :: 0 <= x < length ==> d[x] == Ways(faces, k, x) - Ways(faces, k, x - 1)
    ensures forall x :: 0 <= x < length ==> PrefixSummed(d, length)[x] == Ways(faces, k, x)
  {
    forall x | 0 <= x < length
      ensures PrefixSummed(d, length)[x] == Ways(faces, k, x)
    {
      Telescope(faces, k, d, x);
    }
  }

  /** One pass of the engine loop, on values: the three passes turn the half for i
      dice into the half for i+1 dice and leave everything past it unchanged. */
  lemma FoldStep(faces: nat, i: nat, s: seq<int>, length: nat, added: nat, correction: int)
    requires faces >= 1 && i >= 2
    requires length == HalfLen(faces, i) && length + added <= |s|
    requires added == (faces - 1) / 2 + EvenFlag(faces, i) && correction == EvenFlag(faces, i) - 2
    requires forall x :: 0 <= x < length ==> s[x] == Ways(faces, i, x)
    ensures added + (-1 - correction) <= length
    ensures var t := PrefixSummed(Differenced(Mirrored(s, length, added, correction), faces, length + added), length + added);
      (forall x :: 0 <= x < length + added ==> t[x] == Ways(faces, i + 1, x)) &&
      (forall x :: length + added <= x < |s| ==> t[x] == s[x])
  {
    MirrorExtendsHalf(faces, i, s, length, added, correction);
    var s1 := Mirrored(s, length, added, correction);
    DifferencedIsFoldDelta(faces, i, s1, length + added);
    var s2 := Differenced(s1, faces, length + added);
    PrefixSumOfFoldDelta(faces, i + 1, s2, length + added);
  }

  // ---------------------------------------------------------------------------
  // The engine loop

  /** The body of the engine loop for index i: folds die i+1 into a buffer holding
      the half for i dice and returns the new half length. */
  method FoldNextDie(vec: array<int>, faces: nat, fmod: nat, i: nat, length: nat) returns (length': nat)
    requires faces >= 1 && i >= 2 && fmod == (faces + 1) % 2
    requires length == HalfLen(faces, i) && HalfLen(faces, i + 1) <= vec.Length
    requires forall x :: 0 <= x < length ==> vec[x] == Ways(faces, i, x)
    modifies vec
    ensures length' == HalfLen(faces, i + 1)
    ensures forall x :: 0 <= x < length' ==> vec[x] == Ways(faces, i + 1, x)
    ensures forall x :: length' <= x < vec.Length ==> vec[x] == old(vec[x])
  {
    var e := fmod * (i % 2);       // fmod & i, as fmod is 0 or 1
    var correction := -2 + e;
    var added := (faces - 1) / 2 + e;
    HalfGrowth(faces, i);
    ghost var s0 := vec[..];
    FoldStep(faces, i, s0, length, added, correction);
    ghost var s1 := Mirrored(s0, length, added, correction);
    ghost var s2 := Differenced(s1, faces, length + added);
    ghost var s3 := PrefixSummed(s2, length + added);
    MirrorStep(vec, length, added, correction);
    assert vec[..] == s1;
    length' := length + added;
    DifferenceStep(vec, faces, length');
    assert vec[..] == s2;
    PrefixSumStep(vec, length');
    assert vec[..] == s3;
  }

  /** Folds dice 3..num into a buffer seeded with the two-dice half 1..faces; the
      tail of the buffer past the final half is never written. */
  method FoldDice(vec: array<int>, faces: nat, num: nat)
    requires faces >= 1 && num >= 2
    requires vec.Length == Alloc(faces, num) && faces <= vec.Length
    requires forall x :: 0 <= x < faces ==> vec[x] == x + 1
    modifies vec
    ensures HalfLen(faces, num) <= vec.Length
    ensures vec[..HalfLen(faces, num)] == Half(faces, num)
    ensures vec[HalfLen(faces, num)..] == old(vec[HalfLen(faces, num)..])
  {
    AllocCoversHalf(faces, num);
    HalfOfTwoDice(faces);
    HalfMonotone(faces, 2, num);
    var fmod := (faces + 1) % 2;   // (faces + 1) & 1
    var length := faces;
    var i := 2;
    while i < num
      invariant 2 <= i <= num
      invariant length == HalfLen(faces, i) <= HalfLen(faces, num) <= vec.Length
      invariant forall x :: 0 <= x < length ==> vec[x] == Ways(faces, i, x)
      invariant forall x :: length <= x < vec.Length ==> vec[x] == old(vec[x])
    {
      HalfMonotone(faces, i + 1, num);
      length := FoldNextDie(vec, faces, fmod, i, length);
      i := i + 1;
    }
    assert vec[..HalfLen(faces, num)] == Half(faces, num);
  }
}
