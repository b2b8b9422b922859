# Distribution of the sum of many dice

The repository computes, for `num` dice with `faces` sides, how many ways each total
can be rolled: entry `j` counts the ways to roll `j + num`. The distribution is the
`num`-fold convolution of `faces` ones. It is a palindrome of length
`L = num*(faces-1)+1`, so both engines modelled here keep only its first `ceil(L/2)`
entries. Both use nothing but big-integer addition and subtraction.

- **Half-buffer engine.** This is `dice` in `dice.py`; `dice_gmpy2` is the same code with
  gmpy2 seeds. `distribution` in `dice.cpp` is its line-for-line port.
  - One buffer is allocated once at size `(faces+(num-1)*(faces-1))/2+1`.
  - It is seeded with `1..faces`, which is the half for two dice.
  - For every further die it runs three in-place passes:
    - a mirror pass appends `added` entries read backwards from the end of the half;
    - a downward pass subtracts the entry `faces` places earlier;
    - a forward pass takes the inclusive prefix sum.
- **Streaming engine.** This is `convolve_deque`, chained by `dice_deque_generator` and
  exhausted by `dice_gen`.
  - Each stage slides a window of `faces` entries over its upstream, using a deque and a
    running sum.
  - When upstream is exhausted, the stage drains the deque from both ends: the back
    supplies the mirrored continuation and the front the entries leaving the window.

Modules:
- `DiceDistribution` (distribution.dfy) is the reference.
  - `Ways(faces, k, s)` is the convolution, defined recursively through the window sum
    `Window`.
  - `Dist` is the whole distribution and `Half` its first `HalfLen(faces, k) = ceil(L_k/2)`
    entries.
  - It also holds the facts both engines rely on: support, symmetry, the difference rule,
    the small cases and half-length growth. It also states
    that the counts grow towards the centre and add up to faces^k.
- `Sums` (sums.dfy) holds the index-range sums.
- `HalfBuffer` (half_buffer.dfy) is the shared array engine.
  - Each pass is a method on an `array<int>`, proved equal to a function of the array
    before the pass.
  - Lemmas show what each pass does to a half of the distribution.
  - `FoldDice` is the loop over the dice.
- `DicePy` (dice_py.dfy) and `DiceCpp` (dice_cpp.dfy) are the two entry points. Each has its
  own allocation and seeding:
  - Python's list starts filled with 1;
  - C++'s `mpz_class` array starts filled with 0.
- `DequeStream` (deque_stream.dfy) models one stage as `ConvolveDeque`. It runs the
  source's three loops in turn, each as a method with its own loop: `Fill`, `SlideOn` and
  `DrainLoop` (reached through `Drain`, which does the optional pop). The deque is a `seq`;
  `append`, `popleft` and `pop` are rebuilt as slices. The chain is `DiceDequeGenerator`.
- `PrintedCases` (printed_cases.dfy) holds the values the script prints for `(6, 4)` and
  `(7, 5)`.

The code returns only the half and validates nothing; the model follows the code:
- Both engines return only the half, with no final mirroring. `Unfold` and
  `HalfDeterminesDist` state the mirroring as a reference fact.
- The code does not check its arguments. The domain `faces >= 1 && num >= 2` is a
  precondition.
- `num == 1` has no base case: it is broken in both files (see below).

## Model

| member | source | states |
|---|---|---|
| DiceDistribution.Support | dice.py:16-18 | the reference distribution for k dice is zero below 0 and above k*(faces-1) |
| DiceDistribution.FoldDifference | dice.py:50-55 | one more die changes consecutive entries by the entry entering the window minus the one leaving it: Ways(k+1,s) - Ways(k+1,s-1) == Ways(k,s) - Ways(k,s-faces) |
| DiceDistribution.Symmetry | dice.py:72-73 | the distribution of k dice is a palindrome about k*(faces-1)/2, which is what lets the mirror pass copy entries |
| DiceDistribution.HalfDeterminesDist | dice.py:79 | the half both engines return determines the whole distribution: unfolding it by symmetry to length L gives Dist(faces, k) |
| DiceDistribution.HalfOfTwoDice | dice.py:64 | the seed 1..faces is exactly the half for two dice, and it has length faces |
| DiceDistribution.HalfOfOneFace | dice.py:59-79 | with one-sided dice the half and the whole distribution are [1] for any number of dice |
| DiceDistribution.SpanParity | dice.py:66-69 | k*(faces-1) is 2*HalfLen - 2 plus the parity flag ((faces+1) mod 2)*(k mod 2), i.e. the flag is 1 exactly when L is even |
| DiceDistribution.SpanOddness | dice.py:66-71 | the length k*(faces-1)+1 is odd exactly when the flag fmod & k is 0 |
| DiceDistribution.WaysTotalPow | dice.py:16-18 | the counts Ways(faces, k, s) over the support 0..k*(faces-1) add up to faces^k |
| DiceDistribution.TotalCount | dice.py:16-18 | the entries of the distribution for k dice add up to faces^k: each of the faces^k outcomes is counted exactly once |
| DiceDistribution.HalfGrowth | dice.py:69-74 | one more die grows the half by exactly (faces-1)/2 + (fmod & k), the value `added` takes |
| DiceDistribution.MonoStep | dice.py:16-18 | up to the middle of the support (2*(s+1) <= k*(faces-1)), each count is at most the next one |
| DiceDistribution.Mono | dice.py:16-18 | the counts do not decrease from index a to index b whenever a <= b and 2*b <= k*(faces-1); by symmetry they do not increase past the middle |
| DiceDistribution.CentreIsMax | dice.cpp:36-40 | the last entry of the half, Ways(HalfLen-1), is the largest count of the whole distribution, which is what the max scan over the result finds |
| DiceDistribution.HalfMonotone | dice.py:67-74 | half lengths never shrink as dice are added, so every intermediate half fits in the final allocation |
| DiceDistribution.MirrorTailOfHalf | dice.py:72-73 | reading the half backwards, skipping 1 - flag entries at its end, yields the next entries of the same distribution |
| HalfBuffer.AllocCoversHalf | dice.py:61-63 | the allocation is the final half plus exactly one spare slot when L is even |
| HalfBuffer.OneDieAllocation | dice.cpp:8-11 | with one die the allocation is shorter than the seed 1..faces exactly when faces >= 3 |
| HalfBuffer.MirrorStep | dice.py:72-73 | the mirror loop sets vec[length+j] to the old vec[length+correction-j] for j < added and changes no other entry |
| HalfBuffer.DifferenceStep | dice.py:75-76 | the downward loop has the effect of the out-of-place update new[j] = old[j] - old[j-faces] for faces <= j < length; every other entry is unchanged |
| HalfBuffer.PrefixSumStep | dice.py:77-78 | the forward loop leaves vec[j] equal to the sum of the old vec[0..j] for j < length and nothing else changes |
| HalfBuffer.MirrorExtendsHalf | dice.py:69-74 | after the mirror pass the first length+added entries are the distribution for i dice, whatever the parity |
| HalfBuffer.DifferencedIsFoldDelta | dice.py:75-76 | on a mirrored half, the differencing pass yields the consecutive differences of the distribution for i+1 dice |
| HalfBuffer.Telescope | dice.py:77-78 | prefix sums of those consecutive differences give back the distribution |
| HalfBuffer.PrefixSumOfFoldDelta | dice.py:77-78 | the prefix-sum pass turns the consecutive differences into the half for i+1 dice |
| HalfBuffer.FoldStep | dice.py:69-78 | the three passes turn the half for i dice into the half for i+1 dice and leave every entry past the new length unchanged |
| HalfBuffer.FoldNextDie | dice.cpp:16-25 | one pass of the loop on the array: the new length is HalfLen(i+1), the prefix is the half for i+1 dice, and nothing past it is written |
| HalfBuffer.FoldDice | dice.cpp:12-26 | the loop over i = 2..num-1 leaves the half for num dice in vec[..HalfLen(num)] and never touches the tail of the buffer |
| DicePy.Dice | dice.py:59-79 | dice(faces, num) returns the half for num dice followed by one spare entry 1 exactly when L is even; two dice give [1..faces] and one-sided dice give [1] |
| DiceCpp.Distribution | dice.cpp:6-28 | distribution(faces, num) returns a fresh array of the allocated size whose first HalfLen entries are the half for num dice and whose spare slot keeps its default 0 |
| DequeStream.ConvolveDeque | dice.py:140-163 | a stage outputs len(s) + floor((n - drop)/2) values, the window sums of width n over s continued by its mirror image |
| DequeStream.Fill | dice.py:146-152 | the first loop leaves q equal to the first n upstream entries and r equal to their sum, and yields n running sums, each the window sum ending at that entry |
| DequeStream.SlideOn | dice.py:153-157 | the second loop leaves q equal to the last n upstream entries and r equal to their sum, and yields the window sum of width n ending at every upstream entry |
| DequeStream.Drain | dice.py:158-163 | after upstream is exhausted, an optional pop followed by the drain loop produces exactly the window sums over the mirrored continuation |
| DequeStream.DrainLoop | dice.py:160-163 | the drain loop, taking pop into and popleft out of the window, yields the remaining window sums of the continuation |
| DequeStream.DequeShift | dice.py:154-156 | popleft followed by append moves a deque holding s[lo..hi] to s[lo+1..hi+1] |
| DequeStream.DequeEnds | dice.py:161-162 | pop and popleft take s[hi-1] and s[lo] from a deque holding s[lo..hi] and leave s[lo+1..hi-1] |
| DequeStream.DrainStep | dice.py:161-163 | the entry popped from the back is the next entry of the mirrored continuation, and r moves to the next window sum |
| DequeStream.WindowIsSliceSum | dice.py:148-157 | a window sum over a prefix of the distribution for k dice is the value Window(k) that defines the distribution for k+1 dice |
| DequeStream.SlideOfWays | dice.py:140-145 | convolving the distribution for k dice with faces ones gives the distribution for k+1 dice |
| DequeStream.DrainMatchesParity | dice.py:158-159 | the back is popped exactly when L_k = k*(faces-1)+1, the length of the distribution whose half is upstream, is odd, and the drain then adds exactly the growth of the half |
| DequeStream.ExtendedHalf | dice.py:158-163 | the half for k dice, read on into its mirror image as the drain does, is the first HalfLen(k+1) entries of the distribution for k dice |
| DequeStream.StageCorrect | dice.py:169-170 | stage i (called with k = i % 2) turns the half for i-1 dice into the half for i dice |
| DequeStream.DiceDequeGenerator | dice.py:166-176 | dice_gen(faces, num) is exactly the half for num dice, the same values as the first HalfLen entries of dice(faces, num) |
| PrintedCases.SixFacesFourDice | dice.py:188-191 | the printed case (6, 4) begins 1, 4, 10, 20, 35, 56, 80, 104, 125, 140, 146 |
| PrintedCases.SevenFacesFiveDice | dice.py:188-191 | the printed case (7, 5) begins 1, 5, 15, 35, ..., 1420, 1451 |

## Left out

- `dice_polypow`, `dice_polypow_gmpy2`, `dice_squaring`, `dice_squaring_gmpy2` (dice.py:16-47) call numpy's `polypow` and `convolve`, which are not part of this model. The reference function `Ways` takes their place.
- `dice_numpy` (dice.py:106-131) is the same algorithm written with numpy slicing, `copy` and `cumsum`, whose semantics live in the library.
- diceomp.cpp is not part of this model. Its point is OpenMP parallel differencing and prefix sums.
- The harness is left out: both `main` functions, argv parsing, the max scan (whose result `DiceDistribution.CentreIsMax` states), `timeit`, `print` and `sys.setrecursionlimit`.
- Generators are modelled eagerly. Each `convolve_deque` stage is a method from a finite sequence to a sequence, and `dice_gen`'s `list(...)` is the identity on it. Laziness and early stopping by the consumer are not modelled.
- DequeStream.ConvolveDeque: requires `1 <= n` and at least `n` upstream entries. With fewer entries, the StopIteration raised by `next(gen)` inside the Python 2 generator just ends the stream: the stage yields the running sums it has and never reaches the drain (dice.py:158-163). With `n == 0`, `q.popleft()` at dice.py:155 raises IndexError on the empty deque. Neither is modelled; `dice_deque_generator` reaches neither, since it passes `n = faces >= 1` and its upstream always has at least `faces` entries.
- DicePy.Dice, DiceCpp.Distribution and DequeStream.DiceDequeGenerator require `num >= 2`. With one die:
  - Python's slice assignment grows the list when `faces >= 3`, and every `faces` gives `[1..faces]`;
  - C++ writes past the array when `faces >= 3` (see `HalfBuffer.OneDieAllocation`);
  - the generator returns the seed unchanged.
- DiceCpp.Distribution: the allocation size is computed in a 32-bit `int`. The model requires that `faces+(num-1)*(faces-1)` is at most 2^31-1 rather than modelling the wrap-around.
- Big integers (Python long, gmpy2 `mpz`, `mpz_class`) are Dafny `int`.
- `fmod & i` is modelled as `fmod * (i % 2)`, which is the same because `fmod` is 0 or 1.
- The Python 2 `/` on non-negative operands is floor division, which equals Dafny's `/` there.
- HalfBuffer.FoldDice: states `faces <= vec.Length` as a separate precondition. The allocation already implies it, and both callers prove it.
- The code does not check its arguments and never mirrors the half into the full distribution. The mirroring appears only as the reference facts `Unfold` and `HalfDeterminesDist`.
- Strict growth of the counts towards the centre is not stated, because it is false: when L is even the two middle entries are equal. Non-strict growth is `DiceDistribution.Mono`.
